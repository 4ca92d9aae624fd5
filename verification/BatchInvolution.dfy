/** What a batch does to UMEM: the same self-inverse edit to each frame, so that running it
    twice over disjoint frames restores every byte. */
module BatchInvolution {
  import opened Machine
  import opened PacketParser
  import opened ChaosEngine
  import opened Decisions
  import opened TimingWheels
  import opened DataPlane

  // ---------------------------------------------------------------------------------------
  // One frame
  // ---------------------------------------------------------------------------------------

  function VerdictOn(frame: seq<Byte>, rules: seq<ChaosRule>): (v: Verdict)
    ensures v.packet.frameLength == |frame|
  {
    FrameLengthKept(Some(frame), |frame|);
    var packet := Parse(frame);
    Verdict(true, packet, if packet.status == Ok then DecidePacketFast(packet, rules) else PASS_DECISION)
  }

  /** The bytes of a frame after the batch: edited if it is forwarded, else as they were. */
  function Edited(frame: seq<Byte>, rules: seq<ChaosRule>): (r: seq<Byte>)
    ensures |r| == |frame|
  {
    var v := VerdictOn(frame, rules);
    if Forwards(v) then EditFrame(frame, v) else frame
  }

  lemma SwapMacsTwice(frame: seq<Byte>)
    ensures SwapMacs(SwapMacs(frame)) == frame
  {
  }

  lemma CorruptTwice(frame: seq<Byte>, packet: PacketView, selector: U64)
    requires packet.frameLength == |frame|
    ensures CorruptPayload(CorruptPayload(frame, packet, selector), packet, selector) == frame
  {
  }

  lemma SwapAndCorruptCommute(frame: seq<Byte>, packet: PacketView, selector: U64)
    requires packet.frameLength == |frame| && ETHERNET_HEADER_BYTES <= packet.payloadOffset
    ensures SwapMacs(CorruptPayload(frame, packet, selector)) == CorruptPayload(SwapMacs(frame), packet, selector)
  {
  }

  /** With the verdict unchanged, the edit undoes itself. */
  lemma EditTwice(frame: seq<Byte>, v: Verdict)
    requires v.packet.frameLength == |frame| && ETHERNET_HEADER_BYTES <= v.packet.payloadOffset
    ensures EditFrame(EditFrame(frame, v), v) == frame
  {
    var hash := v.decision.hash;
    SwapMacsTwice(frame);
    if v.decision.action == CORRUPT {
      var swapped := SwapMacs(frame);
      SwapAndCorruptCommute(frame, v.packet, hash);
      CorruptTwice(swapped, v.packet, hash);
    }
  }

  /** The edit changes only MAC bytes and one payload byte, so it cannot change the parse. */
  lemma EditKeepsParse(frame: seq<Byte>, v: Verdict)
    requires v.packet == Parse(frame) && v.packet.status == Ok
    ensures v.packet.frameLength == |frame|
    ensures ETHERNET_HEADER_BYTES <= v.packet.payloadOffset
    ensures Parse(EditFrame(frame, v)) == Parse(frame)
  {
    ParsedPacketFits(frame);
    FrameLengthKept(Some(frame), |frame|);
    EditKeepsHeaders(frame, v);
    ParseReadsOnlyHeaders(frame, EditFrame(frame, v));
  }

  lemma EditKeepsHeaders(frame: seq<Byte>, v: Verdict)
    requires v.packet.frameLength == |frame|
    requires ETHERNET_HEADER_BYTES <= v.packet.payloadOffset <= |frame|
    ensures Agree(frame, EditFrame(frame, v), 12, v.packet.payloadOffset)
  {
    if v.decision.action == CORRUPT {
      var corrupted := CorruptPayload(frame, v.packet, v.decision.hash);
      assert forall i :: 0 <= i < v.packet.payloadOffset ==> corrupted[i] == frame[i];
    }
  }

  /** MAC swap and corruption preserve the parse, hence the fast decision, hence the edit. */
  lemma EditedTwice(frame: seq<Byte>, rules: seq<ChaosRule>)
    ensures Edited(Edited(frame, rules), rules) == frame
  {
    var v := VerdictOn(frame, rules);
    if Forwards(v) {
      EditKeepsParse(frame, v);
      assert VerdictOn(EditFrame(frame, v), rules) == v;
      EditTwice(frame, v);
    }
  }

  // ---------------------------------------------------------------------------------------
  // Any edit, over any descriptors
  // ---------------------------------------------------------------------------------------

  ghost predicate LengthPreserving(edit: seq<Byte> -> seq<Byte>) {
    forall f :: |edit(f)| == |f|
  }

  ghost predicate SelfInverse(edit: seq<Byte> -> seq<Byte>) {
    LengthPreserving(edit) && forall f :: edit(edit(f)) == f
  }

  ghost function EditOne(umem: seq<Byte>, d: PacketDescriptor, edit: seq<Byte> -> seq<Byte>): (r: seq<Byte>)
    requires LengthPreserving(edit)
    ensures |r| == |umem|
  {
    if WithinUmem(d, |umem|) then Splice(umem, d.address, edit(FrameOf(umem, d))) else umem
  }

  ghost function EditAll(umem: seq<Byte>, rx: seq<PacketDescriptor>, edit: seq<Byte> -> seq<Byte>): (r: seq<Byte>)
    requires LengthPreserving(edit)
    ensures |r| == |umem|
    decreases |rx|
  {
    if rx == [] then umem else EditAll(EditOne(umem, rx[0], edit), rx[1..], edit)
  }

  predicate Covers(d: PacketDescriptor, position: nat) {
    d.address <= position < d.address + d.length
  }

  predicate Apart(d: PacketDescriptor, e: PacketDescriptor) {
    d.address + d.length <= e.address || e.address + e.length <= d.address
  }

  ghost predicate PairwiseApart(rx: seq<PacketDescriptor>) {
    forall i, j :: 0 <= i < j < |rx| ==> Apart(rx[i], rx[j])
  }

  /** A byte no descriptor in range covers is left alone. */
  lemma {:induction false} UncoveredUnchanged(umem: seq<Byte>, rx: seq<PacketDescriptor>,
                                              edit: seq<Byte> -> seq<Byte>, position: nat)
    requires LengthPreserving(edit) && position < |umem|
    requires forall i :: 0 <= i < |rx| ==> !(WithinUmem(rx[i], |umem|) && Covers(rx[i], position))
    ensures EditAll(umem, rx, edit)[position] == umem[position]
    decreases |rx|
  {
    if rx == [] {
    } else {
      assert !(WithinUmem(rx[0], |umem|) && Covers(rx[0], position));
      UncoveredUnchanged(EditOne(umem, rx[0], edit), rx[1..], edit, position);
    }
  }

  lemma FrameUntouched(umem: seq<Byte>, rx: seq<PacketDescriptor>, edit: seq<Byte> -> seq<Byte>, d: PacketDescriptor)
    requires LengthPreserving(edit) && WithinUmem(d, |umem|)
    requires forall i :: 0 <= i < |rx| ==> Apart(d, rx[i])
    ensures FrameOf(EditAll(umem, rx, edit), d) == FrameOf(umem, d)
  {
    var after := EditAll(umem, rx, edit);
    forall p: nat | p < |umem| && Covers(d, p)
      ensures after[p] == umem[p]
    {
      UncoveredUnchanged(umem, rx, edit, p);
    }
  }

  /** Over disjoint descriptors, each frame in range ends up edited exactly once. */
  lemma {:induction false} FrameEditedOnce(umem: seq<Byte>, rx: seq<PacketDescriptor>,
                                           edit: seq<Byte> -> seq<Byte>, i: nat)
    requires LengthPreserving(edit) && PairwiseApart(rx)
    requires i < |rx| && WithinUmem(rx[i], |umem|)
    ensures FrameOf(EditAll(umem, rx, edit), rx[i]) == edit(FrameOf(umem, rx[i]))
    decreases |rx|
  {
    var next := EditOne(umem, rx[0], edit);
    if i == 0 {
      assert forall j :: 0 <= j < |rx[1..]| ==> Apart(rx[0], rx[1..][j]);
      FrameUntouched(next, rx[1..], edit, rx[0]);
    } else {
      assert Apart(rx[0], rx[i]);
      assert FrameOf(next, rx[i]) == FrameOf(umem, rx[i]);
      FrameEditedOnce(next, rx[1..], edit, i - 1);
    }
  }

  lemma ByteRestored(umem: seq<Byte>, rx: seq<PacketDescriptor>, edit: seq<Byte> -> seq<Byte>, i: nat, p: nat)
    requires SelfInverse(edit) && PairwiseApart(rx) && p < |umem|
    requires i < |rx| && WithinUmem(rx[i], |umem|) && Covers(rx[i], p)
    ensures EditAll(EditAll(umem, rx, edit), rx, edit)[p] == umem[p]
  {
    var once := EditAll(umem, rx, edit);
    var twice := EditAll(once, rx, edit);
    FrameEditedOnce(umem, rx, edit, i);
    FrameEditedOnce(once, rx, edit, i);
    SameByte(umem, twice, rx[i], p);
  }

  lemma SameByte(umem: seq<Byte>, umem': seq<Byte>, d: PacketDescriptor, p: nat)
    requires |umem| == |umem'| && WithinUmem(d, |umem|) && Covers(d, p)
    requires FrameOf(umem, d) == FrameOf(umem', d)
    ensures p < |umem| && umem[p] == umem'[p]
  {
    assert umem[p] == FrameOf(umem, d)[p - d.address];
    assert umem'[p] == FrameOf(umem', d)[p - d.address];
  }

  /** A self-inverse edit over disjoint descriptors, done twice, restores every byte. */
  lemma EditAllTwice(umem: seq<Byte>, rx: seq<PacketDescriptor>, edit: seq<Byte> -> seq<Byte>)
    requires SelfInverse(edit) && PairwiseApart(rx)
    ensures EditAll(EditAll(umem, rx, edit), rx, edit) == umem
  {
    var once := EditAll(umem, rx, edit);
    var twice := EditAll(once, rx, edit);
    forall p: nat | p < |umem|
      ensures twice[p] == umem[p]
    {
      if i :| 0 <= i < |rx| && WithinUmem(rx[i], |umem|) && Covers(rx[i], p) {
        ByteRestored(umem, rx, edit, i, p);
      } else {
        UncoveredUnchanged(umem, rx, edit, p);
        UncoveredUnchanged(once, rx, edit, p);
      }
    }
  }

  // ---------------------------------------------------------------------------------------
  // The batch is such an edit
  // ---------------------------------------------------------------------------------------

  lemma ApplyUmem(b: Batch, d: PacketDescriptor, v: Verdict, config: BatchConfig)
    requires b.wheel.Bounded() && v.Fits(d, |b.umem|)
    ensures Apply(b, d, v, config).umem ==
            if v.valid && Forwards(v) then Splice(b.umem, d.address, EditFrame(FrameOf(b.umem, d), v)) else b.umem
  {
  }

  lemma JudgeIsVerdictOn(umem: seq<Byte>, d: PacketDescriptor, config: BatchConfig)
    ensures if config.mapped && WithinUmem(d, |umem|)
            then Judge(umem, d, config) == VerdictOn(FrameOf(umem, d), config.rules)
            else !Judge(umem, d, config).valid
  {
  }

  lemma SpliceSame(umem: seq<Byte>, d: PacketDescriptor)
    requires WithinUmem(d, |umem|)
    ensures Splice(umem, d.address, FrameOf(umem, d)) == umem
  {
  }

  lemma ProcessOneUmem(b: Batch, d: PacketDescriptor, config: BatchConfig)
    requires b.wheel.Bounded()
    ensures ProcessOne(b, d, config).umem ==
            if config.mapped && WithinUmem(d, |b.umem|) then
              Splice(b.umem, d.address, Edited(FrameOf(b.umem, d), config.rules))
            else b.umem
  {
    var v := Judge(b.umem, d, config);
    JudgeIsVerdictOn(b.umem, d, config);
    ApplyUmem(b, d, v, config);
    if config.mapped && WithinUmem(d, |b.umem|) {
      SpliceSame(b.umem, d);
    }
  }

  lemma {:induction false} ProcessAllUmem(b: Batch, rx: seq<PacketDescriptor>, config: BatchConfig,
                                          edit: seq<Byte> -> seq<Byte>)
    requires b.wheel.Bounded() && config.mapped && LengthPreserving(edit)
    requires forall f :: edit(f) == Edited(f, config.rules)
    ensures ProcessAll(b, rx, config).umem == EditAll(b.umem, rx, edit)
    decreases |rx|
  {
    if rx == [] {
    } else {
      ProcessOneUmem(b, rx[0], config);
      ProcessAllUmem(ProcessOne(b, rx[0], config), rx[1..], config, edit);
    }
  }

  lemma {:induction false} UnmappedUmem(b: Batch, rx: seq<PacketDescriptor>, config: BatchConfig)
    requires b.wheel.Bounded() && !config.mapped
    ensures ProcessAll(b, rx, config).umem == b.umem
    decreases |rx|
  {
    if rx == [] {
    } else {
      ProcessOneUmem(b, rx[0], config);
      UnmappedUmem(ProcessOne(b, rx[0], config), rx[1..], config);
    }
  }

  /** A batch changes no byte outside the frames it was given. */
  lemma BatchStaysInFrames(umem: seq<Byte>, wheel: WheelModel, rx: seq<PacketDescriptor>, config: BatchConfig,
                           position: nat)
    requires wheel.Bounded() && position < |umem|
    requires forall i :: 0 <= i < |rx| ==> !(WithinUmem(rx[i], |umem|) && Covers(rx[i], position))
    ensures ProcessBatch(umem, wheel, rx, config).umem[position] == umem[position]
  {
    var edit := (f: seq<Byte>) => Edited(f, config.rules);
    if config.mapped {
      ProcessAllUmem(StartBatch(umem, wheel), rx, config, edit);
      UncoveredUnchanged(umem, rx, edit, position);
    } else {
      UnmappedUmem(StartBatch(umem, wheel), rx, config);
    }
  }

  /** Running the batch twice with the same rules over pairwise disjoint descriptors restores
      UMEM byte for byte, whatever the wheels, the output sizes and the tick lengths were. */
  lemma TwiceRestoresUmem(umem: seq<Byte>, wheel: WheelModel, wheel': WheelModel, rx: seq<PacketDescriptor>,
                          config: BatchConfig, config': BatchConfig)
    requires wheel.Bounded() && wheel'.Bounded() && PairwiseApart(rx)
    requires config.rules == config'.rules && config.mapped == config'.mapped
    ensures var once := ProcessBatch(umem, wheel, rx, config).umem;
            ProcessBatch(once, wheel', rx, config').umem == umem
  {
    var edit := (f: seq<Byte>) => Edited(f, config.rules);
    var once := ProcessBatch(umem, wheel, rx, config).umem;
    if config.mapped {
      forall f: seq<Byte>
        ensures edit(edit(f)) == f
      {
        EditedTwice(f, config.rules);
      }
      ProcessAllUmem(StartBatch(umem, wheel), rx, config, edit);
      ProcessAllUmem(StartBatch(once, wheel'), rx, config', edit);
      EditAllTwice(umem, rx, edit);
    } else {
      UnmappedUmem(StartBatch(umem, wheel), rx, config);
      UnmappedUmem(StartBatch(once, wheel'), rx, config');
    }
  }
}
