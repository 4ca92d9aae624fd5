/** The batch follows the parser and the chaos engine: over disjoint frames, each packet's
    fate, its output record and the counters are those of the verdict on its original bytes,
    whatever was done to the frames before it. */
module BatchVerdicts {
  import opened Machine
  import opened PacketParser
  import opened ChaosEngine
  import opened TimingWheels
  import opened DataPlane
  import opened BatchAccounting
  import opened BatchFates
  import opened BatchInvolution

  /** The verdict on every descriptor, all on the same bytes. */
  function Verdicts(umem: seq<Byte>, rx: seq<PacketDescriptor>, config: BatchConfig): (r: seq<Verdict>)
    ensures |r| == |rx|
    ensures forall i :: 0 <= i < |rx| ==> r[i] == Judge(umem, rx[i], config)
  {
    seq(|rx|, i requires 0 <= i < |rx| => Judge(umem, rx[i], config))
  }

  /** The records of the descriptors with a given fate, in order. */
  function Labelled(rx: seq<PacketDescriptor>, vs: seq<Verdict>, fates: seq<Fate>, fate: Fate): seq<ProcessedFrame>
    requires |rx| == |vs| == |fates|
    decreases |rx|
  {
    if rx == [] then []
    else
      var n := |rx| - 1;
      Labelled(rx[..n], vs[..n], fates[..n], fate) + if fates[n] == fate then [vs[n].Processed(rx[n])] else []
  }

  lemma LabelledOneMore(rx: seq<PacketDescriptor>, vs: seq<Verdict>, fates: seq<Fate>,
                        d: PacketDescriptor, v: Verdict, got: Fate, fate: Fate)
    requires |rx| == |vs| == |fates|
    ensures Labelled(rx + [d], vs + [v], fates + [got], fate) ==
            Labelled(rx, vs, fates, fate) + if got == fate then [v.Processed(d)] else []
  {
    assert (rx + [d])[..|rx|] == rx && (vs + [v])[..|rx|] == vs && (fates + [got])[..|rx|] == fates;
  }

  predicate Malformed(v: Verdict) { !v.valid || v.packet.status != Ok }

  predicate Invalid(v: Verdict) { !v.valid }

  predicate Corrupts(v: Verdict) {
    v.valid && Forwards(v) && v.decision.action == CORRUPT && CorruptOffset(v.packet, v.decision.hash).Some?
  }

  function HowMany(vs: seq<Verdict>, test: Verdict -> bool): nat {
    if vs == [] then 0 else HowMany(vs[..|vs| - 1], test) + if test(vs[|vs| - 1]) then 1 else 0
  }

  function Bytes(rx: seq<PacketDescriptor>): nat {
    if rx == [] then 0 else Bytes(rx[..|rx| - 1]) + rx[|rx| - 1].length
  }

  ghost predicate OutputsLabelled(b: Batch, rx: seq<PacketDescriptor>, vs: seq<Verdict>) {
    && |b.fates| == |rx| == |vs|
    && b.tx == Labelled(rx, vs, b.fates, Sent)
    && b.recycle == Labelled(rx, vs, b.fates, Recycled)
  }

  ghost predicate CountersTally(b: Batch, rx: seq<PacketDescriptor>, vs: seq<Verdict>) {
    && b.stats.malformed == HowMany(vs, Malformed)
    && b.stats.invalidDescriptors == HowMany(vs, Invalid)
    && b.stats.corrupted == HowMany(vs, Corrupts)
    && b.stats.bytesSeen == Bytes(rx)
    && b.stats.scheduleFailures + b.stats.delayed == HowMany(vs, Delays)
  }

  lemma ApplyTallies(b: Batch, d: PacketDescriptor, v: Verdict, config: BatchConfig)
    requires b.wheel.Bounded() && v.Fits(d, |b.umem|)
    ensures var r := Apply(b, d, v, config);
            && r.stats.malformed == b.stats.malformed + (if Malformed(v) then 1 else 0)
            && r.stats.invalidDescriptors == b.stats.invalidDescriptors + (if Invalid(v) then 1 else 0)
            && r.stats.corrupted == b.stats.corrupted + (if Corrupts(v) then 1 else 0)
            && r.stats.bytesSeen == b.stats.bytesSeen + d.length
            && r.stats.scheduleFailures + r.stats.delayed ==
               b.stats.scheduleFailures + b.stats.delayed + (if Delays(v) then 1 else 0)
  {
  }

  lemma EffectLabels(b: Batch, r: Batch, rx: seq<PacketDescriptor>, vs: seq<Verdict>, d: PacketDescriptor, v: Verdict,
                     fate: Fate, config: BatchConfig)
    requires OutputsLabelled(b, rx, vs)
    requires Effect(b, r, d, v.Processed(d), fate, config)
    ensures OutputsLabelled(r, rx + [d], vs + [v])
  {
    LabelledOneMore(rx, vs, b.fates, d, v, fate, Sent);
    LabelledOneMore(rx, vs, b.fates, d, v, fate, Recycled);
    assert b.tx + [] == b.tx && b.recycle + [] == b.recycle;
  }

  lemma OutputsStep(b: Batch, rx: seq<PacketDescriptor>, vs: seq<Verdict>, d: PacketDescriptor, v: Verdict,
                    config: BatchConfig)
    requires b.wheel.Bounded() && v.Fits(d, |b.umem|) && OutputsLabelled(b, rx, vs)
    ensures OutputsLabelled(Apply(b, d, v, config), rx + [d], vs + [v])
  {
    var fate := ApplyEffect(b, d, v, config);
    EffectLabels(b, Apply(b, d, v, config), rx, vs, d, v, fate, config);
  }

  lemma HowManyOneMore(vs: seq<Verdict>, v: Verdict, test: Verdict -> bool)
    ensures HowMany(vs + [v], test) == HowMany(vs, test) + if test(v) then 1 else 0
  {
    assert (vs + [v])[..|vs|] == vs;
  }

  lemma CountersStep(b: Batch, rx: seq<PacketDescriptor>, vs: seq<Verdict>, d: PacketDescriptor, v: Verdict,
                     config: BatchConfig)
    requires b.wheel.Bounded() && v.Fits(d, |b.umem|) && CountersTally(b, rx, vs)
    ensures CountersTally(Apply(b, d, v, config), rx + [d], vs + [v])
  {
    ApplyTallies(b, d, v, config);
    HowManyOneMore(vs, v, Malformed);
    HowManyOneMore(vs, v, Invalid);
    HowManyOneMore(vs, v, Corrupts);
    HowManyOneMore(vs, v, Delays);
    assert (rx + [d])[..|rx|] == rx;
  }

  /** The frames still to come hold their original bytes. */
  ghost predicate Untouched(umem: seq<Byte>, umem': seq<Byte>, rx: seq<PacketDescriptor>) {
    && |umem| == |umem'|
    && forall i :: 0 <= i < |rx| && WithinUmem(rx[i], |umem|) ==> FrameOf(umem', rx[i]) == FrameOf(umem, rx[i])
  }

  lemma JudgeIsLocal(umem: seq<Byte>, umem': seq<Byte>, d: PacketDescriptor, config: BatchConfig)
    requires |umem| == |umem'|
    requires WithinUmem(d, |umem|) ==> FrameOf(umem', d) == FrameOf(umem, d)
    ensures Judge(umem', d, config) == Judge(umem, d, config)
  {
    assert FrameFor(umem', config.mapped, d) == FrameFor(umem, config.mapped, d);
  }

  lemma StillUntouched(umem: seq<Byte>, b: Batch, rx: seq<PacketDescriptor>, config: BatchConfig)
    requires b.wheel.Bounded() && rx != [] && PairwiseApart(rx) && Untouched(umem, b.umem, rx)
    ensures Untouched(umem, ProcessOne(b, rx[0], config).umem, rx[1..])
  {
    ProcessOneUmem(b, rx[0], config);
    var after := ProcessOne(b, rx[0], config).umem;
    forall i | 0 <= i < |rx[1..]| && WithinUmem(rx[1..][i], |umem|)
      ensures FrameOf(after, rx[1..][i]) == FrameOf(umem, rx[1..][i])
    {
      assert rx[1..][i] == rx[i + 1] && Apart(rx[0], rx[i + 1]);
      OutsideSplice(b.umem, after, rx[0], rx[i + 1]);
    }
  }

  lemma OutsideSplice(before: seq<Byte>, after: seq<Byte>, d: PacketDescriptor, e: PacketDescriptor)
    requires |before| == |after| && WithinUmem(e, |before|) && Apart(d, e)
    requires after == before ||
             (WithinUmem(d, |before|) && exists part :: |part| == d.length && after == Splice(before, d.address, part))
    ensures FrameOf(after, e) == FrameOf(before, e)
  {
    if after != before {
      var part :| |part| == d.length && after == Splice(before, d.address, part);
      assert forall i :: e.address <= i < e.address + e.length ==> after[i] == before[i];
    }
  }

  ghost predicate Follows(b: Batch, rx: seq<PacketDescriptor>, vs: seq<Verdict>, t: Trace, config: BatchConfig)
    requires t.wheel.Bounded()
  {
    Fated(b, rx, vs, t, config) && OutputsLabelled(b, rx, vs) && CountersTally(b, rx, vs)
  }

  lemma FollowsStep(umem: seq<Byte>, b: Batch, done: seq<PacketDescriptor>, vs: seq<Verdict>, d: PacketDescriptor,
                    t: Trace, config: BatchConfig)
    requires b.wheel.Bounded() && t.wheel.Bounded() && Follows(b, done, vs, t, config) && Untouched(umem, b.umem, [d])
    ensures Follows(ProcessOne(b, d, config), done + [d], vs + [Judge(umem, d, config)], t, config)
  {
    var v := Judge(umem, d, config);
    assert [d][0] == d;
    JudgeIsLocal(umem, b.umem, d, config);
    FatedStep(b, done, vs, d, v, t, config);
    OutputsStep(b, done, vs, d, v, config);
    CountersStep(b, done, vs, d, v, config);
  }

  lemma {:induction false} VerdictsHold(umem: seq<Byte>, b: Batch, done: seq<PacketDescriptor>, vs: seq<Verdict>,
                                        rx: seq<PacketDescriptor>, t: Trace, config: BatchConfig)
    requires b.wheel.Bounded() && t.wheel.Bounded() && Follows(b, done, vs, t, config)
    requires PairwiseApart(rx) && Untouched(umem, b.umem, rx)
    ensures Follows(ProcessAll(b, rx, config), done + rx, vs + Verdicts(umem, rx, config), t, config)
    decreases |rx|
  {
    if rx == [] {
      assert done + rx == done && vs + Verdicts(umem, rx, config) == vs;
    } else {
      FollowsStep(umem, b, done, vs, rx[0], t, config);
      StillUntouched(umem, b, rx, config);
      var next, v := ProcessOne(b, rx[0], config), Judge(umem, rx[0], config);
      VerdictsHold(umem, next, done + [rx[0]], vs + [v], rx[1..], t, config);
      MoveOver(done, rx);
      VerdictsSplit(umem, rx, config);
      Regroup(vs, v, Verdicts(umem, rx[1..], config));
    }
  }

  lemma Regroup(vs: seq<Verdict>, v: Verdict, rest: seq<Verdict>)
    ensures vs + [v] + rest == vs + ([v] + rest)
  {
  }

  lemma VerdictsSplit(umem: seq<Byte>, rx: seq<PacketDescriptor>, config: BatchConfig)
    requires rx != []
    ensures Verdicts(umem, rx, config) == [Judge(umem, rx[0], config)] + Verdicts(umem, rx[1..], config)
  {
  }

  /** Over pairwise disjoint descriptors the whole batch is decided by the bytes UMEM held
      before it: every packet meets the one fate its verdict deserves, the wheel is asked for
      exactly the delays of the delaying verdicts in arrival order, the outputs are the
      verdicts' records, and the counters count verdicts and fates. */
  lemma BatchFollowsVerdicts(umem: seq<Byte>, t: Trace, rx: seq<PacketDescriptor>, config: BatchConfig)
    requires t.wheel.Bounded() && PairwiseApart(rx)
    ensures Follows(ProcessBatch(umem, t.wheel, rx, config), rx, Verdicts(umem, rx, config), t, config)
  {
    VerdictsHold(umem, StartBatch(umem, t.wheel), [], [], rx, t, config);
    assert [] + rx == rx && [] + Verdicts(umem, rx, config) == Verdicts(umem, rx, config);
  }

  /** With outputs as long as the batch, as the adapter has them: a packet is sent exactly if
      its verdict forwards it, none is lost, and no overflow is counted. */
  lemma RoomyBatchSends(umem: seq<Byte>, t: Trace, rx: seq<PacketDescriptor>, config: BatchConfig)
    requires t.wheel.Bounded() && PairwiseApart(rx)
    requires |rx| <= config.txCapacity && |rx| <= config.recycleCapacity
    ensures var b := ProcessBatch(umem, t.wheel, rx, config);
            && |b.fates| == |rx| && b.stats.overflows == 0
            && forall i :: 0 <= i < |rx| ==>
                 var v := Judge(umem, rx[i], config);
                 && (b.fates[i] == Sent <==> Outgoing(v))
                 && (b.fates[i] == Held ==> Delays(v))
                 && b.fates[i] != Overflowed
  {
    BatchFollowsVerdicts(umem, t, rx, config);
    RoomForAll(ProcessBatch(umem, t.wheel, rx, config), rx, Verdicts(umem, rx, config), t, config);
  }
}
