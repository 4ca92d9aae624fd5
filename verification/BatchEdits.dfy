/** What a batch does to each byte of UMEM: forwarded frames have their MAC addresses
    exchanged and, when they are corrupted, the low bit of one payload byte inverted; every
    other byte is as it was. */
module BatchEdits {
  import opened Machine
  import opened Bits
  import opened PacketParser
  import opened ChaosEngine
  import opened Decisions
  import opened TimingWheels
  import opened DataPlane
  import opened BatchInvolution

  /** The payload byte a decision picks, counted from the start of the frame. */
  function PickedByte(packet: PacketView, hash: U64): nat
    requires 0 < packet.payloadLength
  {
    var pick: int := hash;
    packet.payloadOffset + pick % packet.payloadLength
  }

  /** Byte `k` of a frame once the batch is done with it. */
  function ByteAfter(frame: seq<Byte>, packet: PacketView, decision: ChaosDecision, k: nat): int
    requires k < |frame|
  {
    if packet.status != Ok || decision.action == DROP || decision.action == DELAY || |frame| < 14 then frame[k]
    else if k < 6 then frame[k + 6]
    else if k < 12 then frame[k - 6]
    else if decision.action == CORRUPT && 0 < packet.payloadLength && k == PickedByte(packet, decision.hash) then
      Xor(frame[k], 1)
    else frame[k]
  }

  lemma FlipIsXor(b: Byte)
    ensures FlipLowBit(b) == Xor(b, 1)
  {
    XorUnfold(b, 1);
    XorZero(b / 2);
  }

  lemma PickIsInside(frame: seq<Byte>, hash: U64)
    requires Parse(frame).status == Ok
    ensures var p := Parse(frame);
            if p.payloadLength == 0 then CorruptOffset(p, hash) == None
            else CorruptOffset(p, hash) == Some(PickedByte(p, hash)) && 14 <= PickedByte(p, hash) < |frame|
  {
    ParsedPacketFits(frame);
  }

  /** A forwarded frame, byte by byte, given where its picked byte is. */
  lemma ForwardedByte(frame: seq<Byte>, v: Verdict, k: nat)
    requires v.packet.frameLength == |frame| && 14 <= |frame| && Forwards(v) && k < |frame|
    requires if v.packet.payloadLength == 0 then CorruptOffset(v.packet, v.decision.hash) == None
             else CorruptOffset(v.packet, v.decision.hash) == Some(PickedByte(v.packet, v.decision.hash)) &&
                  14 <= PickedByte(v.packet, v.decision.hash)
    ensures EditFrame(frame, v)[k] == ByteAfter(frame, v.packet, v.decision, k)
  {
    FlipIsXor(frame[k]);
  }

  lemma EditedByte(frame: seq<Byte>, rules: seq<ChaosRule>, k: nat)
    requires k < |frame|
    ensures var packet := Parse(frame);
            Edited(frame, rules)[k] == ByteAfter(frame, packet, DecidePacketFast(packet, rules), k)
  {
    var v := VerdictOn(frame, rules);
    if Forwards(v) {
      ParsedPacketFits(frame);
      PickIsInside(frame, v.decision.hash);
      ForwardedByte(frame, v, k);
    }
  }

  /** Over pairwise disjoint descriptors, each byte of each frame in range ends up as its own
      packet's decision says, and every byte outside them is untouched (BatchStaysInFrames). */
  lemma BatchEditsEachByte(umem: seq<Byte>, wheel: WheelModel, rx: seq<PacketDescriptor>, config: BatchConfig,
                           i: nat, k: nat)
    requires wheel.Bounded() && config.mapped && PairwiseApart(rx)
    requires i < |rx| && WithinUmem(rx[i], |umem|) && k < rx[i].length
    ensures var frame := FrameOf(umem, rx[i]);
            var packet := Parse(frame);
            ProcessBatch(umem, wheel, rx, config).umem[rx[i].address + k] ==
            ByteAfter(frame, packet, DecidePacketFast(packet, config.rules), k)
  {
    var edit := (f: seq<Byte>) => Edited(f, config.rules);
    var frame := FrameOf(umem, rx[i]);
    ProcessAllUmem(StartBatch(umem, wheel), rx, config, edit);
    FrameEditedOnce(umem, rx, edit, i);
    EditedByte(frame, config.rules, k);
    assert FrameOf(EditAll(umem, rx, edit), rx[i])[k] == EditAll(umem, rx, edit)[rx[i].address + k];
  }
}
