/** What the kernel transmits is what the data plane decided: from the poll that receives a
    packet until its frame leaves the kernel's TX hand, nothing writes to the frame. */
module ByteIntegrity {
  import opened Machine
  import opened FrameAllocation
  import opened WheelContents
  import opened PacketParser
  import opened ChaosEngine
  import opened Decisions
  import DP = DataPlane
  import opened BatchInvolution
  import opened BatchEdits
  import opened Runtime
  import opened Ledger
  import opened Lifecycle
  import opened PollPhases
  import opened Delivery

  /** Position `p` is a byte of the frame at `a`. */
  predicate Inside(w: World, a: nat, p: nat) {
    a <= p < a + w.rt.pool.frameSize && p < |w.rt.umem|
  }

  /** The frame is on its way out: in the wheel, on the TX ring, or in the kernel's TX hand. */
  ghost predicate Outbound(w: World, a: nat) {
    0 < Contents(w.rt.wheel.slots, a) + CountBy(w.rt.socket.tx.items, DescriptorKey, a) + Count(w.txHand, a)
  }

  /** The owner is neither the pool nor the fill side. */
  ghost predicate Away(w: World, a: nat)
    requires 0 < w.rt.pool.frameSize
  {
    OwnerAt(w.rt.pool, a) in {DataPlane, TxRing}
  }

  lemma OutboundIsAway(w: World, a: nat)
    requires Safe(w) && Outbound(w, a)
    ensures Away(w, a)
  {
    assert AgreesAt(StartPoll(w.rt), w.Outside(), NO_FLIGHT, a);
  }

  /** A frame the kernel may write to, or the data plane is about to, is on the fill side. */
  lemma OnFillSide(w: World, x: nat)
    requires Safe(w) && 0 < Count(w.rxHand, x) + CountBy(w.rt.socket.rx.items, DescriptorKey, x)
    ensures OwnerAt(w.rt.pool, x) == FillRing
  {
    assert AgreesAt(StartPoll(w.rt), w.Outside(), NO_FLIGHT, x);
  }

  /** A write within another frame leaves this one alone. */
  lemma ElsewhereUntouched(w: World, a: nat, p: nat, x: nat, length: nat)
    requires Safe(w) && Away(w, a) && Inside(w, a, p) && OwnerAt(w.rt.pool, x) == FillRing
    requires length <= w.rt.pool.frameSize
    ensures !(x <= p < x + length)
  {
    FramesApart(w.rt.pool, a, x);
  }

  lemma InjectKeepsByte(w: World, k: nat, content: seq<Byte>, options: U32, a: nat, p: nat)
    requires Safe(w) && Away(w, a) && Inside(w, a, p)
    ensures InjectStep(w, k, content, options).rt.umem[p] == w.rt.umem[p]
  {
    if k < |w.rxHand| && |content| <= w.rt.pool.frameSize {
      CountOnce(w.rxHand, k);
      OnFillSide(w, w.rxHand[k]);
      ElsewhereUntouched(w, a, p, w.rxHand[k], |content|);
    }
  }

  lemma ArrivingOnFill(w: World, i: nat)
    requires Sound(w) && i < |Arriving(w)|
    ensures OwnerAt(w.rt.pool, Arriving(w)[i].address) == FillRing
    ensures Arriving(w)[i].length <= w.rt.pool.frameSize
  {
    var ring := w.rt.socket.rx.items;
    assert Arriving(w)[i].address == DescriptorKey(ring[i]);
    CountSame(ring, DescriptorAddresses(ring), DescriptorKey, ring[i].address);
    CountOnce(DescriptorAddresses(ring), i);
    OnFillSide(w, ring[i].address);
  }

  lemma PollKeepsByte(w: World, rules: seq<ChaosRule>, a: nat, p: nat)
    requires Sound(w) && Away(w, a) && Inside(w, a, p)
    ensures |PollStep(w, rules).rt.umem| == |w.rt.umem| && PollStep(w, rules).rt.umem[p] == w.rt.umem[p]
  {
    if w.rt.initialized {
      PollTransmits(w, rules);
      PollBatchIs(w, rules);
      var rx := Arriving(w);
      forall i | 0 <= i < |rx|
        ensures !(DP.WithinUmem(rx[i], |w.rt.umem|) && Covers(rx[i], p))
      {
        ArrivingOnFill(w, i);
        ElsewhereUntouched(w, a, p, rx[i].address, rx[i].length);
      }
      BatchStaysInFrames(w.rt.umem, TimingWheels.Step(w.trace, TimingWheels.TickOp).wheel, rx, PollConfig(rules), p);
    }
  }

  /** No step writes to a frame that is away. */
  lemma StepKeepsByte(w: World, action: Action, a: nat, p: nat)
    requires Sound(w) && Away(w, a) && Inside(w, a, p)
    ensures var r := StepWorld(w, action);
            |r.rt.umem| == |w.rt.umem| && r.rt.umem[p] == w.rt.umem[p]
  {
    match action
    case InitA(n) => InitLeavesOthers(w.rt, Min(n, w.rt.pool.FrameCount()));
    case PollA(rules) => PollKeepsByte(w, rules, a, p);
    case InjectRx(k, content, options) => InjectKeepsByte(w, k, content, options, a, p);
    case _ =>
  }

  /** The frame is on its way out in every state before the last. */
  ghost predicate StaysOutbound(w: World, actions: seq<Action>, a: nat)
    requires w.Bounded()
    decreases |actions|
  {
    actions == [] || (Outbound(w, a) && StaysOutbound(StepWorld(w, actions[0]), actions[1..], a))
  }

  lemma {:induction false} RunKeepsByte(w: World, actions: seq<Action>, a: nat, p: nat)
    requires Sound(w) && Inside(w, a, p) && StaysOutbound(w, actions, a)
    ensures var r := RunWorld(w, actions);
            |r.rt.umem| == |w.rt.umem| && r.rt.umem[p] == w.rt.umem[p]
    decreases |actions|
  {
    if actions == [] {
    } else {
      OutboundIsAway(w, a);
      StepKeepsByte(w, actions[0], a, p);
      StepSound(w, actions[0]);
      StepShape(w, actions[0]);
      RunKeepsByte(StepWorld(w, actions[0]), actions[1..], a, p);
    }
  }

  // ---------------------------------------------------------------------------------------
  // Whole packets
  // ---------------------------------------------------------------------------------------

  /** Byte `k` of an arriving packet, as the decision on it leaves it. */
  function DecidedByte(umem: seq<Byte>, d: DP.PacketDescriptor, rules: seq<ChaosRule>, k: nat): int
    requires DP.WithinUmem(d, |umem|) && k < d.length
  {
    var frame := DP.FrameOf(umem, d);
    ByteAfter(frame, Parse(frame), DecidePacketFast(Parse(frame), rules), k)
  }

  /** The packet at `d` is the one that was there, edited as the rules decide. */
  ghost predicate AsDecided(bytes: seq<Byte>, original: seq<Byte>, d: DP.PacketDescriptor, rules: seq<ChaosRule>) {
    && DP.WithinUmem(d, |original|) && |bytes| == |original|
    && forall k: nat :: k < d.length ==> bytes[d.address + k] == DecidedByte(original, d, rules, k)
  }

  ghost predicate SamePacket(a: seq<Byte>, b: seq<Byte>, d: DP.PacketDescriptor) {
    |a| == |b| && forall p :: d.address <= p < d.address + d.length && p < |a| ==> a[p] == b[p]
  }

  lemma StillAsDecided(before: seq<Byte>, after: seq<Byte>, original: seq<Byte>, d: DP.PacketDescriptor,
                       rules: seq<ChaosRule>)
    requires AsDecided(before, original, d, rules) && SamePacket(before, after, d)
    ensures AsDecided(after, original, d, rules)
  {
  }

  lemma BatchWrites(umem: seq<Byte>, wheel: TimingWheels.WheelModel, rx: seq<DP.PacketDescriptor>,
                    rules: seq<ChaosRule>, after: seq<Byte>, i: nat)
    requires wheel.Bounded() && PairwiseApart(rx) && after == DP.ProcessBatch(umem, wheel, rx, PollConfig(rules)).umem
    requires i < |rx| && DP.WithinUmem(rx[i], |umem|)
    ensures AsDecided(after, umem, rx[i], rules)
  {
    forall k: nat | k < rx[i].length
      ensures after[rx[i].address + k] == DecidedByte(umem, rx[i], rules, k)
    {
      BatchEditsEachByte(umem, wheel, rx, PollConfig(rules), i, k);
    }
  }

  /** UMEM right after a poll is UMEM after its batch. */
  lemma PollUmem(w: World, rules: seq<ChaosRule>, r: World, rx: seq<DP.PacketDescriptor>, wheel: TimingWheels.WheelModel)
    requires Sound(w) && w.rt.initialized && r == PollStep(w, rules) && rx == Arriving(w)
    requires wheel == TimingWheels.Step(w.trace, TimingWheels.TickOp).wheel
    ensures wheel.Bounded() && PairwiseApart(rx)
    ensures forall i :: 0 <= i < |rx| ==> DP.WithinUmem(rx[i], |w.rt.umem|)
    ensures r.rt.umem == DP.ProcessBatch(w.rt.umem, wheel, rx, PollConfig(rules)).umem
  {
    PollTransmits(w, rules);
    PollBatchIs(w, rules);
  }

  /** The packet right after the poll that receives it. */
  lemma PollWrites(w: World, rules: seq<ChaosRule>, r: World, rx: seq<DP.PacketDescriptor>, i: nat)
    requires Sound(w) && w.rt.initialized && r == PollStep(w, rules) && rx == Arriving(w) && i < |rx|
    ensures AsDecided(r.rt.umem, w.rt.umem, rx[i], rules)
  {
    var wheel := TimingWheels.Step(w.trace, TimingWheels.TickOp).wheel;
    PollUmem(w, rules, r, rx, wheel);
    BatchWrites(w.rt.umem, wheel, rx, rules, r.rt.umem, i);
  }

  /** And from then on, as long as it is on its way out. */
  lemma PacketStays(r: World, after: seq<Action>, z: World, d: DP.PacketDescriptor)
    requires Sound(r) && d.length <= r.rt.pool.frameSize
    requires StaysOutbound(r, after, d.address) && z == RunWorld(r, after)
    ensures SamePacket(r.rt.umem, z.rt.umem, d)
  {
    SameSize(r, after, z);
    forall p | d.address <= p < d.address + d.length && p < |r.rt.umem|
      ensures r.rt.umem[p] == z.rt.umem[p]
    {
      RunKeepsByte(r, after, d.address, p);
    }
  }

  lemma {:induction false} SameSize(r: World, after: seq<Action>, z: World)
    requires Sound(r) && z == RunWorld(r, after)
    ensures |z.rt.umem| == |r.rt.umem|
    decreases |after|
  {
    if after == [] {
    } else {
      StepSound(r, after[0]);
      StepKeepsSize(r, after[0]);
      SameSize(StepWorld(r, after[0]), after[1..], z);
    }
  }

  lemma StepKeepsSize(w: World, action: Action)
    requires Sound(w)
    ensures |StepWorld(w, action).rt.umem| == |w.rt.umem|
  {
    match action
    case InitA(n) => InitLeavesOthers(w.rt, Min(n, w.rt.pool.FrameCount()));
    case PollA(rules) => PollSized(w, rules);
    case _ =>
  }

  lemma SoundLeavesIntact(w: World, rules: seq<ChaosRule>, r: World, rx: seq<DP.PacketDescriptor>, i: nat,
                          after: seq<Action>, z: World)
    requires Sound(w) && w.rt.initialized && r == PollStep(w, rules) && rx == Arriving(w) && i < |rx|
    requires StaysOutbound(r, after, rx[i].address) && z == RunWorld(r, after)
    ensures AsDecided(z.rt.umem, w.rt.umem, rx[i], rules)
  {
    PollWrites(w, rules, r, rx, i);
    FitsAfterPoll(w, rules, r, i);
    PacketStays(r, after, z, rx[i]);
    StillAsDecided(r.rt.umem, z.rt.umem, w.rt.umem, rx[i], rules);
  }

  lemma FitsAfterPoll(w: World, rules: seq<ChaosRule>, r: World, i: nat)
    requires Sound(w) && r == PollStep(w, rules) && i < |Arriving(w)|
    ensures Sound(r) && Arriving(w)[i].length <= r.rt.pool.frameSize
  {
    StepSound(w, PollA(rules));
    StepShape(w, PollA(rules));
    ArrivingOnFill(w, i);
  }

  /** End to end, in every run: whatever happens after the poll that receives a packet, as long
      as its frame is on its way out, each byte is the one the kernel delivered, edited exactly
      as the rules of that poll decide: MAC addresses exchanged if it is forwarded, one payload
      bit inverted if it is corrupted, nothing else. */
  lemma PacketLeavesIntact(n: Sizes, umem: seq<Byte>, before: seq<Action>, w: World, rules: seq<ChaosRule>, r: World,
                           rx: seq<DP.PacketDescriptor>, i: nat, after: seq<Action>, z: World)
    requires Sensible(n) && w == RunWorld(Boot(n, umem), before) && w.rt.initialized
    requires r == PollStep(w, rules) && rx == Arriving(w) && i < |rx|
    requires StaysOutbound(r, after, rx[i].address) && z == RunWorld(r, after)
    ensures AsDecided(z.rt.umem, w.rt.umem, rx[i], rules)
  {
    BootSound(n, umem, before);
    SoundLeavesIntact(w, rules, r, rx, i, after, z);
  }
}
