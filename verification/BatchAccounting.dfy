/** Conservation in the batch data plane: every descriptor has one fate, the outputs are the
    descriptors with that fate in order, and the counters count them. */
module BatchAccounting {
  import opened Machine
  import opened PacketParser
  import opened ChaosEngine
  import opened TimingWheels
  import opened WheelContents
  import opened DataPlane
  import opened BatchFates

  /** The descriptors with a given fate, in order. */
  function Select(rx: seq<PacketDescriptor>, fates: seq<Fate>, fate: Fate): seq<PacketDescriptor>
    requires |rx| == |fates|
    decreases |rx|
  {
    if rx == [] then []
    else
      var n := |rx| - 1;
      Select(rx[..n], fates[..n], fate) + if fates[n] == fate then [rx[n]] else []
  }

  function DescriptorAddress(d: PacketDescriptor): nat { d.address }

  /** How often address `a` occurs among descriptors. */
  function Arrivals(rx: seq<PacketDescriptor>, a: nat): nat { CountBy(rx, DescriptorAddress, a) }

  /** An output span holds exactly these descriptors' frames, in this order. */
  ghost predicate Carries(output: seq<ProcessedFrame>, rx: seq<PacketDescriptor>) {
    && |output| == |rx|
    && forall i :: 0 <= i < |rx| ==> output[i].address == rx[i].address && output[i].length == rx[i].length
  }

  lemma SelectOneMore(rx: seq<PacketDescriptor>, fates: seq<Fate>, d: PacketDescriptor, got: Fate, fate: Fate)
    requires |rx| == |fates|
    ensures Select(rx + [d], fates + [got], fate) == Select(rx, fates, fate) + if got == fate then [d] else []
  {
    assert (rx + [d])[..|rx|] == rx && (fates + [got])[..|rx|] == fates;
  }

  /** Every descriptor is selected by exactly one fate. */
  lemma {:induction false} SelectPartitions(rx: seq<PacketDescriptor>, fates: seq<Fate>, a: nat)
    requires |rx| == |fates|
    ensures Arrivals(rx, a) == Arrivals(Select(rx, fates, Sent), a) + Arrivals(Select(rx, fates, Recycled), a) +
                               Arrivals(Select(rx, fates, Held), a) + Arrivals(Select(rx, fates, Overflowed), a)
    decreases |rx|
  {
    if rx == [] {
    } else {
      var n := |rx| - 1;
      SelectPartitions(rx[..n], fates[..n], a);
      SelectLast(rx, fates, Sent, a);
      SelectLast(rx, fates, Recycled, a);
      SelectLast(rx, fates, Held, a);
      SelectLast(rx, fates, Overflowed, a);
    }
  }

  lemma SelectLast(rx: seq<PacketDescriptor>, fates: seq<Fate>, fate: Fate, a: nat)
    requires |rx| == |fates| > 0
    ensures var n := |rx| - 1;
            Arrivals(Select(rx, fates, fate), a) ==
            Arrivals(Select(rx[..n], fates[..n], fate), a) + if fates[n] == fate && rx[n].address == a then 1 else 0
  {
    var n := |rx| - 1;
    var front := Select(rx[..n], fates[..n], fate);
    CountPush(front, rx[n], DescriptorAddress, a);
    assert front + [] == front;
  }

  lemma AmongFirst(fates: seq<Fate>, n: nat, fate: Fate)
    requires |fates| == n + 1
    ensures fate in fates <==> fate in fates[..n] || fate == fates[n]
  {
    assert fates == fates[..n] + [fates[n]];
  }

  lemma {:induction false} SelectEmptyIff(rx: seq<PacketDescriptor>, fates: seq<Fate>, fate: Fate)
    requires |rx| == |fates|
    ensures |Select(rx, fates, fate)| == 0 <==> fate !in fates
    decreases |rx|
  {
    if rx == [] {
    } else {
      var n := |rx| - 1;
      SelectEmptyIff(rx[..n], fates[..n], fate);
      AmongFirst(fates, n, fate);
    }
  }

  // ---------------------------------------------------------------------------------------
  // One descriptor
  // ---------------------------------------------------------------------------------------

  /** What one descriptor may change in the outputs, the wheel and the conserved counters,
      by the fate it meets. */
  ghost predicate Effect(b: Batch, r: Batch, d: PacketDescriptor, frame: ProcessedFrame, fate: Fate, config: BatchConfig) {
    && frame.address == d.address && frame.length == d.length
    && r.fates == b.fates + [fate]
    && r.stats.seen == b.stats.seen + 1
    && r.stats.sent == b.stats.sent + (if fate == Sent then 1 else 0)
    && r.stats.recycled == b.stats.recycled + (if fate == Recycled then 1 else 0)
    && r.stats.delayed == b.stats.delayed + (if fate == Held then 1 else 0)
    && r.stats.dropped == b.stats.dropped + (if fate in {Recycled, Overflowed} then 1 else 0)
    && r.tx == (if fate == Sent then b.tx + [frame] else b.tx)
    && r.recycle == (if fate == Recycled then b.recycle + [frame] else b.recycle)
    && (fate == Sent ==> |b.tx| < config.txCapacity)
    && (fate == Recycled ==> |b.recycle| < config.recycleCapacity)
    && (fate == Overflowed ==> |b.recycle| >= config.recycleCapacity)
    && r.wheel.pending == b.wheel.pending + (if fate == Held then 1 else 0)
    && (forall a: nat :: Contents(r.wheel.slots, a) ==
                         Contents(b.wheel.slots, a) + if fate == Held && d.address == a then 1 else 0)
  }

  /** The wheel part follows from the one schedule a held descriptor makes. */
  lemma OutcomeContents(b: Batch, r: Batch, d: PacketDescriptor, v: Verdict, fate: Fate, config: BatchConfig)
    requires b.wheel.Bounded() && Outcome(b, r, d, v, fate, config)
    ensures r.wheel.pending == b.wheel.pending + if fate == Held then 1 else 0
    ensures forall a: nat :: Contents(r.wheel.slots, a) ==
                             Contents(b.wheel.slots, a) + if fate == Held && d.address == a then 1 else 0
  {
    var op := Asks(d, v, config.tickNs);
    forall a: nat
      ensures Contents(r.wheel.slots, a) == Contents(b.wheel.slots, a) + if fate == Held && d.address == a then 1 else 0
    {
      ScheduleAdds(b.wheel, op.frame, op.delay, a);
    }
  }

  /** What one descriptor does to the outputs and the conserved counters. */
  ghost predicate OutputEffect(b: Batch, r: Batch, frame: ProcessedFrame, fate: Fate) {
    && r.stats.seen == b.stats.seen + 1
    && r.stats.sent == b.stats.sent + (if fate == Sent then 1 else 0)
    && r.stats.recycled == b.stats.recycled + (if fate == Recycled then 1 else 0)
    && r.stats.delayed == b.stats.delayed + (if fate == Held then 1 else 0)
    && r.stats.dropped == b.stats.dropped + (if fate in {Recycled, Overflowed} then 1 else 0)
    && r.tx == (if fate == Sent then b.tx + [frame] else b.tx)
    && r.recycle == (if fate == Recycled then b.recycle + [frame] else b.recycle)
  }

  /** The same, but for the count of packets seen. */
  ghost predicate Moved(b: Batch, r: Batch, frame: ProcessedFrame, fate: Fate) {
    && r.fates == b.fates + [fate] && r.stats.seen == b.stats.seen
    && r.stats.sent == b.stats.sent + (if fate == Sent then 1 else 0)
    && r.stats.recycled == b.stats.recycled + (if fate == Recycled then 1 else 0)
    && r.stats.delayed == b.stats.delayed + (if fate == Held then 1 else 0)
    && r.stats.dropped == b.stats.dropped + (if fate in {Recycled, Overflowed} then 1 else 0)
    && r.tx == (if fate == Sent then b.tx + [frame] else b.tx)
    && r.recycle == (if fate == Recycled then b.recycle + [frame] else b.recycle)
  }

  lemma DropMoves(b: Batch, frame: ProcessedFrame, capacity: nat) returns (fate: Fate)
    ensures Moved(b, b.Drop(frame, capacity), frame, fate)
  {
    fate := if |b.recycle| >= capacity then Overflowed else Recycled;
  }

  lemma MalformedMoves(b: Batch, frame: ProcessedFrame, valid: bool, capacity: nat) returns (fate: Fate)
    ensures Moved(b, b.Malformed(frame, valid, capacity), frame, fate)
  {
    fate := if |b.recycle| >= capacity then Overflowed else Recycled;
  }

  lemma DelayMoves(b: Batch, frame: ProcessedFrame, ticks: nat, capacity: nat) returns (fate: Fate)
    requires b.wheel.Bounded()
    ensures Moved(b, b.Delay(frame, ticks, capacity), frame, fate)
  {
    var status := b.wheel.Schedule(DelayedFrame(frame.address, frame.length, frame.ruleId, 0), ticks).1;
    fate := if status == Scheduled then Held else if |b.recycle| >= capacity then Overflowed else Recycled;
  }

  lemma ForwardMoves(b: Batch, frame: ProcessedFrame, txCapacity: nat, capacity: nat) returns (fate: Fate)
    ensures Moved(b, b.Forward(frame, txCapacity, capacity), frame, fate)
  {
    fate := if |b.tx| < txCapacity then Sent else if |b.recycle| >= capacity then Overflowed else Recycled;
  }

  /** A batch with one more packet counted, and perhaps a frame edited. */
  ghost predicate Counted(b: Batch, c: Batch) {
    && c.fates == b.fates && c.tx == b.tx && c.recycle == b.recycle && c.wheel == b.wheel
    && c.stats.seen == b.stats.seen + 1 && c.stats.sent == b.stats.sent && c.stats.recycled == b.stats.recycled
    && c.stats.delayed == b.stats.delayed && c.stats.dropped == b.stats.dropped
  }

  lemma CountedMoves(b: Batch, c: Batch, r: Batch, frame: ProcessedFrame, fate: Fate)
    requires Counted(b, c) && Moved(c, r, frame, fate)
    ensures OutputEffect(b, r, frame, fate) && r.fates == b.fates + [fate]
  {
  }

  ghost function CountPacket(b: Batch, d: PacketDescriptor): Batch {
    b.(stats := b.stats.(seen := b.stats.seen + 1, bytesSeen := b.stats.bytesSeen + d.length))
  }

  lemma DropOutputs(b: Batch, d: PacketDescriptor, v: Verdict, config: BatchConfig, r: Batch) returns (fate: Fate)
    requires b.wheel.Bounded() && v.Fits(d, |b.umem|) && r == Apply(b, d, v, config)
    requires !v.valid || v.packet.status != Ok || v.decision.action == DROP
    ensures OutputEffect(b, r, v.Processed(d), fate) && r.fates == b.fates + [fate]
  {
    var c, frame := CountPacket(b, d), v.Processed(d);
    if !v.valid || v.packet.status != Ok {
      fate := MalformedMoves(c, frame, v.valid, config.recycleCapacity);
    } else {
      fate := DropMoves(c, frame, config.recycleCapacity);
    }
    CountedMoves(b, c, r, frame, fate);
  }

  lemma DelayOutputs(b: Batch, d: PacketDescriptor, v: Verdict, config: BatchConfig, r: Batch) returns (fate: Fate)
    requires b.wheel.Bounded() && v.Fits(d, |b.umem|) && r == Apply(b, d, v, config)
    requires v.valid && v.packet.status == Ok && v.decision.action == DELAY
    ensures OutputEffect(b, r, v.Processed(d), fate) && r.fates == b.fates + [fate]
  {
    var c, ticks := CountPacket(b, d), DelayNsToTicks(v.decision.delayNs, config.tickNs);
    fate := DelayMoves(c, v.Processed(d), ticks, config.recycleCapacity);
    CountedMoves(b, c, r, v.Processed(d), fate);
  }

  lemma ForwardOutputs(b: Batch, d: PacketDescriptor, v: Verdict, config: BatchConfig, r: Batch) returns (fate: Fate)
    requires b.wheel.Bounded() && v.Fits(d, |b.umem|) && r == Apply(b, d, v, config)
    requires v.valid && v.packet.status == Ok && v.decision.action !in {DROP, DELAY}
    ensures OutputEffect(b, r, v.Processed(d), fate) && r.fates == b.fates + [fate]
  {
    var c := CountPacket(b, d);
    var hit := v.decision.action == CORRUPT && CorruptOffset(v.packet, v.decision.hash).Some?;
    c := c.(umem := Splice(b.umem, d.address, EditFrame(FrameOf(b.umem, d), v)),
            stats := c.stats.(corrupted := c.stats.corrupted + if hit then 1 else 0));
    fate := ForwardMoves(c, v.Processed(d), config.txCapacity, config.recycleCapacity);
    CountedMoves(b, c, r, v.Processed(d), fate);
  }

  lemma ApplyOutputs(b: Batch, d: PacketDescriptor, v: Verdict, config: BatchConfig, r: Batch, fate: Fate)
    requires b.wheel.Bounded() && v.Fits(d, |b.umem|) && r == Apply(b, d, v, config) && r.fates == b.fates + [fate]
    ensures OutputEffect(b, r, v.Processed(d), fate)
  {
    var got;
    if !v.valid || v.packet.status != Ok || v.decision.action == DROP {
      got := DropOutputs(b, d, v, config, r);
    } else if v.decision.action == DELAY {
      got := DelayOutputs(b, d, v, config, r);
    } else {
      got := ForwardOutputs(b, d, v, config, r);
    }
    assert got == r.fates[|b.fates|] == fate;
  }

  /** The room a fate needs, from the room the verdict met. */
  lemma OutcomeRoom(b: Batch, r: Batch, d: PacketDescriptor, v: Verdict, fate: Fate, config: BatchConfig)
    requires 0 < |b.wheel.slots| && Outcome(b, r, d, v, fate, config) && OutputEffect(b, r, v.Processed(d), fate)
    requires fate == Recycled ==> |b.recycle| < config.recycleCapacity
    ensures fate == Sent ==> |b.tx| < config.txCapacity
    ensures fate == Overflowed ==> |b.recycle| >= config.recycleCapacity
  {
  }

  lemma RecycledHadRoom(b: Batch, d: PacketDescriptor, v: Verdict, config: BatchConfig, r: Batch, fate: Fate)
    requires 0 < |b.wheel.slots| && Outcome(b, r, d, v, fate, config) && fate == Recycled
    ensures |b.recycle| < config.recycleCapacity
  {
  }

  lemma ApplyEffect(b: Batch, d: PacketDescriptor, v: Verdict, config: BatchConfig) returns (fate: Fate)
    requires b.wheel.Bounded() && v.Fits(d, |b.umem|)
    ensures Effect(b, Apply(b, d, v, config), d, v.Processed(d), fate, config)
  {
    var r := Apply(b, d, v, config);
    fate := ApplyOutcome(b, d, v, config);
    ApplyOutputs(b, d, v, config, r, fate);
    EffectHolds(b, r, d, v, fate, config);
  }

  lemma EffectHolds(b: Batch, r: Batch, d: PacketDescriptor, v: Verdict, fate: Fate, config: BatchConfig)
    requires b.wheel.Bounded() && Outcome(b, r, d, v, fate, config) && OutputEffect(b, r, v.Processed(d), fate)
    ensures Effect(b, r, d, v.Processed(d), fate, config)
  {
    OutcomeContents(b, r, d, v, fate, config);
    if fate == Recycled {
      RecycledHadRoom(b, d, v, config, r, fate);
    }
    OutcomeRoom(b, r, d, v, fate, config);
  }

  ghost predicate OutputsMatch(b: Batch, rx: seq<PacketDescriptor>) {
    && |b.fates| == |rx|
    && Carries(b.tx, Select(rx, b.fates, Sent))
    && Carries(b.recycle, Select(rx, b.fates, Recycled))
  }

  ghost predicate CountsMatch(b: Batch, rx: seq<PacketDescriptor>, config: BatchConfig)
    requires |b.fates| == |rx|
  {
    && b.stats.seen == |rx|
    && b.stats.sent == |Select(rx, b.fates, Sent)| <= config.txCapacity
    && b.stats.delayed == |Select(rx, b.fates, Held)|
    && b.stats.recycled == |Select(rx, b.fates, Recycled)| == Min(b.stats.dropped, config.recycleCapacity)
    && b.stats.dropped == b.stats.recycled + |Select(rx, b.fates, Overflowed)|
    && b.stats.seen == b.stats.sent + b.stats.delayed + b.stats.dropped
  }

  ghost predicate WheelGains(b: Batch, rx: seq<PacketDescriptor>, before: WheelModel)
    requires |b.fates| == |rx|
  {
    && b.wheel.pending == before.pending + |Select(rx, b.fates, Held)|
    && forall a: nat :: Contents(b.wheel.slots, a) == Contents(before.slots, a) + Arrivals(Select(rx, b.fates, Held), a)
  }

  ghost predicate Accounts(b: Batch, rx: seq<PacketDescriptor>, config: BatchConfig, before: WheelModel) {
    OutputsMatch(b, rx) && CountsMatch(b, rx, config) && WheelGains(b, rx, before)
  }

  lemma CarriesPush(output: seq<ProcessedFrame>, rx: seq<PacketDescriptor>, frame: ProcessedFrame, d: PacketDescriptor)
    requires Carries(output, rx) && frame.address == d.address && frame.length == d.length
    ensures Carries(output + [frame], rx + [d])
  {
  }

  lemma EffectKeepsOutputs(b: Batch, r: Batch, rx: seq<PacketDescriptor>, d: PacketDescriptor,
                           frame: ProcessedFrame, fate: Fate, config: BatchConfig)
    requires Effect(b, r, d, frame, fate, config) && OutputsMatch(b, rx)
    ensures OutputsMatch(r, rx + [d])
  {
    var sent, back := Select(rx, b.fates, Sent), Select(rx, b.fates, Recycled);
    SelectOneMore(rx, b.fates, d, fate, Sent);
    SelectOneMore(rx, b.fates, d, fate, Recycled);
    assert sent + [] == sent && back + [] == back;
    CarriesPush(b.tx, sent, frame, d);
    CarriesPush(b.recycle, back, frame, d);
  }

  lemma EffectKeepsCounts(b: Batch, r: Batch, rx: seq<PacketDescriptor>, d: PacketDescriptor,
                          frame: ProcessedFrame, fate: Fate, config: BatchConfig)
    requires Effect(b, r, d, frame, fate, config) && OutputsMatch(b, rx) && CountsMatch(b, rx, config)
    ensures CountsMatch(r, rx + [d], config)
  {
    SelectOneMore(rx, b.fates, d, fate, Sent);
    SelectOneMore(rx, b.fates, d, fate, Recycled);
    SelectOneMore(rx, b.fates, d, fate, Held);
    SelectOneMore(rx, b.fates, d, fate, Overflowed);
  }

  lemma EffectKeepsWheel(b: Batch, r: Batch, rx: seq<PacketDescriptor>, d: PacketDescriptor,
                         frame: ProcessedFrame, fate: Fate, config: BatchConfig, before: WheelModel)
    requires Effect(b, r, d, frame, fate, config) && |b.fates| == |rx| && WheelGains(b, rx, before)
    ensures WheelGains(r, rx + [d], before)
  {
    SelectOneMore(rx, b.fates, d, fate, Held);
    forall a: nat
      ensures Contents(r.wheel.slots, a) ==
              Contents(before.slots, a) + Arrivals(Select(rx + [d], r.fates, Held), a)
    {
      CountPush(Select(rx, b.fates, Held), d, DescriptorAddress, a);
      assert Select(rx, b.fates, Held) + [] == Select(rx, b.fates, Held);
    }
  }

  lemma ProcessOneAccounts(b: Batch, done: seq<PacketDescriptor>, d: PacketDescriptor, config: BatchConfig,
                           before: WheelModel)
    requires b.wheel.Bounded() && Accounts(b, done, config, before)
    ensures Accounts(ProcessOne(b, d, config), done + [d], config, before)
  {
    var v := Judge(b.umem, d, config);
    var r := Apply(b, d, v, config);
    var fate := ApplyEffect(b, d, v, config);
    EffectKeepsOutputs(b, r, done, d, v.Processed(d), fate, config);
    EffectKeepsCounts(b, r, done, d, v.Processed(d), fate, config);
    EffectKeepsWheel(b, r, done, d, v.Processed(d), fate, config, before);
  }

  // ---------------------------------------------------------------------------------------
  // Whole batches
  // ---------------------------------------------------------------------------------------

  lemma {:induction false} ProcessAllAccounts(b: Batch, done: seq<PacketDescriptor>, rx: seq<PacketDescriptor>,
                                              config: BatchConfig, before: WheelModel)
    requires b.wheel.Bounded() && Accounts(b, done, config, before)
    ensures Accounts(ProcessAll(b, rx, config), done + rx, config, before)
    decreases |rx|
  {
    if rx == [] {
      assert done + rx == done;
    } else {
      ProcessOneAccounts(b, done, rx[0], config, before);
      ProcessAllAccounts(ProcessOne(b, rx[0], config), done + [rx[0]], rx[1..], config, before);
      MoveOver(done, rx);
    }
  }

  /** Conservation, for every batch: each descriptor is sent, recycled, held or (exactly when
      there are more drops than the recycle output has room for) lost; the TX and recycle
      outputs are the descriptors with that fate in arrival order; the wheel gains exactly the
      held ones; and the counters are the sizes of those groups. */
  lemma BatchConserves(umem: seq<Byte>, wheel: WheelModel, rx: seq<PacketDescriptor>, config: BatchConfig)
    requires wheel.Bounded()
    ensures var b := ProcessBatch(umem, wheel, rx, config);
            && Accounts(b, rx, config, wheel)
            && (Overflowed in b.fates <==> b.stats.dropped > config.recycleCapacity)
            && (|rx| <= config.recycleCapacity ==> Overflowed !in b.fates)
            && (Overflowed !in b.fates ==> Partitioned(b, rx))
  {
    var start := StartBatch(umem, wheel);
    ProcessAllAccounts(start, [], rx, config, wheel);
    assert [] + rx == rx;
    var b := ProcessAll(start, rx, config);
    SelectEmptyIff(rx, b.fates, Overflowed);
    NothingLost(b, rx);
  }

  /** The sent, recycled and held descriptors are, together, the descriptors received. */
  ghost predicate Partitioned(b: Batch, rx: seq<PacketDescriptor>)
    requires |b.fates| == |rx|
  {
    forall a: nat :: Arrivals(rx, a) == Arrivals(Select(rx, b.fates, Sent), a) +
                                        Arrivals(Select(rx, b.fates, Recycled), a) +
                                        Arrivals(Select(rx, b.fates, Held), a)
  }

  lemma NothingLost(b: Batch, rx: seq<PacketDescriptor>)
    requires |b.fates| == |rx|
    ensures Overflowed !in b.fates ==> Partitioned(b, rx)
  {
    SelectEmptyIff(rx, b.fates, Overflowed);
    forall a: nat
      ensures Overflowed !in b.fates ==>
                Arrivals(rx, a) == Arrivals(Select(rx, b.fates, Sent), a) +
                                   Arrivals(Select(rx, b.fates, Recycled), a) + Arrivals(Select(rx, b.fates, Held), a)
    {
      SelectPartitions(rx, b.fates, a);
    }
  }
}
