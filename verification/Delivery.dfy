/** From the kernel's RX to the kernel's TX: in every run, the packets the rules forward go to
    the TX ring in the poll that receives them, and the packets they delay go there exactly
    as many polls later as the rule's delay asks for. */
module Delivery {
  import opened Machine
  import opened FrameAllocation
  import opened SocketRings
  import Xsk = XskSocket
  import opened TimingWheels
  import opened WheelContents
  import opened ChaosEngine
  import DP = DataPlane
  import opened BatchFates
  import opened BatchVerdicts
  import opened Runtime
  import opened Ledger
  import opened Lifecycle
  import opened PollPhases

  // ---------------------------------------------------------------------------------------
  // The TX ring after a poll
  // ---------------------------------------------------------------------------------------

  /** The TX descriptors for these frames. */
  function ToSend(frames: seq<(nat, U32)>): (r: seq<Descriptor>)
    ensures |r| == |frames|
    ensures forall i :: 0 <= i < |r| ==> r[i] == Xsk.Descriptor(frames[i].0, frames[i].1, 0)
  {
    seq(|frames|, i requires 0 <= i < |frames| => Xsk.Descriptor(frames[i].0, frames[i].1, 0))
  }

  lemma SubmitQueuesOne(p: Poll, o: Outside, f: Flight, addresses: seq<nat>, length: U32)
    requires addresses != [] && Balanced(p, o, f.(plane := addresses))
    ensures p.SubmitOne(addresses[0], length).rt.socket.tx ==
            p.rt.socket.tx.Produce([Xsk.Descriptor(addresses[0], length, 0)])
  {
    HeadIsOwned(p, o, f, DataPlane, addresses);
    SubmitCases(p, addresses[0], length);
  }

  lemma ProduceBoth<T>(ring: RingModel<T>, x: T, rest: seq<T>)
    requires ring.Bounded()
    ensures ring.Produce([x]).Produce(rest) == ring.Produce([x] + rest)
  {
    var items := ring.items;
    if |items| < ring.capacity {
      var n := Min(|rest|, ring.capacity - |items| - 1);
      assert items + [x] + rest[..n] == items + ([x] + rest)[..n + 1];
    } else {
      assert items + [] + [] == items;
    }
  }

  /** Submitting frames appends them to the TX ring in order, as many as it has room for. */
  lemma {:induction false} SubmitQueues(p: Poll, o: Outside, f: Flight, frames: seq<(nat, U32)>, rest: seq<nat>)
    requires Balanced(p, o, f.(plane := KeyAddresses(frames) + rest))
    ensures p.SubmitAll(frames).rt.socket.tx == p.rt.socket.tx.Produce(ToSend(frames))
    decreases |frames|
  {
    var ring := p.rt.socket.tx;
    if frames == [] {
      assert ring.items + [] == ring.items;
    } else {
      var addresses := KeyAddresses(frames) + rest;
      assert addresses[1..] == KeyAddresses(frames[1..]) + rest;
      SubmitQueuesOne(p, o, f, addresses, frames[0].1);
      SubmitKeeps(p, o, f, addresses, frames[0].1);
      SubmitQueues(p.SubmitOne(frames[0].0, frames[0].1), o, f, frames[1..], rest);
      ProduceBoth(ring, ToSend(frames)[0], ToSend(frames[1..]));
      assert [ToSend(frames)[0]] + ToSend(frames[1..]) == ToSend(frames);
    }
  }

  /** What the next poll takes out of the wheel and offers to TX. */
  function Released(w: World): seq<DelayedFrame>
    requires w.Bounded()
  {
    w.rt.wheel.Tick().1
  }

  lemma ReleaseQueues(p: Poll, o: Outside)
    requires Balanced(p, o, NO_FLIGHT)
    ensures p.ReleaseDelayed().rt.socket.tx == p.rt.socket.tx.Produce(ToSend(DelayedKeys(p.rt.wheel.Tick().1)))
  {
    TickReleases(p, o);
    var (wheel, expired) := p.rt.wheel.Tick();
    SubmitQueues(p.(rt := p.rt.(wheel := wheel)), o, NO_FLIGHT, DelayedKeys(expired), []);
  }

  lemma AfterBatchQueues(p: Poll, o: Outside, b: DP.Batch)
    requires p.Bounded() && b.wheel.Bounded()
    requires Balanced(p.WithBatch(b), o, NO_FLIGHT.(plane := Leaving(b)))
    ensures var r := AfterBatch(p, b);
            && r.rt.socket.tx == p.rt.socket.tx.Produce(ToSend(ProcessedKeys(b.tx)))
            && r.rt.socket.rx == p.rt.socket.rx && r.rt.umem == b.umem
            && r.rt.pool.frameSize == p.rt.pool.frameSize
  {
    var q, frames, back := p.WithBatch(b), ProcessedKeys(b.tx), ProcessedAddresses(b.recycle);
    SubmitQueues(q, o, NO_FLIGHT, frames, back);
    SubmitQuiet(q, frames);
    RefillQuiet(q.SubmitAll(frames), back, DataPlane);
  }

  /** Everything the next poll offers to TX: what falls due, then what it sends at once. */
  function Outbox(w: World, rules: seq<ChaosRule>): seq<(nat, U32)>
    requires w.Bounded()
  {
    DelayedKeys(Released(w)) + ProcessedKeys(PollBatch(w.rt, rules).tx)
  }

  lemma ProduceTwice<T>(ring: RingModel<T>, a: seq<T>, b: seq<T>)
    requires ring.Bounded()
    ensures ring.Produce(a).Produce(b) == ring.Produce(a + b)
  {
    var room := ring.capacity - |ring.items|;
    var n := Min(|a|, room);
    if n < |a| {
      assert (a + b)[..n] == a[..n];
      assert ring.items + a[..n] + [] == ring.items + a[..n];
    } else {
      var m := Min(|b|, room - n);
      assert a[..n] == a && (a + b)[..n + m] == a + b[..m];
      assert ring.items + a + b[..m] == ring.items + (a + b[..m]);
    }
  }

  lemma BeforeBatchQueues(w: World)
    requires Safe(w)
    ensures BeforeBatch(w.rt).rt.socket.tx == w.rt.socket.tx.Produce(ToSend(DelayedKeys(Released(w))))
  {
    var start := StartPoll(w.rt);
    var (next, completed) := start.StartDrain();
    RefillQuiet(next, completed, TxRing);
    DrainKeeps(start, w.Outside());
    ReleaseQueues(start.DrainCompletions(), w.Outside());
  }

  lemma RestOfPoll(w: World, rules: seq<ChaosRule>)
    requires Safe(w)
    ensures var p := BeforeBatch(w.rt);
            var r := AfterBatch(p.Receive().0, PollBatch(w.rt, rules)).rt;
            && r.socket.tx == p.rt.socket.tx.Produce(ToSend(ProcessedKeys(PollBatch(w.rt, rules).tx)))
            && r.socket.rx == w.rt.socket.rx.Consume(DP.BATCH_SIZE).0
            && r.umem == PollBatch(w.rt, rules).umem && r.pool.frameSize == w.rt.pool.frameSize
  {
    var o, p := w.Outside(), BeforeBatch(w.rt);
    BeforeBatchQuiet(w);
    ReceivesTheRing(p, o);
    ReceiveBatchKeeps(p, o);
    var (received, rx) := p.Receive();
    BatchKeeps(received, o, rx, rules);
    AfterBatchQueues(received, o, received.Batch(rules, rx));
  }

  /** In every poll of every run the TX ring gains the outbox, in order, up to its room. */
  lemma PollTransmits(w: World, rules: seq<ChaosRule>)
    requires Safe(w) && w.rt.initialized
    ensures var r := PollStep(w, rules).rt;
            && r.socket.tx == w.rt.socket.tx.Produce(ToSend(Outbox(w, rules)))
            && r.socket.rx == w.rt.socket.rx.Consume(DP.BATCH_SIZE).0
            && r.umem == PollBatch(w.rt, rules).umem && r.pool.frameSize == w.rt.pool.frameSize
  {
    BeforeBatchQueues(w);
    RestOfPoll(w, rules);
    QueueBoth(w.rt.socket.tx, DelayedKeys(Released(w)), ProcessedKeys(PollBatch(w.rt, rules).tx));
    PollIs(w, rules);
  }

  lemma QueueBoth(ring: RingModel<Descriptor>, due: seq<(nat, U32)>, sent: seq<(nat, U32)>)
    requires ring.Bounded()
    ensures ring.Produce(ToSend(due)).Produce(ToSend(sent)) == ring.Produce(ToSend(due + sent))
  {
    ProduceTwice(ring, ToSend(due), ToSend(sent));
    assert ToSend(due) + ToSend(sent) == ToSend(due + sent);
  }

  lemma PollIs(w: World, rules: seq<ChaosRule>)
    requires w.Bounded() && w.rt.initialized
    ensures PollStep(w, rules).rt == AfterBatch(BeforeBatch(w.rt).Receive().0, PollBatch(w.rt, rules)).rt
  {
  }

  // ---------------------------------------------------------------------------------------
  // Every run is sound
  // ---------------------------------------------------------------------------------------

  lemma StepSound(w: World, action: Action)
    requires Sound(w)
    ensures Sound(StepWorld(w, action))
  {
    StepKeeps(w, action);
    StepShape(w, action);
    match action
    case InitA(n) => InitLeavesOthers(w.rt, Min(n, w.rt.pool.FrameCount()));
    case PollA(rules) => PollSized(w, rules);
    case _ =>
  }

  lemma PollSized(w: World, rules: seq<ChaosRule>)
    requires Sound(w)
    ensures Sized(PollStep(w, rules)) && |PollStep(w, rules).rt.umem| == |w.rt.umem|
  {
    if w.rt.initialized {
      PollTransmits(w, rules);
      PollBatchSize(w, rules);
      SizedAfterReceive(w, PollStep(w, rules));
    }
  }

  lemma PollBatchSize(w: World, rules: seq<ChaosRule>)
    requires Sound(w)
    ensures |PollBatch(w.rt, rules).umem| == |w.rt.umem|
  {
    PollBatchIs(w, rules);
  }

  lemma SizedAfterReceive(w: World, r: World)
    requires Sized(w) && |r.rt.umem| == |w.rt.umem| && r.rt.pool.frameSize == w.rt.pool.frameSize
    requires r.rt.socket.rx == w.rt.socket.rx.Consume(DP.BATCH_SIZE).0
    ensures Sized(r)
  {
  }

  lemma {:induction false} RunSound(w: World, actions: seq<Action>)
    requires Sound(w)
    ensures Sound(RunWorld(w, actions))
    decreases |actions|
  {
    if actions == [] {
    } else {
      StepSound(w, actions[0]);
      RunSound(StepWorld(w, actions[0]), actions[1..]);
    }
  }

  lemma BootSound(n: Sizes, umem: seq<Byte>, actions: seq<Action>)
    requires Sensible(n)
    ensures Sound(RunWorld(Boot(n, umem), actions))
  {
    BootSafe(n, umem);
    RunSound(Boot(n, umem), actions);
  }

  // ---------------------------------------------------------------------------------------
  // What is sent at once
  // ---------------------------------------------------------------------------------------

  /** The records of the packets the verdicts forward, in arrival order. */
  function Forwarded(rx: seq<DP.PacketDescriptor>, vs: seq<DP.Verdict>): seq<DP.ProcessedFrame>
    requires |rx| == |vs|
    decreases |rx|
  {
    if rx == [] then []
    else
      var n := |rx| - 1;
      Forwarded(rx[..n], vs[..n]) + if Outgoing(vs[n]) then [vs[n].Processed(rx[n])] else []
  }

  lemma {:induction false} SentIsForwarded(rx: seq<DP.PacketDescriptor>, vs: seq<DP.Verdict>, fates: seq<DP.Fate>)
    requires |rx| == |vs| == |fates|
    requires forall i :: 0 <= i < |rx| ==> (fates[i] == DP.Sent <==> Outgoing(vs[i]))
    ensures Labelled(rx, vs, fates, DP.Sent) == Forwarded(rx, vs)
    decreases |rx|
  {
    if rx == [] {
    } else {
      var n := |rx| - 1;
      SentIsForwarded(rx[..n], vs[..n], fates[..n]);
    }
  }

  /** The verdicts on the packets the next poll receives, on the bytes the kernel delivered. */
  function Judged(w: World, rules: seq<ChaosRule>): (vs: seq<DP.Verdict>)
    ensures |vs| == |Arriving(w)|
  {
    Verdicts(w.rt.umem, Arriving(w), PollConfig(rules))
  }

  lemma PollSends(w: World, rules: seq<ChaosRule>)
    requires Sound(w)
    ensures PollBatch(w.rt, rules).tx == Forwarded(Arriving(w), Judged(w, rules))
  {
    PollDecides(w, rules);
    SentIsForwarded(Arriving(w), Judged(w, rules), PollBatch(w.rt, rules).fates);
  }

  /** In every poll of every run, the TX ring gains the frames that fall due, then the packets
      received in this poll that the rules forward, in order, up to its room, and no other. */
  lemma ForwardedPacketsAreSent(n: Sizes, umem: seq<Byte>, before: seq<Action>, rules: seq<ChaosRule>)
    requires Sensible(n) && RunWorld(Boot(n, umem), before).rt.initialized
    ensures var w := RunWorld(Boot(n, umem), before);
            var sent := Forwarded(Arriving(w), Judged(w, rules));
            StepWorld(w, PollA(rules)).rt.socket.tx ==
            w.rt.socket.tx.Produce(ToSend(DelayedKeys(Released(w)) + ProcessedKeys(sent)))
  {
    BootSound(n, umem, before);
    PollTransmits(RunWorld(Boot(n, umem), before), rules);
    PollSends(RunWorld(Boot(n, umem), before), rules);
  }

  // ---------------------------------------------------------------------------------------
  // What is held
  // ---------------------------------------------------------------------------------------

  /** The entry the wheel keeps for a packet delayed in the next poll. */
  function EntryFor(w: World, d: DP.PacketDescriptor, v: DP.Verdict): Accepted {
    var op := Asks(d, v, DP.DEFAULT_TICK_NS);
    Accepted(op.frame, w.rt.wheel.now + 1, op.delay)
  }

  lemma HeldIsAccepted(w: World, rules: seq<ChaosRule>, i: nat)
    requires Sound(w) && w.rt.initialized && i < |Arriving(w)|
    requires |PollBatch(w.rt, rules).fates| == |Arriving(w)| && PollBatch(w.rt, rules).fates[i] == DP.Held
    ensures DP.Delays(Judged(w, rules)[i])
    ensures EntryFor(w, Arriving(w)[i], Judged(w, rules)[i]) in PollStep(w, rules).trace.accepted
  {
    var b, rx, vs, t := PollBatch(w.rt, rules), Arriving(w), Judged(w, rules), Step(w.trace, TickOp);
    PollDecides(w, rules);
    assert FateExact(rx, vs, b.fates, i, t, PollConfig(rules));
    PlannedIsAccepted(t, rx, vs, DP.DEFAULT_TICK_NS, i);
  }

  /** What the wheel has accepted stays in its history. */
  lemma {:induction false} HistoryGrows(w: World, actions: seq<Action>, e: Accepted)
    requires Sound(w) && e in w.trace.accepted
    ensures e in RunWorld(w, actions).trace.accepted
    decreases |actions|
  {
    if actions == [] {
    } else {
      StepSound(w, actions[0]);
      match actions[0] {
        case PollA(rules) => PollGrows(w, rules, e);
        case _ =>
      }
      HistoryGrows(StepWorld(w, actions[0]), actions[1..], e);
    }
  }

  lemma PollGrows(w: World, rules: seq<ChaosRule>, e: Accepted)
    requires Sound(w) && e in w.trace.accepted
    ensures e in PollStep(w, rules).trace.accepted
  {
    if w.rt.initialized {
      PollSchedules(w, rules);
      AcceptedStays(Step(w.trace, TickOp), PollBatch(w.rt, rules).attempts, e);
    }
  }

  lemma PollSchedules(w: World, rules: seq<ChaosRule>)
    requires Sound(w)
    ensures OnlySchedules(PollBatch(w.rt, rules).attempts)
  {
    PollDecides(w, rules);
  }

  /** In a sound state, a frame the wheel accepted is released by the next poll exactly if
      that is the poll it is due in. */
  lemma ReleasedWhenDue(w: World, e: Accepted)
    requires Sound(w) && e in w.trace.accepted
    ensures e.Entry() in Released(w) <==> w.rt.wheel.now + 1 == e.Due()
  {
    var i :| 0 <= i < |w.trace.accepted| && w.trace.accepted[i] == e;
    TickReturnsDue(w.trace);
    DueAtMembers(w.trace.accepted, w.rt.wheel.now + 1, i);
  }

  /** Until then the frame is in nobody else's hands: no entry with its address is released. */
  lemma NothingReleasedBefore(w: World, e: Accepted, f: DelayedFrame)
    requires Sound(w) && e in w.trace.accepted && w.rt.wheel.now + 1 < e.Due()
    requires f in Released(w)
    ensures f.address != e.frame.address
  {
    if f.address == e.frame.address {
      assert AgreesAt(StartPoll(w.rt), w.Outside(), NO_FLIGHT, f.address);
      ReleasedOrTwo(w.trace, e, f);
      ReleasedWhenDue(w, e);
      assert false;
    }
  }

  /** How many polls later a packet delayed by `delayNs` comes back. */
  function PollsHeld(delayNs: U64): (t: nat)
    ensures 0 < t
  {
    var ticks := DP.DelayNsToTicks(delayNs, DP.DEFAULT_TICK_NS);
    if ticks == 0 then 1 else ticks
  }

  /** The delay is rounded up to whole polls, unless the rounding sum wraps. */
  lemma HeldLongEnough(delayNs: U64)
    requires 0 < delayNs
    ensures delayNs <= PollsHeld(delayNs) * DP.DEFAULT_TICK_NS < delayNs + DP.DEFAULT_TICK_NS <==> RoundsUp(delayNs)
  {
    DP.DelayRoundsUp(delayNs, DP.DEFAULT_TICK_NS);
  }

  /** The rounding sum does not wrap, or the delay is within one tick anyway. */
  predicate RoundsUp(delayNs: U64) {
    delayNs + DP.DEFAULT_TICK_NS - 1 < POW64 || delayNs <= DP.DEFAULT_TICK_NS
  }

  /** Where the sum does wrap: the longest delay there is, some 584 years, is held for one
      poll. */
  lemma LongestDelayWraps()
    ensures PollsHeld(POW64 - 1) == 1 && !RoundsUp(POW64 - 1)
  {
  }

  lemma EntryIs(w: World, d: DP.PacketDescriptor, v: DP.Verdict)
    ensures var e, due := EntryFor(w, d, v), w.rt.wheel.now + 1 + PollsHeld(v.decision.delayNs);
            e.Due() == due && e.Entry() == DelayedFrame(d.address, d.length, v.decision.ruleId, due)
  {
  }

  lemma EntryReturns(r: World, after: seq<Action>, z: World, e: Accepted, entry: DelayedFrame, due: nat)
    requires Sound(r) && z == RunWorld(r, after)
    requires e in r.trace.accepted && e.Entry() == entry && e.Due() == due
    ensures z.Bounded() && (entry in Released(z) <==> z.rt.wheel.now + 1 == due)
    ensures z.rt.wheel.now + 1 < due ==> NoneReleased(z, entry.address)
  {
    HistoryGrows(r, after, e);
    RunSound(r, after);
    ReleasedWhenDue(z, e);
    if z.rt.wheel.now + 1 < due {
      forall f | f in Released(z)
        ensures f.address != entry.address
      {
        NothingReleasedBefore(z, e, f);
      }
    }
  }

  /** The next poll releases no frame at this address. */
  ghost predicate NoneReleased(w: World, a: nat)
    requires w.Bounded()
  {
    forall f :: f in Released(w) ==> f.address != a
  }

  lemma HeldPacketReturns(w: World, rules: seq<ChaosRule>, after: seq<Action>, z: World, i: nat,
                          d: DP.PacketDescriptor, v: DP.Verdict, due: nat)
    requires Sound(w) && w.rt.initialized && z == RunWorld(PollStep(w, rules), after)
    requires i < |Arriving(w)| == |PollBatch(w.rt, rules).fates| && PollBatch(w.rt, rules).fates[i] == DP.Held
    requires d == Arriving(w)[i] && v == Judged(w, rules)[i]
    requires due == w.rt.wheel.now + 1 + PollsHeld(v.decision.delayNs)
    ensures DP.Delays(v)
    ensures z.Bounded()
    ensures DelayedFrame(d.address, d.length, v.decision.ruleId, due) in Released(z) <==> z.rt.wheel.now + 1 == due
    ensures z.rt.wheel.now + 1 < due ==> NoneReleased(z, d.address)
  {
    HeldIsAccepted(w, rules, i);
    StepSound(w, PollA(rules));
    EntryIs(w, d, v);
    EntryReturns(PollStep(w, rules), after, z, EntryFor(w, d, v),
                 DelayedFrame(d.address, d.length, v.decision.ruleId, due), due);
  }

  /** When the wheel holds an arriving packet: exactly if its verdict delays it, by no more
      than a turn of the wheel, and the poll it is due in is not fully booked by then. */
  lemma HeldIff(w: World, rules: seq<ChaosRule>, i: nat, v: DP.Verdict, fate: DP.Fate, t: Trace, op: WheelOp,
                held: nat, due: nat)
    requires Sound(w) && i < |Arriving(w)| == |PollBatch(w.rt, rules).fates|
    requires v == Judged(w, rules)[i] && fate == PollBatch(w.rt, rules).fates[i]
    requires t == Run(Step(w.trace, TickOp), Plan(Arriving(w)[..i], Judged(w, rules)[..i], DP.DEFAULT_TICK_NS))
    requires op == Asks(Arriving(w)[i], v, DP.DEFAULT_TICK_NS)
    requires held == PollsHeld(v.decision.delayNs) && due == w.rt.wheel.now + 1 + held
    ensures fate == DP.Held <==>
              DP.Delays(v) && held <= |w.rt.wheel.slots| && |DueAt(t.accepted, due)| < w.rt.wheel.maxPerSlot
  {
    PlanRefines(w, rules, i, t);
    BookedIff(t, op, v, held, due);
    HeldIfAccepted(w, rules, i, v, fate, t, op);
  }

  lemma HeldIfAccepted(w: World, rules: seq<ChaosRule>, i: nat, v: DP.Verdict, fate: DP.Fate, t: Trace, op: WheelOp)
    requires Sound(w) && i < |Arriving(w)| == |PollBatch(w.rt, rules).fates|
    requires v == Judged(w, rules)[i] && fate == PollBatch(w.rt, rules).fates[i]
    requires t == Run(Step(w.trace, TickOp), Plan(Arriving(w)[..i], Judged(w, rules)[..i], DP.DEFAULT_TICK_NS))
    requires op == Asks(Arriving(w)[i], v, DP.DEFAULT_TICK_NS)
    ensures 0 < |t.wheel.slots|
    ensures fate == DP.Held <==> DP.Delays(v) && Accepts(t.wheel, op)
  {
    PollDecides(w, rules);
    assert FateExact(Arriving(w), Judged(w, rules), PollBatch(w.rt, rules).fates, i, Step(w.trace, TickOp),
                     PollConfig(rules));
  }

  lemma PlanRefines(w: World, rules: seq<ChaosRule>, i: nat, t: Trace)
    requires Sound(w) && i < |Arriving(w)|
    requires t == Run(Step(w.trace, TickOp), Plan(Arriving(w)[..i], Judged(w, rules)[..i], DP.DEFAULT_TICK_NS))
    ensures Refines(t) && t.wheel.now == w.rt.wheel.now + 1
    ensures |t.wheel.slots| == |w.rt.wheel.slots| && t.wheel.maxPerSlot == w.rt.wheel.maxPerSlot
  {
    var ticked, ops := Step(w.trace, TickOp), Plan(Arriving(w)[..i], Judged(w, rules)[..i], DP.DEFAULT_TICK_NS);
    TickRefines(w.trace);
    RunRefines(ticked, ops);
    SchedulesStamp(ticked, ops);
    SchedulesKeepShape(ticked, ops);
  }

  lemma BookedIff(t: Trace, op: WheelOp, v: DP.Verdict, held: nat, due: nat)
    requires Refines(t) && op.ScheduleOp? && held == PollsHeld(v.decision.delayNs) && due == t.wheel.now + held
    requires op.delay == DP.DelayNsToTicks(v.decision.delayNs, DP.DEFAULT_TICK_NS)
    ensures Accepts(t.wheel, op) <==> held <= |t.wheel.slots| && |DueAt(t.accepted, due)| < t.wheel.maxPerSlot
  {
    AcceptedIff(t, op.frame, op.delay);
  }

  /** The delay theorem. In every run, take any poll and any packet `d` it receives that the
      wheel then holds. Its verdict `v` delays it, by some `delayNs`. From then on, its entry
      is among those the next poll offers to TX exactly if that next poll is number `due`,
      which is `t` polls later, and before that no entry at its address is; and `t` ticks are
      at least `delayNs` and less than one tick more exactly if the rounding sum does not wrap
      or the delay is within one tick. (No delay at all still takes one tick.) */
  lemma DelayedPacketReturnsOnTime(n: Sizes, umem: seq<Byte>, before: seq<Action>, w: World, rules: seq<ChaosRule>,
                                   i: nat, d: DP.PacketDescriptor, v: DP.Verdict, after: seq<Action>, z: World,
                                   t: nat, due: nat)
    requires Sensible(n) && w == RunWorld(Boot(n, umem), before) && w.rt.initialized
    requires i < |Arriving(w)| == |PollBatch(w.rt, rules).fates| && PollBatch(w.rt, rules).fates[i] == DP.Held
    requires d == Arriving(w)[i] && v == Judged(w, rules)[i]
    requires z == RunWorld(StepWorld(w, PollA(rules)), after)
    requires t == PollsHeld(v.decision.delayNs) && due == w.rt.wheel.now + 1 + t
    ensures DP.Delays(v) && z.Bounded()
    ensures DelayedFrame(d.address, d.length, v.decision.ruleId, due) in Released(z) <==> z.rt.wheel.now + 1 == due
    ensures z.rt.wheel.now + 1 < due ==> NoneReleased(z, d.address)
    ensures 0 < v.decision.delayNs ==>
              (v.decision.delayNs <= t * DP.DEFAULT_TICK_NS < v.decision.delayNs + DP.DEFAULT_TICK_NS <==>
               RoundsUp(v.decision.delayNs))
  {
    BootSound(n, umem, before);
    HeldPacketReturns(w, rules, after, z, i, d, v, due);
    if 0 < v.decision.delayNs {
      HeldLongEnough(v.decision.delayNs);
    }
  }
}
