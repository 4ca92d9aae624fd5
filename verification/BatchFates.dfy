/** The one fate a packet can have: what its verdict asks for, decided by the room left in the
    outputs and by the wheel it meets. */
module BatchFates {
  import opened Machine
  import opened TimingWheels
  import opened DataPlane

  /** The wheel operation a delaying verdict asks for. */
  function Asks(d: PacketDescriptor, v: Verdict, tickNs: U64): (op: WheelOp)
    ensures op.ScheduleOp?
  {
    ScheduleOp(DelayedFrame(d.address, d.length, v.decision.ruleId, 0), DelayNsToTicks(v.decision.delayNs, tickNs))
  }

  /** The operation each descriptor would ask for. */
  function AskAll(rx: seq<PacketDescriptor>, vs: seq<Verdict>, tickNs: U64): (r: seq<WheelOp>)
    requires |rx| == |vs|
    ensures |r| == |rx| && OnlySchedules(r)
    ensures forall i :: 0 <= i < |rx| ==> r[i] == Asks(rx[i], vs[i], tickNs)
  {
    seq(|rx|, i requires 0 <= i < |rx| => Asks(rx[i], vs[i], tickNs))
  }

  /** The operations of the delaying verdicts. */
  function Pick(ops: seq<WheelOp>, vs: seq<Verdict>): (r: seq<WheelOp>)
    requires |ops| == |vs| && OnlySchedules(ops)
    ensures OnlySchedules(r)
    decreases |ops|
  {
    if ops == [] then []
    else
      var n := |ops| - 1;
      Pick(ops[..n], vs[..n]) + if Delays(vs[n]) then [ops[n]] else []
  }

  /** What a batch asks of the wheel: one schedule per delaying verdict, in arrival order. */
  function Plan(rx: seq<PacketDescriptor>, vs: seq<Verdict>, tickNs: U64): (r: seq<WheelOp>)
    requires |rx| == |vs|
    ensures OnlySchedules(r)
  {
    Pick(AskAll(rx, vs, tickNs), vs)
  }

  predicate Accepts(wheel: WheelModel, op: WheelOp)
    requires 0 < |wheel.slots| && op.ScheduleOp?
  {
    wheel.Schedule(op.frame, op.delay).1 == Scheduled
  }

  /** The frame is to be sent: the packet parsed and its rule neither drops nor delays it. */
  predicate Outgoing(v: Verdict) { v.valid && Forwards(v) }

  /** Sent exactly if it is outgoing and TX has room, held exactly if it is delayed and the
      wheel accepts it, and of the rest lost exactly if recycle has no room. */
  predicate Deserves(fate: Fate, v: Verdict, op: WheelOp, wheel: WheelModel, sent: nat, recycled: nat,
                     config: BatchConfig)
    requires 0 < |wheel.slots| && op.ScheduleOp?
  {
    var out, held := Outgoing(v) && sent < config.txCapacity, Delays(v) && Accepts(wheel, op);
    && (fate == Sent <==> out)
    && (fate == Held <==> held)
    && (fate == Overflowed <==> !out && !held && recycled >= config.recycleCapacity)
  }

  /** How many of these fates are `fate`. */
  function Times(fates: seq<Fate>, fate: Fate): nat {
    if fates == [] then 0 else Times(fates[..|fates| - 1], fate) + if fates[|fates| - 1] == fate then 1 else 0
  }

  /** How many verdicts met a fate that passes the test. */
  function HowOften(vs: seq<Verdict>, fates: seq<Fate>, test: (Verdict, Fate) -> bool): nat
    requires |vs| == |fates|
    decreases |vs|
  {
    if vs == [] then 0
    else
      var n := |vs| - 1;
      HowOften(vs[..n], fates[..n], test) + if test(vs[n], fates[n]) then 1 else 0
  }

  predicate Unsent(v: Verdict, fate: Fate) { Outgoing(v) && fate != Sent }

  predicate Refused(v: Verdict, fate: Fate) { Delays(v) && fate != Held }

  /** Descriptor `i` met the fate it deserves: the outputs hold what was sent and recycled
      before it, and the wheel has been asked for what was planned before it. */
  ghost predicate FateExact(rx: seq<PacketDescriptor>, vs: seq<Verdict>, fates: seq<Fate>, i: nat, t: Trace,
                            config: BatchConfig)
    requires i < |rx| == |vs| == |fates| && t.wheel.Bounded()
  {
    Deserves(fates[i], vs[i], Asks(rx[i], vs[i], config.tickNs), Run(t, Plan(rx[..i], vs[..i], config.tickNs)).wheel,
             Times(fates[..i], Sent), Times(fates[..i], Recycled), config)
  }

  /** The fates, the wheel's operations and the failure counters of a batch over these
      verdicts. `t` is any history of the wheel the batch started from. */
  ghost predicate Fated(b: Batch, rx: seq<PacketDescriptor>, vs: seq<Verdict>, t: Trace, config: BatchConfig)
    requires t.wheel.Bounded()
  {
    && |b.fates| == |rx| == |vs|
    && (forall i :: 0 <= i < |rx| ==> FateExact(rx, vs, b.fates, i, t, config))
    && |b.tx| == Times(b.fates, Sent) && |b.recycle| == Times(b.fates, Recycled)
    && b.attempts == Plan(rx, vs, config.tickNs) && b.wheel == Run(t, b.attempts).wheel
    && b.stats.overflows == Times(b.fates, Overflowed) + HowOften(vs, b.fates, Unsent)
    && b.stats.scheduleFailures == HowOften(vs, b.fates, Refused)
  }

  // ---------------------------------------------------------------------------------------
  // One descriptor
  // ---------------------------------------------------------------------------------------

  /** What one descriptor adds to the fates, the operations and the failure counters. */
  ghost predicate Outcome(b: Batch, r: Batch, d: PacketDescriptor, v: Verdict, fate: Fate, config: BatchConfig)
    requires 0 < |b.wheel.slots|
  {
    var op := Asks(d, v, config.tickNs);
    && r.fates == b.fates + [fate]
    && Deserves(fate, v, op, b.wheel, |b.tx|, |b.recycle|, config)
    && |r.tx| == |b.tx| + (if fate == Sent then 1 else 0)
    && |r.recycle| == |b.recycle| + (if fate == Recycled then 1 else 0)
    && r.attempts == b.attempts + (if Delays(v) then [op] else [])
    && r.wheel == (if Delays(v) then b.wheel.Schedule(op.frame, op.delay).0 else b.wheel)
    && r.stats.overflows == b.stats.overflows + (if fate == Overflowed then 1 else 0) + (if Unsent(v, fate) then 1 else 0)
    && r.stats.scheduleFailures == b.stats.scheduleFailures + if Refused(v, fate) then 1 else 0
  }

  lemma ApplyOutcome(b: Batch, d: PacketDescriptor, v: Verdict, config: BatchConfig) returns (fate: Fate)
    requires b.wheel.Bounded() && v.Fits(d, |b.umem|)
    ensures Outcome(b, Apply(b, d, v, config), d, v, fate, config)
  {
    var r := Apply(b, d, v, config);
    fate := r.fates[|b.fates|];
  }

  lemma PlanOneMore(rx: seq<PacketDescriptor>, vs: seq<Verdict>, d: PacketDescriptor, v: Verdict, tickNs: U64)
    requires |rx| == |vs|
    ensures Plan(rx + [d], vs + [v], tickNs) == Plan(rx, vs, tickNs) + if Delays(v) then [Asks(d, v, tickNs)] else []
  {
    var ops := AskAll(rx + [d], vs + [v], tickNs);
    assert ops[..|rx|] == AskAll(rx, vs, tickNs) && (vs + [v])[..|vs|] == vs;
  }

  lemma TimesOneMore(fates: seq<Fate>, got: Fate, fate: Fate)
    ensures Times(fates + [got], fate) == Times(fates, fate) + if got == fate then 1 else 0
  {
    assert (fates + [got])[..|fates|] == fates;
  }

  lemma HowOftenOneMore(vs: seq<Verdict>, fates: seq<Fate>, v: Verdict, fate: Fate, test: (Verdict, Fate) -> bool)
    requires |vs| == |fates|
    ensures HowOften(vs + [v], fates + [fate], test) == HowOften(vs, fates, test) + if test(v, fate) then 1 else 0
  {
    assert (vs + [v])[..|vs|] == vs && (fates + [fate])[..|fates|] == fates;
  }

  /** One more descriptor leaves the fates before it as exact as they were. */
  lemma FateStaysExact(rx: seq<PacketDescriptor>, vs: seq<Verdict>, fates: seq<Fate>, i: nat, t: Trace,
                       config: BatchConfig, d: PacketDescriptor, v: Verdict, fate: Fate)
    requires i < |rx| == |vs| == |fates| && t.wheel.Bounded() && FateExact(rx, vs, fates, i, t, config)
    ensures FateExact(rx + [d], vs + [v], fates + [fate], i, t, config)
  {
    assert (rx + [d])[..i] == rx[..i] && (vs + [v])[..i] == vs[..i] && (fates + [fate])[..i] == fates[..i];
  }

  lemma LastFateExact(rx: seq<PacketDescriptor>, vs: seq<Verdict>, fates: seq<Fate>, t: Trace,
                      config: BatchConfig, d: PacketDescriptor, v: Verdict, fate: Fate)
    requires |rx| == |vs| == |fates| && t.wheel.Bounded()
    requires Deserves(fate, v, Asks(d, v, config.tickNs), Run(t, Plan(rx, vs, config.tickNs)).wheel,
                      Times(fates, Sent), Times(fates, Recycled), config)
    ensures FateExact(rx + [d], vs + [v], fates + [fate], |rx|, t, config)
  {
    var i := |rx|;
    assert (rx + [d])[..i] == rx && (vs + [v])[..i] == vs && (fates + [fate])[..i] == fates;
  }

  /** Replaying one more operation. */
  lemma RunOneMore(t: Trace, ops: seq<WheelOp>, op: WheelOp)
    requires t.wheel.Bounded()
    ensures Run(t, ops + [op]) == Step(Run(t, ops), op)
  {
    RunConcat(t, ops, [op]);
    assert Run(Step(Run(t, ops), op), [op][1..]) == Step(Run(t, ops), op);
  }

  lemma WheelFollows(t: Trace, ops: seq<WheelOp>, op: WheelOp)
    requires t.wheel.Bounded() && op.ScheduleOp?
    ensures Run(t, ops + [op]).wheel == Run(t, ops).wheel.Schedule(op.frame, op.delay).0
  {
    RunOneMore(t, ops, op);
  }

  lemma FatesFollow(b: Batch, r: Batch, rx: seq<PacketDescriptor>, vs: seq<Verdict>, d: PacketDescriptor, v: Verdict,
                    fate: Fate, t: Trace, config: BatchConfig)
    requires b.wheel.Bounded() && t.wheel.Bounded() && Fated(b, rx, vs, t, config) && Outcome(b, r, d, v, fate, config)
    ensures forall i :: 0 <= i <= |rx| ==> FateExact(rx + [d], vs + [v], r.fates, i, t, config)
  {
    LastFateExact(rx, vs, b.fates, t, config, d, v, fate);
    forall i | 0 <= i < |rx|
      ensures FateExact(rx + [d], vs + [v], r.fates, i, t, config)
    {
      FateStaysExact(rx, vs, b.fates, i, t, config, d, v, fate);
    }
  }

  lemma CountsFollow(b: Batch, r: Batch, vs: seq<Verdict>, v: Verdict, d: PacketDescriptor, fate: Fate,
                     config: BatchConfig)
    requires 0 < |b.wheel.slots| && Outcome(b, r, d, v, fate, config) && |b.fates| == |vs|
    requires |b.tx| == Times(b.fates, Sent) && |b.recycle| == Times(b.fates, Recycled)
    requires b.stats.overflows == Times(b.fates, Overflowed) + HowOften(vs, b.fates, Unsent)
    requires b.stats.scheduleFailures == HowOften(vs, b.fates, Refused)
    ensures |r.tx| == Times(r.fates, Sent) && |r.recycle| == Times(r.fates, Recycled)
    ensures r.stats.overflows == Times(r.fates, Overflowed) + HowOften(vs + [v], r.fates, Unsent)
    ensures r.stats.scheduleFailures == HowOften(vs + [v], r.fates, Refused)
  {
    TimesOneMore(b.fates, fate, Sent);
    TimesOneMore(b.fates, fate, Recycled);
    TimesOneMore(b.fates, fate, Overflowed);
    HowOftenOneMore(vs, b.fates, v, fate, Unsent);
    HowOftenOneMore(vs, b.fates, v, fate, Refused);
  }

  lemma FatedStep(b: Batch, rx: seq<PacketDescriptor>, vs: seq<Verdict>, d: PacketDescriptor, v: Verdict, t: Trace,
                  config: BatchConfig)
    requires b.wheel.Bounded() && t.wheel.Bounded() && v.Fits(d, |b.umem|) && Fated(b, rx, vs, t, config)
    ensures Fated(Apply(b, d, v, config), rx + [d], vs + [v], t, config)
  {
    var r := Apply(b, d, v, config);
    var fate := ApplyOutcome(b, d, v, config);
    OutcomeKeepsFated(b, r, rx, vs, d, v, fate, t, config);
  }

  lemma OutcomeKeepsFated(b: Batch, r: Batch, rx: seq<PacketDescriptor>, vs: seq<Verdict>, d: PacketDescriptor,
                          v: Verdict, fate: Fate, t: Trace, config: BatchConfig)
    requires b.wheel.Bounded() && t.wheel.Bounded() && Fated(b, rx, vs, t, config) && Outcome(b, r, d, v, fate, config)
    ensures Fated(r, rx + [d], vs + [v], t, config)
  {
    FatesFollow(b, r, rx, vs, d, v, fate, t, config);
    CountsFollow(b, r, vs, v, d, fate, config);
    PlanOneMore(rx, vs, d, v, config.tickNs);
    WheelFollows(t, b.attempts, Asks(d, v, config.tickNs));
    assert b.attempts + [] == b.attempts;
  }

  // ---------------------------------------------------------------------------------------
  // The plan in the wheel's history
  // ---------------------------------------------------------------------------------------

  lemma AcceptedNow(t: Trace, ops: seq<WheelOp>, op: WheelOp)
    requires t.wheel.Bounded() && OnlySchedules(ops) && op.ScheduleOp? && Accepts(Run(t, ops).wheel, op)
    ensures Accepted(op.frame, t.wheel.now, op.delay) in Run(t, ops + [op]).accepted
  {
    SchedulesStamp(t, ops);
    RunOneMore(t, ops, op);
  }

  lemma AcceptedStays(t: Trace, ops: seq<WheelOp>, e: Accepted)
    requires t.wheel.Bounded() && OnlySchedules(ops) && e in t.accepted
    ensures e in Run(t, ops).accepted
  {
    SchedulesStamp(t, ops);
    var r := Run(t, ops).accepted;
    assert e in r[..|t.accepted|];
  }

  lemma {:induction false} PickSplits(ops: seq<WheelOp>, vs: seq<Verdict>, i: nat) returns (rest: seq<WheelOp>)
    requires i < |ops| == |vs| && OnlySchedules(ops) && Delays(vs[i])
    ensures OnlySchedules(rest) && Pick(ops, vs) == Pick(ops[..i], vs[..i]) + [ops[i]] + rest
    decreases |ops|
  {
    var n := |ops| - 1;
    if i == n {
      rest := [];
    } else {
      rest := PickSplits(ops[..n], vs[..n], i);
      assert ops[..n][..i] == ops[..i] && vs[..n][..i] == vs[..i];
      rest := rest + if Delays(vs[n]) then [ops[n]] else [];
    }
  }

  lemma AcceptedInTheEnd(t: Trace, front: seq<WheelOp>, op: WheelOp, rest: seq<WheelOp>, all: seq<WheelOp>)
    requires t.wheel.Bounded() && OnlySchedules(front) && OnlySchedules(rest) && all == front + [op] + rest
    requires op.ScheduleOp? && Accepts(Run(t, front).wheel, op)
    ensures Accepted(op.frame, t.wheel.now, op.delay) in Run(t, all).accepted
  {
    AcceptedNow(t, front, op);
    RunConcat(t, front + [op], rest);
    AcceptedStays(Run(t, front + [op]), rest, Accepted(op.frame, t.wheel.now, op.delay));
  }

  lemma PlanSplits(rx: seq<PacketDescriptor>, vs: seq<Verdict>, tickNs: U64, i: nat) returns (rest: seq<WheelOp>)
    requires i < |rx| == |vs| && Delays(vs[i])
    ensures OnlySchedules(rest)
    ensures Plan(rx, vs, tickNs) == Plan(rx[..i], vs[..i], tickNs) + [Asks(rx[i], vs[i], tickNs)] + rest
  {
    var ops := AskAll(rx, vs, tickNs);
    assert ops[..i] == AskAll(rx[..i], vs[..i], tickNs);
    rest := PickSplits(ops, vs, i);
  }

  /** A planned schedule that the wheel accepts is in the wheel's history from then on. */
  lemma PlannedIsAccepted(t: Trace, rx: seq<PacketDescriptor>, vs: seq<Verdict>, tickNs: U64, i: nat)
    requires t.wheel.Bounded() && i < |rx| == |vs| && Delays(vs[i])
    requires Accepts(Run(t, Plan(rx[..i], vs[..i], tickNs)).wheel, Asks(rx[i], vs[i], tickNs))
    ensures var op := Asks(rx[i], vs[i], tickNs);
            Accepted(op.frame, t.wheel.now, op.delay) in Run(t, Plan(rx, vs, tickNs)).accepted
  {
    var rest := PlanSplits(rx, vs, tickNs, i);
    AcceptedInTheEnd(t, Plan(rx[..i], vs[..i], tickNs), Asks(rx[i], vs[i], tickNs), rest, Plan(rx, vs, tickNs));
  }

  lemma {:induction false} SchedulesKeepShape(t: Trace, ops: seq<WheelOp>)
    requires t.wheel.Bounded() && OnlySchedules(ops)
    ensures var w := Run(t, ops).wheel;
            |w.slots| == |t.wheel.slots| && w.maxPerSlot == t.wheel.maxPerSlot
    decreases |ops|
  {
    if ops == [] {
    } else {
      assert ops[0].ScheduleOp?;
      SchedulesKeepShape(Step(t, ops[0]), ops[1..]);
    }
  }

  // ---------------------------------------------------------------------------------------
  // Outputs with room for the whole batch
  // ---------------------------------------------------------------------------------------

  lemma {:induction false} TimesAtMost(fates: seq<Fate>, fate: Fate)
    ensures Times(fates, fate) <= |fates|
    decreases |fates|
  {
    if fates == [] {
    } else {
      TimesAtMost(fates[..|fates| - 1], fate);
    }
  }

  lemma {:induction false} NoTimes(fates: seq<Fate>, fate: Fate)
    requires fate !in fates
    ensures Times(fates, fate) == 0
    decreases |fates|
  {
    if fates == [] {
    } else {
      NoTimes(fates[..|fates| - 1], fate);
    }
  }

  lemma {:induction false} NeverHappens(vs: seq<Verdict>, fates: seq<Fate>, test: (Verdict, Fate) -> bool)
    requires |vs| == |fates| && forall i :: 0 <= i < |vs| ==> !test(vs[i], fates[i])
    ensures HowOften(vs, fates, test) == 0
    decreases |vs|
  {
    if vs == [] {
    } else {
      NeverHappens(vs[..|vs| - 1], fates[..|vs| - 1], test);
    }
  }

  /** Outputs as long as the batch never fill up: every outgoing packet is sent, every other
      one that the wheel does not hold is recycled, and no overflow is counted. */
  lemma RoomForAll(b: Batch, rx: seq<PacketDescriptor>, vs: seq<Verdict>, t: Trace, config: BatchConfig)
    requires t.wheel.Bounded() && Fated(b, rx, vs, t, config)
    requires |rx| <= config.txCapacity && |rx| <= config.recycleCapacity
    ensures forall i :: 0 <= i < |rx| ==>
              (b.fates[i] == Sent <==> Outgoing(vs[i])) && b.fates[i] != Overflowed &&
              (b.fates[i] == Held ==> Delays(vs[i]))
    ensures b.stats.overflows == 0
  {
    forall i | 0 <= i < |rx|
      ensures (b.fates[i] == Sent <==> Outgoing(vs[i])) && b.fates[i] != Overflowed &&
              (b.fates[i] == Held ==> Delays(vs[i]))
    {
      assert FateExact(rx, vs, b.fates, i, t, config);
      TimesAtMost(b.fates[..i], Sent);
      TimesAtMost(b.fates[..i], Recycled);
    }
    NoTimes(b.fates, Overflowed);
    NeverHappens(vs, b.fates, Unsent);
  }
}
