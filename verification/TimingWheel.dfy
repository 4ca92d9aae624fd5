/** The hashed timing wheel.

    `WheelModel` is the wheel as the code keeps it: slots picked by release tick modulo the
    slot count, and a tick that compacts one slot. The theorems below say that this is a
    plain schedule: over every run, tick number `t` returns exactly the frames accepted for
    `t`, in the order they were accepted, whatever shared their slot. */
module TimingWheels {
  import opened Machine

  datatype DelayedFrame = DelayedFrame(address: nat, length: U32, ruleId: U32, releaseTick: nat)

  datatype ScheduleStatus = Scheduled | DelayTooLarge | SlotFull

  function SumLengths<T>(slots: seq<seq<T>>): nat {
    if slots == [] then 0 else SumLengths(slots[..|slots| - 1]) + |slots[|slots| - 1]|
  }

  /** Frames of a slot that `tick` moves to the expired list at tick `now`, in order. */
  function Expired(slot: seq<DelayedFrame>, now: nat): (r: seq<DelayedFrame>)
    ensures |r| <= |slot|
  {
    if slot == [] then []
    else
      var last := slot[|slot| - 1];
      Expired(slot[..|slot| - 1], now) + if last.releaseTick <= now then [last] else []
  }

  /** Frames of a slot that `tick` compacts to its front, in order. */
  function Kept(slot: seq<DelayedFrame>, now: nat): (r: seq<DelayedFrame>)
    ensures |r| + |Expired(slot, now)| == |slot|
  {
    if slot == [] then []
    else
      var last := slot[|slot| - 1];
      Kept(slot[..|slot| - 1], now) + if last.releaseTick <= now then [] else [last]
  }

  datatype WheelModel = WheelModel(
    maxPerSlot: nat,
    now: nat,
    slots: seq<seq<DelayedFrame>>,
    pending: nat,
    failures: nat)
  {
    ghost predicate Bounded() {
      && 0 < |slots|
      && pending == SumLengths(slots)
      && forall k :: 0 <= k < |slots| ==> |slots[k]| <= maxPerSlot
    }

    function SlotIndex(tick: nat): (k: nat)
      requires 0 < |slots|
      ensures k < |slots|
    {
      tick % |slots|
    }

    function ReleaseTick(delay: nat): nat {
      now + if delay == 0 then 1 else delay
    }

    function Schedule(frame: DelayedFrame, delay: nat): (r: (WheelModel, ScheduleStatus))
      requires 0 < |slots|
    {
      if delay > |slots| then
        (this.(failures := failures + 1), DelayTooLarge)
      else
        var release := ReleaseTick(delay);
        var k := SlotIndex(release);
        if |slots[k]| >= maxPerSlot then
          (this.(failures := failures + 1), SlotFull)
        else
          (this.(slots := slots[k := slots[k] + [frame.(releaseTick := release)]], pending := pending + 1),
           Scheduled)
    }

    function Tick(): (r: (WheelModel, seq<DelayedFrame>))
      requires Bounded()
    {
      var k := SlotIndex(now + 1);
      var expired := Expired(slots[k], now + 1);
      SumAtLeastSlot(slots, k);
      (this.(now := now + 1, slots := slots[k := Kept(slots[k], now + 1)], pending := pending - |expired|),
       expired)
    }
  }

  function FreshWheel(slotCount: nat, maxPerSlot: nat): (w: WheelModel)
    requires 0 < slotCount
    ensures w.Bounded()
  {
    SumOfEmpties<DelayedFrame>(slotCount);
    WheelModel(maxPerSlot, 0, seq(slotCount, _ => []), 0, 0)
  }

  lemma {:induction false} SumOfEmpties<T>(n: nat)
    ensures SumLengths<T>(seq(n, _ => [])) == 0
  {
    if n == 0 {
    } else {
      SumOfEmpties<T>(n - 1);
      var all: seq<seq<T>> := seq(n, _ => []);
      assert all[..n - 1] == seq(n - 1, _ => []);
    }
  }

  lemma {:induction false} SumAfterUpdate<T>(slots: seq<seq<T>>, k: nat, slot: seq<T>)
    requires k < |slots|
    ensures SumLengths(slots[k := slot]) == SumLengths(slots) - |slots[k]| + |slot|
    decreases |slots|
  {
    var n := |slots| - 1;
    if k < n {
      SumAfterUpdate(slots[..n], k, slot);
      assert slots[k := slot][..n] == slots[..n][k := slot];
    } else {
      assert slots[k := slot][..n] == slots[..n];
    }
  }

  lemma SumAtLeastSlot<T>(slots: seq<seq<T>>, k: nat)
    requires k < |slots|
    ensures |slots[k]| <= SumLengths(slots)
  {
    SumAfterUpdate(slots, k, []);
  }

  /** Both operations keep `pending_count_` equal to the sum of the slot counts. */
  lemma StepsKeepBounded(w: WheelModel, frame: DelayedFrame, delay: nat)
    requires w.Bounded()
    ensures w.Schedule(frame, delay).0.Bounded()
    ensures w.Tick().0.Bounded()
  {
    var due := w.ReleaseTick(delay);
    var k := w.SlotIndex(due);
    SumAfterUpdate(w.slots, k, w.slots[k] + [frame.(releaseTick := due)]);
    var j := w.SlotIndex(w.now + 1);
    SumAfterUpdate(w.slots, j, Kept(w.slots[j], w.now + 1));
  }

  // ---------------------------------------------------------------------------------------
  // Every run is a plain schedule
  // ---------------------------------------------------------------------------------------

  datatype WheelOp = ScheduleOp(frame: DelayedFrame, delay: nat) | TickOp

  /** A frame the wheel accepted, with the tick and the delay it was accepted at. */
  datatype Accepted = Accepted(frame: DelayedFrame, at: nat, delay: nat)
  {
    function Due(): nat { at + if delay == 0 then 1 else delay }

    function Entry(): DelayedFrame { frame.(releaseTick := Due()) }
  }

  /** A wheel and its history: the frames accepted so far and what each tick returned. */
  datatype Trace = Trace(wheel: WheelModel, accepted: seq<Accepted>, returned: seq<seq<DelayedFrame>>)

  function Step(t: Trace, op: WheelOp): (r: Trace)
    requires t.wheel.Bounded()
    ensures r.wheel.Bounded()
  {
    match op
    case ScheduleOp(frame, delay) =>
      StepsKeepBounded(t.wheel, frame, delay);
      var (w, status) := t.wheel.Schedule(frame, delay);
      Trace(w, if status == Scheduled then t.accepted + [Accepted(frame, t.wheel.now, delay)] else t.accepted,
            t.returned)
    case TickOp =>
      StepsKeepBounded(t.wheel, DelayedFrame(0, 0, 0, 0), 0);
      var (w, expired) := t.wheel.Tick();
      Trace(w, t.accepted, t.returned + [expired])
  }

  function Run(t: Trace, ops: seq<WheelOp>): (r: Trace)
    requires t.wheel.Bounded()
    ensures r.wheel.Bounded()
    decreases |ops|
  {
    if ops == [] then t else Run(Step(t, ops[0]), ops[1..])
  }

  /** The reference schedule: what is due at `tick`, in the order it was accepted. */
  function DueAt(accepted: seq<Accepted>, tick: nat): seq<DelayedFrame> {
    if accepted == [] then []
    else
      var last := accepted[|accepted| - 1];
      DueAt(accepted[..|accepted| - 1], tick) + if last.Due() == tick then [last.Entry()] else []
  }

  /** What is due after `now` and hashes to slot `k` of `n`, in the order it was accepted. */
  function DueInSlot(accepted: seq<Accepted>, now: nat, k: nat, n: nat): seq<DelayedFrame>
    requires 0 < n
  {
    if accepted == [] then []
    else
      var last := accepted[|accepted| - 1];
      DueInSlot(accepted[..|accepted| - 1], now, k, n) +
      if now < last.Due() && last.Due() % n == k then [last.Entry()] else []
  }

  ghost predicate InWindow(accepted: seq<Accepted>, limit: nat) {
    forall i :: 0 <= i < |accepted| ==> accepted[i].Due() <= limit
  }

  /** The wheel's slots hold the accepted frames that are not yet due, and the ticks so far
      returned exactly the reference schedule. */
  ghost predicate Refines(t: Trace) {
    var w := t.wheel;
    && w.Bounded()
    && |t.returned| == w.now
    && InWindow(t.accepted, w.now + |w.slots|)
    && (forall k :: 0 <= k < |w.slots| ==> w.slots[k] == DueInSlot(t.accepted, w.now, k, |w.slots|))
    && (forall i :: 0 <= i < |t.returned| ==> t.returned[i] == DueAt(t.accepted, i + 1))
    && SumLengths(t.returned) + w.pending == |t.accepted|
  }

  /** Within one turn of the wheel, a slot holds a single due tick. */
  lemma {:induction false} SlotHoldsOneTick(accepted: seq<Accepted>, now: nat, tick: nat, n: nat)
    requires 0 < n && InWindow(accepted, now + n) && now < tick <= now + n
    ensures DueInSlot(accepted, now, tick % n, n) == DueAt(accepted, tick)
    decreases |accepted|
  {
    if accepted == [] {
    } else {
      var last := accepted[|accepted| - 1];
      SlotHoldsOneTick(accepted[..|accepted| - 1], now, tick, n);
      if now < last.Due() && last.Due() % n == tick % n {
        ModInjective(last.Due(), tick, n);
      }
    }
  }

  /** Everything due at one tick expires at that tick, and nothing is kept. */
  lemma {:induction false} DueAllExpire(accepted: seq<Accepted>, tick: nat)
    ensures Expired(DueAt(accepted, tick), tick) == DueAt(accepted, tick)
    ensures Kept(DueAt(accepted, tick), tick) == []
    decreases |accepted|
  {
    if accepted == [] {
    } else {
      DueAllExpire(accepted[..|accepted| - 1], tick);
      var last := accepted[|accepted| - 1];
      var front := DueAt(accepted[..|accepted| - 1], tick);
      if last.Due() == tick {
        assert (front + [last.Entry()])[..|front|] == front;
      } else {
        assert DueAt(accepted, tick) == front;
      }
    }
  }

  /** After a tick the slot it emptied holds nothing, and the others what they held. */
  lemma {:induction false} SlotsAfterTick(accepted: seq<Accepted>, now: nat, k: nat, n: nat)
    requires 0 < n && InWindow(accepted, now + n)
    ensures DueInSlot(accepted, now + 1, k, n) ==
            if k == (now + 1) % n then [] else DueInSlot(accepted, now, k, n)
    decreases |accepted|
  {
    if accepted == [] {
    } else {
      var last := accepted[|accepted| - 1];
      SlotsAfterTick(accepted[..|accepted| - 1], now, k, n);
      if now + 1 < last.Due() && last.Due() % n == (now + 1) % n {
        ModInjective(last.Due(), now + 1, n);
      }
    }
  }

  lemma ScheduleRefines(t: Trace, frame: DelayedFrame, delay: nat)
    requires Refines(t)
    ensures Refines(Step(t, ScheduleOp(frame, delay)))
  {
    var w := t.wheel;
    if w.Schedule(frame, delay).1 == Scheduled {
      var a := Accepted(frame, w.now, delay);
      var u := Step(t, ScheduleOp(frame, delay));
      assert u.accepted[..|t.accepted|] == t.accepted;
      assert a.Due() <= w.now + |w.slots|;
    }
  }

  /** The slot a tick visits holds exactly what is due, so compaction keeps nothing. */
  lemma TickReturnsDue(t: Trace)
    requires Refines(t)
    ensures t.wheel.Tick().1 == DueAt(t.accepted, t.wheel.now + 1)
    ensures t.wheel.Tick().0.slots == t.wheel.slots[t.wheel.SlotIndex(t.wheel.now + 1) := []]
  {
    var w := t.wheel;
    SlotHoldsOneTick(t.accepted, w.now, w.now + 1, |w.slots|);
    DueAllExpire(t.accepted, w.now + 1);
  }

  lemma TickRefines(t: Trace)
    requires Refines(t)
    ensures Refines(Step(t, TickOp))
  {
    var w := t.wheel;
    var n := |w.slots|;
    var u := Step(t, TickOp);
    TickReturnsDue(t);
    forall k | 0 <= k < n
      ensures u.wheel.slots[k] == DueInSlot(t.accepted, w.now + 1, k, n)
    {
      SlotsAfterTick(t.accepted, w.now, k, n);
    }
    assert u.returned[..|t.returned|] == t.returned;
    assert SumLengths(u.returned) == SumLengths(t.returned) + |w.Tick().1|;
  }

  /** A frame is refused exactly when its delay is longer than a turn or its own tick is
      already fully booked; frames due at other ticks never crowd it out. */
  lemma AcceptedIff(t: Trace, frame: DelayedFrame, delay: nat)
    requires Refines(t)
    ensures t.wheel.Schedule(frame, delay).1 == Scheduled <==>
              && delay <= |t.wheel.slots|
              && |DueAt(t.accepted, t.wheel.ReleaseTick(delay))| < t.wheel.maxPerSlot
  {
    var w := t.wheel;
    if delay <= |w.slots| {
      SlotHoldsOneTick(t.accepted, w.now, w.ReleaseTick(delay), |w.slots|);
    }
  }

  /** The main theorem: from a fresh wheel, after any operations, tick `i` returned exactly
      the frames accepted for it, in order, and the slots hold exactly the rest. */
  lemma {:induction false} RunRefines(t: Trace, ops: seq<WheelOp>)
    requires Refines(t)
    ensures Refines(Run(t, ops))
    decreases |ops|
  {
    if ops == [] {
    } else {
      match ops[0] {
        case ScheduleOp(frame, delay) => ScheduleRefines(t, frame, delay);
        case TickOp => TickRefines(t);
      }
      RunRefines(Step(t, ops[0]), ops[1..]);
    }
  }

  lemma FreshRefines(slotCount: nat, maxPerSlot: nat)
    requires 0 < slotCount
    ensures Refines(Trace(FreshWheel(slotCount, maxPerSlot), [], []))
  {
  }

  /** A delayed frame comes out of the wheel exactly `max(1, delay)` ticks after it went in:
      on that tick it is returned, and on no other. */
  lemma ReleasedOnTime(slotCount: nat, maxPerSlot: nat, ops: seq<WheelOp>, i: nat, tick: nat)
    requires 0 < slotCount
    requires var t := Run(Trace(FreshWheel(slotCount, maxPerSlot), [], []), ops);
             i < |t.accepted| && tick < |t.returned|
    ensures var t := Run(Trace(FreshWheel(slotCount, maxPerSlot), [], []), ops);
            var a := t.accepted[i];
            && (tick + 1 == a.Due() ==> a.Entry() in t.returned[tick])
            && (tick + 1 != a.Due() ==> a.Entry() !in t.returned[tick])
  {
    FreshRefines(slotCount, maxPerSlot);
    RunRefines(Trace(FreshWheel(slotCount, maxPerSlot), [], []), ops);
    var t := Run(Trace(FreshWheel(slotCount, maxPerSlot), [], []), ops);
    DueAtMembers(t.accepted, tick + 1, i);
  }

  lemma {:induction false} DueAtMembers(accepted: seq<Accepted>, tick: nat, i: nat)
    requires i < |accepted|
    ensures accepted[i].Due() == tick ==> accepted[i].Entry() in DueAt(accepted, tick)
    ensures forall e :: e in DueAt(accepted, tick) ==> e.releaseTick == tick
    decreases |accepted|
  {
    var n := |accepted| - 1;
    if 0 < n {
      DueAtMembers(accepted[..n], tick, if i < n then i else 0);
    }
  }

  lemma {:induction false} RunConcat(t: Trace, a: seq<WheelOp>, b: seq<WheelOp>)
    requires t.wheel.Bounded()
    ensures Run(t, a + b) == Run(Run(t, a), b)
    decreases |a|
  {
    if a == [] {
      assert a + b == b;
    } else {
      assert (a + b)[0] == a[0] && (a + b)[1..] == a[1..] + b;
      RunConcat(Step(t, a[0]), a[1..], b);
    }
  }

  ghost predicate OnlySchedules(ops: seq<WheelOp>) {
    forall i :: 0 <= i < |ops| ==> ops[i].ScheduleOp?
  }

  /** Frames accepted by a run of schedules are stamped with the current tick. */
  lemma {:induction false} SchedulesStamp(t: Trace, ops: seq<WheelOp>)
    requires t.wheel.Bounded() && OnlySchedules(ops)
    ensures var r := Run(t, ops);
            && r.wheel.now == t.wheel.now && r.returned == t.returned
            && |t.accepted| <= |r.accepted| && r.accepted[..|t.accepted|] == t.accepted
            && forall i :: |t.accepted| <= i < |r.accepted| ==> r.accepted[i].at == t.wheel.now
    decreases |ops|
  {
    if ops == [] {
    } else {
      assert ops[0].ScheduleOp?;
      var next := Step(t, ops[0]);
      SchedulesStamp(next, ops[1..]);
      var r := Run(t, ops);
      assert r.accepted[..|t.accepted|] == r.accepted[..|next.accepted|][..|t.accepted|];
    }
  }
}
