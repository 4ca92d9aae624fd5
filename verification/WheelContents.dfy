/** Which frames sit in a wheel, counted by address, and how the two operations move them. */
module WheelContents {
  import opened Machine
  import opened TimingWheels

  function DelayedAddress(frame: DelayedFrame): nat { frame.address }

  function Occurrences(frames: seq<DelayedFrame>, a: nat): nat {
    CountBy(frames, DelayedAddress, a)
  }

  /** How often address `a` sits in the slots. */
  function Contents(slots: seq<seq<DelayedFrame>>, a: nat): nat {
    if slots == [] then 0
    else Contents(slots[..|slots| - 1], a) + Occurrences(slots[|slots| - 1], a)
  }

  lemma {:induction false} ContentsAfterUpdate(slots: seq<seq<DelayedFrame>>, k: nat, slot: seq<DelayedFrame>, a: nat)
    requires k < |slots|
    ensures Contents(slots[k := slot], a) == Contents(slots, a) - Occurrences(slots[k], a) + Occurrences(slot, a)
    decreases |slots|
  {
    var n := |slots| - 1;
    if k < n {
      ContentsAfterUpdate(slots[..n], k, slot, a);
      assert slots[k := slot][..n] == slots[..n][k := slot];
    } else {
      assert slots[k := slot][..n] == slots[..n];
    }
  }

  lemma {:induction false} ContentsOfEmpties(slots: seq<seq<DelayedFrame>>, a: nat)
    requires forall k :: 0 <= k < |slots| ==> slots[k] == []
    ensures Contents(slots, a) == 0
    decreases |slots|
  {
    if slots == [] {
    } else {
      ContentsOfEmpties(slots[..|slots| - 1], a);
    }
  }

  /** An accepted frame is added to the contents; a refused one changes nothing. */
  lemma ScheduleAdds(w: WheelModel, frame: DelayedFrame, delay: nat, a: nat)
    requires w.Bounded()
    ensures var (w', status) := w.Schedule(frame, delay);
            Contents(w'.slots, a) == Contents(w.slots, a) + if status == Scheduled && frame.address == a then 1 else 0
  {
    var (w', status) := w.Schedule(frame, delay);
    if status == Scheduled {
      var release := w.ReleaseTick(delay);
      var k := w.SlotIndex(release);
      var entry := frame.(releaseTick := release);
      ContentsAfterUpdate(w.slots, k, w.slots[k] + [entry], a);
      CountPush(w.slots[k], entry, DelayedAddress, a);
    }
  }

  lemma {:induction false} ExpiredAndKept(slot: seq<DelayedFrame>, now: nat, a: nat)
    ensures Occurrences(Expired(slot, now), a) + Occurrences(Kept(slot, now), a) == Occurrences(slot, a)
    decreases |slot|
  {
    if slot == [] {
    } else {
      var n := |slot| - 1;
      ExpiredAndKept(slot[..n], now, a);
      CountPush(Expired(slot[..n], now), slot[n], DelayedAddress, a);
      CountPush(Kept(slot[..n], now), slot[n], DelayedAddress, a);
      assert Expired(slot[..n], now) + [] == Expired(slot[..n], now);
      assert Kept(slot[..n], now) + [] == Kept(slot[..n], now);
    }
  }

  /** A tick takes exactly what it returns out of the contents. */
  lemma TickTakes(w: WheelModel, a: nat)
    requires w.Bounded()
    ensures var (w', expired) := w.Tick();
            Contents(w'.slots, a) + Occurrences(expired, a) == Contents(w.slots, a)
  {
    var k := w.SlotIndex(w.now + 1);
    ContentsAfterUpdate(w.slots, k, Kept(w.slots[k], w.now + 1), a);
    ExpiredAndKept(w.slots[k], w.now + 1, a);
  }

  // ---------------------------------------------------------------------------------------
  // Who is in the wheel
  // ---------------------------------------------------------------------------------------

  lemma {:induction false} OccursOnce(frames: seq<DelayedFrame>, x: DelayedFrame)
    requires x in frames
    ensures Occurrences(frames, x.address) >= 1
    decreases |frames|
  {
    var n := |frames| - 1;
    if x == frames[n] {
    } else {
      OccursOnce(frames[..n], x);
    }
  }

  lemma {:induction false} OccursTwice(frames: seq<DelayedFrame>, x: DelayedFrame, y: DelayedFrame)
    requires x in frames && y in frames && x != y && x.address == y.address
    ensures Occurrences(frames, x.address) >= 2
    decreases |frames|
  {
    var n := |frames| - 1;
    if x == frames[n] {
      OccursOnce(frames[..n], y);
    } else if y == frames[n] {
      OccursOnce(frames[..n], x);
    } else {
      OccursTwice(frames[..n], x, y);
    }
  }

  /** Two different frames with one address make two. */
  lemma ContentsOfTwo(slots: seq<seq<DelayedFrame>>, i: nat, x: DelayedFrame, j: nat, y: DelayedFrame)
    requires i < |slots| && j < |slots| && x in slots[i] && y in slots[j] && x != y && x.address == y.address
    ensures Contents(slots, x.address) >= 2
  {
    var a := x.address;
    ContentsAfterUpdate(slots, i, [], a);
    if i == j {
      OccursTwice(slots[i], x, y);
    } else {
      OccursOnce(slots[i], x);
      OccursOnce(slots[j], y);
      ContentsAfterUpdate(slots[i := []], j, [], a);
    }
  }

  /** An accepted frame that is not yet due sits in its slot. */
  lemma {:induction false} PendingInSlot(accepted: seq<Accepted>, now: nat, n: nat, e: Accepted)
    requires 0 < n && e in accepted && now < e.Due()
    ensures e.Entry() in DueInSlot(accepted, now, e.Due() % n, n)
    decreases |accepted|
  {
    var last := |accepted| - 1;
    if e == accepted[last] {
    } else {
      PendingInSlot(accepted[..last], now, n, e);
    }
  }

  lemma {:induction false} ExpiredFrom(slot: seq<DelayedFrame>, now: nat, x: DelayedFrame)
    requires x in Expired(slot, now)
    ensures x in slot
    decreases |slot|
  {
    if slot == [] {
    } else if x in Expired(slot[..|slot| - 1], now) {
      ExpiredFrom(slot[..|slot| - 1], now, x);
    }
  }

  /** A frame in a slot, and the frame a tick returns, under one address are one frame or two. */
  lemma ReleasedOrTwo(t: Trace, e: Accepted, f: DelayedFrame)
    requires Refines(t) && e in t.accepted && t.wheel.now < e.Due()
    requires f in t.wheel.Tick().1 && f.address == e.frame.address && Contents(t.wheel.slots, f.address) <= 1
    ensures f == e.Entry()
  {
    var w := t.wheel;
    var i, j := e.Due() % |w.slots|, w.SlotIndex(w.now + 1);
    PendingInSlot(t.accepted, w.now, |w.slots|, e);
    ExpiredFrom(w.slots[j], w.now + 1, f);
    if f != e.Entry() {
      ContentsOfTwo(w.slots, i, e.Entry(), j, f);
    }
  }
}
