/** The wheel object: a fixed table of slots with their counts, and the expired list that
    `tick` fills. */
module TimingWheelObject {
  import opened TimingWheels

  class TimingWheel {
    const frames: array2<DelayedFrame>
    const counts: array<nat>
    const expired: array<DelayedFrame>
    var now: nat
    var expiredCount: nat
    var pending: nat
    var failures: nat

    ghost function Repr(): set<object> {
      {this, frames, counts, expired}
    }

    ghost predicate InBounds()
      reads counts
    {
      && frames.Length0 == counts.Length
      && frames.Length1 == expired.Length
      && forall k :: 0 <= k < counts.Length ==> counts[k] <= frames.Length1
    }

    ghost function SlotContents(k: nat): (s: seq<DelayedFrame>)
      requires InBounds() && k < counts.Length
      reads counts, frames
      ensures |s| == counts[k] && forall i :: 0 <= i < |s| ==> s[i] == frames[k, i]
    {
      seq(counts[k], i requires 0 <= i < counts[k] && InBounds() reads frames, counts => frames[k, i])
    }

    ghost function Slots(): (r: seq<seq<DelayedFrame>>)
      requires InBounds()
      reads counts, frames
      ensures |r| == counts.Length
      ensures forall k :: 0 <= k < |r| ==> r[k] == SlotContents(k)
    {
      seq(counts.Length, k requires 0 <= k < counts.Length && InBounds() reads counts, frames => SlotContents(k))
    }

    ghost function Model(): (w: WheelModel)
      requires InBounds()
      reads this, counts, frames
    {
      WheelModel(frames.Length1, now, Slots(), pending, failures)
    }

    ghost predicate Valid()
      reads this, counts, frames
    {
      InBounds() && Model().Bounded()
    }

    constructor (slotCount: nat, maxPerSlot: nat)
      requires 0 < slotCount
      ensures Valid() && fresh(Repr())
      ensures Model() == FreshWheel(slotCount, maxPerSlot)
    {
      frames := new DelayedFrame[slotCount, maxPerSlot]((_, _) => DelayedFrame(0, 0, 0, 0));
      counts := new nat[slotCount](_ => 0);
      expired := new DelayedFrame[maxPerSlot](_ => DelayedFrame(0, 0, 0, 0));
      now, expiredCount, pending, failures := 0, 0, 0, 0;
      new;
      assert Model().slots == FreshWheel(slotCount, maxPerSlot).slots;
    }

    method Schedule(frame: DelayedFrame, delay: nat) returns (status: ScheduleStatus)
      requires Valid()
      modifies this, frames, counts
      ensures Valid()
      ensures (Model(), status) == old(Model()).Schedule(frame, delay)
    {
      ghost var before := Model();
      if delay > counts.Length {
        failures := failures + 1;
        return DelayTooLarge;
      }
      var release := now + if delay == 0 then 1 else delay;
      var k := release % counts.Length;
      if counts[k] >= frames.Length1 {
        failures := failures + 1;
        return SlotFull;
      }
      Append(k, frame.(releaseTick := release));
      pending := pending + 1;
      status := Scheduled;
      ScheduleIs(before, Model(), frame, delay);
    }

    method Append(k: nat, frame: DelayedFrame)
      requires InBounds() && k < counts.Length && counts[k] < frames.Length1
      modifies frames, counts
      ensures InBounds()
      ensures Slots() == old(Slots())[k := old(SlotContents(k)) + [frame]]
    {
      frames[k, counts[k]] := frame;
      counts[k] := counts[k] + 1;
      assert SlotContents(k) == old(SlotContents(k)) + [frame];
      assert forall j :: 0 <= j < counts.Length && j != k ==> SlotContents(j) == old(SlotContents(j));
    }

    method Tick() returns (released: seq<DelayedFrame>)
      requires Valid()
      modifies this, frames, counts, expired
      ensures Valid()
      ensures (Model(), released) == old(Model()).Tick()
    {
      ghost var before := Model();
      now := now + 1;
      expiredCount := 0;
      var k := now % counts.Length;
      SumAtLeastSlot(before.slots, k);
      TickSlot(k);
      released := expired[..expiredCount];
      TickIs(before, Model(), released);
    }

    /** What a tick does to the slot it visits, and to no other. */
    method TickSlot(k: nat)
      requires InBounds() && k < counts.Length && expiredCount == 0 && counts[k] <= pending
      modifies this`expiredCount, this`pending, frames, counts, expired
      ensures InBounds() && expiredCount <= expired.Length
      ensures expired[..expiredCount] == Expired(old(SlotContents(k)), now)
      ensures pending == old(pending) - expiredCount
      ensures Slots() == old(Slots())[k := Kept(old(SlotContents(k)), now)]
    {
      var kept := ExpireSlot(k);
      counts[k] := kept;
      assert SlotContents(k) == Kept(old(SlotContents(k)), now);
      assert forall j :: 0 <= j < counts.Length && j != k ==> SlotContents(j) == old(SlotContents(j));
    }

    method Keep(k: nat, position: nat, frame: DelayedFrame)
      requires k < frames.Length0 && position < frames.Length1
      modifies frames
      ensures frames[k, position] == frame
      ensures forall j, i :: 0 <= j < frames.Length0 && 0 <= i < frames.Length1 && (j != k || i != position) ==>
                frames[j, i] == old(frames[j, i])
    {
      frames[k, position] := frame;
    }

    method Expire(frame: DelayedFrame)
      requires expiredCount < expired.Length && 0 < pending
      modifies this`expiredCount, this`pending, expired
      ensures expiredCount == old(expiredCount) + 1 <= expired.Length && pending == old(pending) - 1
      ensures expired[..expiredCount] == old(expired[..expiredCount]) + [frame]
    {
      expired[expiredCount] := frame;
      expiredCount := expiredCount + 1;
      pending := pending - 1;
    }

    /** The first `index` frames of the slot have been sorted out: what is due is in the expired
        list, the rest is at the front of the slot, and what comes after is as it was. */
    ghost predicate Compacting(k: nat, index: nat, kept: nat, slot: seq<DelayedFrame>)
      requires InBounds() && k < counts.Length && index <= |slot| == counts[k] && expiredCount <= expired.Length
      reads this, frames, counts, expired
    {
      var gone, stay := Expired(slot[..index], now), Kept(slot[..index], now);
      && |stay| == kept && |gone| == expiredCount && expired[..expiredCount] == gone
      && (forall i :: 0 <= i < kept ==> frames[k, i] == stay[i])
      && (forall i :: index <= i < |slot| ==> frames[k, i] == slot[i])
    }

    /** One pass of the loop of `tick`. */
    method CompactOne(k: nat, index: nat, kept: nat, ghost slot: seq<DelayedFrame>) returns (kept': nat)
      requires InBounds() && k < counts.Length && index < |slot| == counts[k] && expiredCount <= expired.Length
      requires Compacting(k, index, kept, slot) && 0 < pending
      modifies this`expiredCount, this`pending, frames, expired
      ensures InBounds() && expiredCount <= expired.Length && Compacting(k, index + 1, kept', slot)
      ensures pending + expiredCount == old(pending) + old(expiredCount)
      ensures forall j, i :: 0 <= j < counts.Length && j != k && 0 <= i < frames.Length1 ==>
                frames[j, i] == old(frames[j, i])
    {
      var frame := frames[k, index];
      ExpireOneMore(slot, index, now);
      if frame.releaseTick <= now {
        Expire(frame);
        return kept;
      }
      Keep(k, kept, frame);
      return kept + 1;
    }

    /** The loop of `tick`: move what is due to the expired list and close the gaps in place. */
    method ExpireSlot(k: nat) returns (kept: nat)
      requires InBounds() && k < counts.Length && expiredCount == 0 && counts[k] <= pending
      modifies this`expiredCount, this`pending, frames, expired
      ensures InBounds() && expiredCount <= expired.Length
      ensures expired[..expiredCount] == Expired(old(SlotContents(k)), now)
      ensures pending == old(pending) - expiredCount
      ensures kept == |Kept(old(SlotContents(k)), now)|
      ensures forall i :: 0 <= i < kept ==> frames[k, i] == Kept(old(SlotContents(k)), now)[i]
      ensures forall j, i :: 0 <= j < counts.Length && j != k && 0 <= i < frames.Length1 ==>
                frames[j, i] == old(frames[j, i])
    {
      kept := 0;
      ghost var slot := SlotContents(k);
      for index := 0 to counts[k]
        invariant InBounds() && expiredCount <= expired.Length && expiredCount <= index
        invariant Compacting(k, index, kept, slot)
        invariant forall j, i :: 0 <= j < counts.Length && j != k && 0 <= i < frames.Length1 ==>
                    frames[j, i] == old(frames[j, i])
        invariant pending + expiredCount == old(pending)
      {
        kept := CompactOne(k, index, kept, slot);
      }
      assert slot[..|slot|] == slot;
    }
  }

  /** A model that matches a tick field by field is the tick's outcome. */
  lemma TickIs(before: WheelModel, after: WheelModel, released: seq<DelayedFrame>)
    requires before.Bounded()
    requires var k := before.SlotIndex(before.now + 1);
             && released == Expired(before.slots[k], before.now + 1)
             && after.slots == before.slots[k := Kept(before.slots[k], before.now + 1)]
    requires after.pending == before.pending - |released|
    requires after == before.(now := before.now + 1, slots := after.slots, pending := after.pending)
    ensures (after, released) == before.Tick() && after.Bounded()
  {
    StepsKeepBounded(before, DelayedFrame(0, 0, 0, 0), 0);
  }

  lemma ScheduleIs(before: WheelModel, after: WheelModel, frame: DelayedFrame, delay: nat)
    requires before.Bounded() && delay <= |before.slots|
    requires var release := before.ReleaseTick(delay);
             var k := before.SlotIndex(release);
             && |before.slots[k]| < before.maxPerSlot
             && after == before.(slots := before.slots[k := before.slots[k] + [frame.(releaseTick := release)]],
                                 pending := before.pending + 1)
    ensures (after, Scheduled) == before.Schedule(frame, delay) && after.Bounded()
  {
    StepsKeepBounded(before, frame, delay);
  }

  lemma ExpireOneMore(slot: seq<DelayedFrame>, index: nat, now: nat)
    requires index < |slot|
    ensures slot[index].releaseTick <= now ==>
              && Expired(slot[..index + 1], now) == Expired(slot[..index], now) + [slot[index]]
              && Kept(slot[..index + 1], now) == Kept(slot[..index], now)
    ensures slot[index].releaseTick > now ==>
              && Expired(slot[..index + 1], now) == Expired(slot[..index], now)
              && Kept(slot[..index + 1], now) == Kept(slot[..index], now) + [slot[index]]
  {
    assert slot[..index + 1][..index] == slot[..index];
  }
}
