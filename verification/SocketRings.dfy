/** The four AF_XDP rings. `SimulatedRing` is the ring buffer over free-running 64-bit
    counters; `SimulatedXskSocket` is the socket made of four of them. */
module SocketRings {
  import opened Machine

  /** A bounded FIFO: what a ring is to its two ends. */
  datatype RingModel<T> = RingModel(capacity: nat, items: seq<T>)
  {
    ghost predicate Bounded() { |items| <= capacity }

    /** How many of `n` offered items are taken. */
    function Room(n: nat): (r: nat)
      requires |items| <= capacity
      ensures r <= n
    {
      Min(n, capacity - |items|)
    }

    function Produce(offered: seq<T>): (r: RingModel<T>)
      requires |items| <= capacity
      ensures r.Bounded()
    {
      this.(items := items + offered[..Room(|offered|)])
    }

    function Consume(limit: nat): (r: (RingModel<T>, seq<T>))
      ensures r.1 + r.0.items == items && |r.1| == Min(limit, |items|)
    {
      var n := Min(limit, |items|);
      (this.(items := items[n..]), items[..n])
    }
  }

  class SimulatedRing<T(0)> {
    const buffer: array<T>
    var producer: U64
    var consumer: U64

    /** `producer_ - consumer_` in 64-bit arithmetic. */
    function Pending(): (n: nat)
      reads this
    {
      (producer - consumer) % POW64
    }

    /** The slot the mask picks for a counter value: for a power-of-two capacity, masking is
        the remainder. */
    function Slot(counter: nat): (k: nat)
      requires 0 < buffer.Length
      ensures k < buffer.Length
    {
      counter % buffer.Length
    }

    /** The slot of the pending item at distance `i` from the consumer. */
    function SlotAt(i: nat): (k: nat)
      requires 0 < buffer.Length
      reads this
      ensures k < buffer.Length
    {
      Slot(consumer + i)
    }

    ghost predicate Valid()
      reads this
    {
      && 0 < buffer.Length
      && POW64 % buffer.Length == 0
      && 2 * buffer.Length <= POW64
      && Pending() <= buffer.Length
    }

    ghost function Model(): (m: RingModel<T>)
      requires Valid()
      reads this, buffer
      ensures m.Bounded()
    {
      RingModel(buffer.Length,
                seq(Pending(), i requires 0 <= i < Pending() reads this, buffer => buffer[SlotAt(i)]))
    }

    constructor (exponent: nat)
      requires exponent < 64
      ensures Valid() && fresh(buffer)
      ensures Model() == RingModel(Pow2(exponent), [])
    {
      Pow2DividesPow64(exponent);
      buffer := new T[Pow2(exponent)];
      producer, consumer := 0, 0;
    }

    /** Where the next item goes is a slot no pending item occupies, wrap-around included. */
    lemma NextSlotIsFree(i: nat)
      requires Valid() && Pending() < buffer.Length
      requires i < Pending()
      ensures Slot(producer) != SlotAt(i)
    {
      var n := Pending();
      NextSlot();
      if Slot(producer) == SlotAt(i) {
        ModInjective(consumer + n, consumer + i, buffer.Length);
      }
    }

    lemma NextSlot()
      requires Valid()
      ensures producer == (consumer + Pending()) % POW64
      ensures Slot(producer) == SlotAt(Pending())
    {
      ProducerIs(producer, consumer);
      ProducerSlot(producer, consumer, Pending(), buffer.Length);
    }

    method Produce(items: seq<T>) returns (produced: nat)
      requires Valid()
      modifies this`producer, buffer
      ensures Valid()
      ensures produced == old(Model()).Room(|items|)
      ensures Model() == old(Model()).Produce(items)
    {
      produced := 0;
      ghost var start := Model();
      while produced < |items| && Pending() < buffer.Length
        invariant Valid() && produced <= |items|
        invariant Model() == start.(items := start.items + items[..produced])
      {
        ProduceOne(items[produced]);
        assert items[..produced + 1] == items[..produced] + [items[produced]];
        produced := produced + 1;
      }
    }

    method ProduceOne(item: T)
      requires Valid() && Pending() < buffer.Length
      modifies this`producer, buffer
      ensures Valid()
      ensures Model() == old(Model()).(items := old(Model()).items + [item])
    {
      ghost var before := Model();
      ghost var n := Pending();
      NextSlot();
      forall i: nat | i < n
        ensures Slot(producer) != SlotAt(i)
      {
        NextSlotIsFree(i);
      }
      buffer[Slot(producer)] := item;
      PendingAfterProduce(producer, consumer);
      producer := (producer + 1) % POW64;
      assert Model().items == before.items + [item];
    }

    method Consume(limit: nat) returns (output: seq<T>)
      requires Valid()
      modifies this`consumer
      ensures Valid()
      ensures (Model(), output) == old(Model()).Consume(limit)
    {
      output := [];
      ghost var start := Model();
      while |output| < limit && 0 < Pending()
        invariant Valid() && |output| <= limit
        invariant Model().capacity == start.capacity && start.items == output + Model().items
        decreases Pending()
      {
        var item := TakeOne();
        output := output + [item];
      }
      AllTaken(start, output, Model().items, limit);
    }

    method TakeOne() returns (item: T)
      requires Valid() && 0 < Pending()
      modifies this`consumer
      ensures Valid() && Pending() == old(Pending()) - 1
      ensures Model().capacity == old(Model().capacity)
      ensures old(Model().items) == [item] + Model().items
    {
      item := buffer[Slot(consumer)];
      ghost var before := Model();
      ghost var first := consumer;
      PendingAfterConsume(producer, consumer);
      consumer := (consumer + 1) % POW64;
      forall i: nat | i < Pending()
        ensures SlotAt(i) == old(SlotAt(i + 1))
      {
        SlotAfter(first, consumer, i, buffer.Length);
      }
      assert Model().items == before.items[1..];
    }
  }

  lemma AllTaken<T>(start: RingModel<T>, output: seq<T>, rest: seq<T>, limit: nat)
    requires start.items == output + rest && |output| <= limit && (|output| == limit || rest == [])
    ensures start.Consume(limit) == (start.(items := rest), output)
  {
    assert start.items[..|output|] == output && start.items[|output|..] == rest;
  }

  lemma ProducerIs(producer: U64, consumer: U64)
    ensures producer == (consumer + (producer - consumer) % POW64) % POW64
  {
  }

  lemma ProducerSlot(producer: U64, consumer: U64, pending: nat, length: nat)
    requires 0 < length && POW64 % length == 0 && producer == (consumer + pending) % POW64
    ensures producer % length == (consumer + pending) % length
  {
    ModOfMod(consumer + pending, POW64, length);
  }

  lemma SlotAfter(first: nat, consumer: U64, i: nat, length: nat)
    requires 0 < length && POW64 % length == 0 && consumer == (first + 1) % POW64
    ensures (consumer + i) % length == (first + (i + 1)) % length
  {
    ModOfMod(first + 1, POW64, length);
    ModAdd(first + 1, i, length);
    ModAdd(consumer, i, length);
  }

  lemma PendingAfterProduce(producer: U64, consumer: U64)
    requires (producer - consumer) % POW64 < POW64 - 1
    ensures ((producer + 1) % POW64 - consumer) % POW64 == (producer - consumer) % POW64 + 1
  {
  }

  lemma PendingAfterConsume(producer: U64, consumer: U64)
    requires producer != consumer
    ensures (producer - (consumer + 1) % POW64) % POW64 == (producer - consumer) % POW64 - 1
  {
  }
}
