/** The socket: fill and TX rings carry frames to the kernel, RX and completion rings back. */
module XskSocket {
  import opened Machine
  import opened SocketRings

  datatype Descriptor = Descriptor(address: nat, length: U32, options: U32)

  datatype SocketStatus = Ok | RingFull | RingEmpty

  datatype SocketModel = SocketModel(
    fill: RingModel<nat>,
    completion: RingModel<nat>,
    rx: RingModel<Descriptor>,
    tx: RingModel<Descriptor>,
    kicks: nat)
  {
    ghost predicate Bounded() {
      fill.Bounded() && completion.Bounded() && rx.Bounded() && tx.Bounded()
    }
  }

  class SimulatedXskSocket {
    const fill: SimulatedRing<nat>
    const completion: SimulatedRing<nat>
    const rx: SimulatedRing<Descriptor>
    const tx: SimulatedRing<Descriptor>
    var kicks: nat

    ghost function Repr(): set<object> {
      {this, fill, completion, rx, tx, fill.buffer, completion.buffer, rx.buffer, tx.buffer}
    }

    ghost predicate Valid()
      reads Repr()
    {
      && fill != completion && rx != tx
      && fill.buffer != completion.buffer && rx.buffer != tx.buffer
      && fill.Valid() && completion.Valid() && rx.Valid() && tx.Valid()
    }

    ghost function Model(): (m: SocketModel)
      requires Valid()
      reads Repr()
      ensures m.Bounded()
    {
      SocketModel(fill.Model(), completion.Model(), rx.Model(), tx.Model(), kicks)
    }

    /** Ring sizes are powers of two, given by their exponents. */
    constructor (fillSize: nat, completionSize: nat, rxSize: nat, txSize: nat)
      requires fillSize < 64 && completionSize < 64 && rxSize < 64 && txSize < 64
      ensures Valid() && fresh(Repr())
      ensures Model() == SocketModel(RingModel(Pow2(fillSize), []), RingModel(Pow2(completionSize), []),
                                     RingModel(Pow2(rxSize), []), RingModel(Pow2(txSize), []), 0)
    {
      fill := new SimulatedRing<nat>(fillSize);
      completion := new SimulatedRing<nat>(completionSize);
      rx := new SimulatedRing<Descriptor>(rxSize);
      tx := new SimulatedRing<Descriptor>(txSize);
      kicks := 0;
    }

    method Refill(addresses: seq<nat>) returns (count: nat, status: SocketStatus)
      requires Valid()
      modifies fill, fill.buffer
      ensures Valid()
      ensures Model() == old(Model()).(fill := old(Model()).fill.Produce(addresses))
      ensures count == old(Model()).fill.Room(|addresses|)
      ensures status == if count == |addresses| then Ok else RingFull
    {
      ghost var before := Model();
      count := fill.Produce(addresses);
      assert completion.Model() == before.completion && rx.Model() == before.rx && tx.Model() == before.tx;
      status := if count == |addresses| then Ok else RingFull;
    }

    method DrainCompletions(limit: nat) returns (output: seq<nat>, status: SocketStatus)
      requires Valid()
      modifies completion
      ensures Valid()
      ensures Model() == old(Model()).(completion := old(Model()).completion.Consume(limit).0)
      ensures output == old(Model()).completion.Consume(limit).1
      ensures status == if |output| == limit then Ok else RingEmpty
    {
      ghost var before := Model();
      output := completion.Consume(limit);
      assert fill.Model() == before.fill && rx.Model() == before.rx && tx.Model() == before.tx;
      status := if |output| == limit then Ok else RingEmpty;
    }

    method ConsumeRx(limit: nat) returns (output: seq<Descriptor>, status: SocketStatus)
      requires Valid()
      modifies rx
      ensures Valid()
      ensures Model() == old(Model()).(rx := old(Model()).rx.Consume(limit).0)
      ensures output == old(Model()).rx.Consume(limit).1
      ensures status == if |output| == limit then Ok else RingEmpty
    {
      ghost var before := Model();
      output := rx.Consume(limit);
      assert fill.Model() == before.fill && completion.Model() == before.completion && tx.Model() == before.tx;
      status := if |output| == limit then Ok else RingEmpty;
    }

    method SubmitTx(descriptors: seq<Descriptor>) returns (count: nat, status: SocketStatus)
      requires Valid()
      modifies tx, tx.buffer
      ensures Valid()
      ensures Model() == old(Model()).(tx := old(Model()).tx.Produce(descriptors))
      ensures count == old(Model()).tx.Room(|descriptors|)
      ensures status == if count == |descriptors| then Ok else RingFull
    {
      ghost var before := Model();
      count := tx.Produce(descriptors);
      assert fill.Model() == before.fill && completion.Model() == before.completion && rx.Model() == before.rx;
      status := if count == |descriptors| then Ok else RingFull;
    }

    method KickTx() returns (status: SocketStatus)
      requires Valid()
      modifies this
      ensures Valid() && status == Ok
      ensures Model() == old(Model()).(kicks := old(kicks) + 1)
    {
      kicks := kicks + 1;
      status := Ok;
    }
  }
}
