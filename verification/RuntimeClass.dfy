/** The adapter object: the pool, the socket and the wheel objects, UMEM and a flag. Each
    method is proved to do what the function of the same name in `Runtime` says. */
module RuntimeObject {
  import opened Machine
  import opened FrameAllocation
  import opened FrameAllocatorObject
  import opened SocketRings
  import Xsk = XskSocket
  import opened TimingWheels
  import opened TimingWheelObject
  import opened ChaosEngine
  import DP = DataPlane
  import opened DataPlaneMethods
  import opened Runtime

  class AfXdpRuntimeAdapter {
    const umem: array<Byte>
    const allocator: FrameAllocator
    const socket: Xsk.SimulatedXskSocket
    const wheel: TimingWheel
    var initialized: bool

    ghost function Repr(): set<object> {
      {this, umem} + allocator.Repr() + socket.Repr() + wheel.Repr()
    }

    ghost predicate Apart() {
      && this !in allocator.Repr() + socket.Repr() + wheel.Repr()
      && umem !in allocator.Repr() + socket.Repr() + wheel.Repr()
      && allocator.Repr() !! socket.Repr() && allocator.Repr() !! wheel.Repr() && socket.Repr() !! wheel.Repr()
    }

    ghost predicate Valid()
      reads Repr()
    {
      Apart() && allocator.Valid() && socket.Valid() && wheel.Valid()
    }

    ghost function Model(): (a: Adapter)
      requires Valid()
      reads Repr()
      ensures a.Bounded()
    {
      Adapter(allocator.Model(), socket.Model(), wheel.Model(), umem[..], initialized)
    }

    /** The object and the counters stand for the poll in progress `p`. */
    ghost predicate At(p: Poll, stats: PollStats)
      reads Repr()
    {
      Valid() && Model() == p.rt && stats == p.stats
    }

    /** An adapter over its parts; `NewAdapter` makes the parts. */
    constructor (memory: array<Byte>, pool: FrameAllocator, rings: Xsk.SimulatedXskSocket, slots: TimingWheel)
      requires pool.Valid() && rings.Valid() && slots.Valid()
      requires memory !in pool.Repr() && memory !in rings.Repr() && memory !in slots.Repr()
      requires pool.Repr() !! rings.Repr() && pool.Repr() !! slots.Repr() && rings.Repr() !! slots.Repr()
      ensures Valid() && !initialized
      ensures umem == memory && allocator == pool && socket == rings && wheel == slots
    {
      umem, allocator, socket, wheel, initialized := memory, pool, rings, slots, false;
      new;
      assert this !in pool.Repr() && this !in rings.Repr() && this !in slots.Repr();
    }

    // One call on one part each, stated on the model of the whole.

    method HandleFromAddress(address: nat) returns (handle: Allocation)
      requires Valid()
      ensures handle == Model().pool.HandleFromAddress(address)
    {
      handle := allocator.HandleFromAddress(address);
    }

    method OwnerOf(index: nat) returns (owner: FrameOwner)
      requires Valid()
      ensures owner == Model().pool.OwnerOf(index)
    {
      owner := allocator.OwnerOf(index);
    }

    method Allocate(owner: FrameOwner) returns (allocation: Allocation)
      requires Valid()
      modifies allocator.Repr()
      ensures Valid()
      ensures var (pool, got) := old(Model()).pool.Allocate(owner);
              allocation == got && Model() == old(Model()).(pool := pool)
    {
      allocation := allocator.Allocate(owner);
    }

    method Transition(frame: FrameHandle, expected: FrameOwner, next: FrameOwner) returns (status: FrameStatus)
      requires Valid()
      modifies allocator.Repr()
      ensures Valid()
      ensures var (pool, s) := old(Model()).pool.Transition(frame, expected, next);
              status == s && Model() == old(Model()).(pool := pool)
    {
      status := allocator.Transition(frame, expected, next);
    }

    /** Look a frame up by address and re-own it, whoever owns it now. */
    method Claim(address: nat, next: FrameOwner) returns (handle: Allocation, owner: FrameOwner, status: FrameStatus)
      requires Valid()
      modifies allocator.Repr()
      ensures Valid()
      ensures handle == old(Model()).pool.HandleFromAddress(address)
      ensures owner == old(Model()).pool.OwnerOf(handle.frame.index)
      ensures if handle.status != FrameStatus.Ok then status == handle.status && Model() == old(Model())
              else (Model(), status) == (var (pool, s) := old(Model()).pool.Transition(handle.frame, owner, next);
                                         (old(Model()).(pool := pool), s))
    {
      handle := HandleFromAddress(address);
      owner := OwnerOf(handle.frame.index);
      status := handle.status;
      if handle.status == FrameStatus.Ok {
        status := Transition(handle.frame, owner, next);
      }
    }

    method PostFill(address: nat) returns (count: nat)
      requires Valid()
      modifies socket.Repr()
      ensures Valid() && count == old(Model()).socket.fill.Room(1)
      ensures Model() == old(Model()).(socket := old(Model()).socket.(fill := old(Model()).socket.fill.Produce([address])))
    {
      var status;
      count, status := socket.Refill([address]);
    }

    /** Offer one descriptor to the TX ring, and kick if it was taken. */
    method PostTx(d: Xsk.Descriptor) returns (count: nat)
      requires Valid()
      modifies socket.Repr()
      ensures Valid() && count == old(Model()).socket.tx.Room(1)
      ensures var s := old(Model()).socket;
              Model() == old(Model()).(socket := if count == 1 then s.(tx := s.tx.Produce([d]), kicks := s.kicks + 1) else s)
    {
      ghost var before := Model();
      RingFullUnchanged(before.socket.tx, d);
      var status;
      count, status := socket.SubmitTx([d]);
      if count == 1 {
        status := socket.KickTx();
      }
      assert allocator.Model() == before.pool && wheel.Model() == before.wheel;
    }

    method TakeCompletions() returns (completed: seq<nat>)
      requires Valid()
      modifies socket.Repr()
      ensures Valid()
      ensures var (ring, taken) := old(Model()).socket.completion.Consume(DP.BATCH_SIZE);
              completed == taken && Model() == old(Model()).(socket := old(Model()).socket.(completion := ring))
    {
      var status;
      completed, status := socket.DrainCompletions(DP.BATCH_SIZE);
    }

    method TakeRx() returns (rx: seq<Xsk.Descriptor>)
      requires Valid()
      modifies socket.Repr()
      ensures Valid()
      ensures var (ring, taken) := old(Model()).socket.rx.Consume(DP.BATCH_SIZE);
              rx == taken && Model() == old(Model()).(socket := old(Model()).socket.(rx := ring))
    {
      var status;
      rx, status := socket.ConsumeRx(DP.BATCH_SIZE);
    }

    method TickWheel() returns (expired: seq<DelayedFrame>)
      requires Valid()
      modifies wheel.Repr()
      ensures Valid()
      ensures var (w, e) := old(Model()).wheel.Tick(); expired == e && Model() == old(Model()).(wheel := w)
    {
      expired := wheel.Tick();
    }

    // The adapter's own methods.

    /** One pass of the posting loop: `status` is Ok when the loop goes on. */
    method PostOne(ghost remaining: nat, ghost all: (Adapter, RuntimeStatus)) returns (status: RuntimeStatus)
      requires Valid() && 0 < remaining && all == InitLoop(Model(), remaining)
      modifies allocator.Repr(), socket.Repr()
      ensures Valid()
      ensures status == RuntimeStatus.Ok ==> all == InitLoop(Model(), remaining - 1)
      ensures status != RuntimeStatus.Ok ==> all == (Model(), status)
    {
      ghost var before := Model();
      var allocation := Allocate(FillRing);
      if allocation.status != FrameStatus.Ok {
        return FrameAllocationFailed;
      }
      RingFullUnchanged(before.socket.fill, allocation.frame.address);
      var count := PostFill(allocation.frame.address);
      if count != 1 {
        var _ := Transition(allocation.frame, FillRing, Free);
        return RingFull;
      }
      return RuntimeStatus.Ok;
    }

    method PostAll(target: nat) returns (status: RuntimeStatus)
      requires Valid()
      modifies allocator.Repr(), socket.Repr()
      ensures Valid()
      ensures status == RuntimeStatus.Ok ==> InitLoop(old(Model()), target) == (Model().(initialized := true), status)
      ensures status != RuntimeStatus.Ok ==> InitLoop(old(Model()), target) == (Model(), status)
    {
      ghost var all, remaining := InitLoop(Model(), target), target;
      for index := 0 to target
        invariant Valid() && remaining == target - index
        invariant all == InitLoop(Model(), remaining)
      {
        status := PostOne(remaining, all);
        remaining := remaining - 1;
        if status != RuntimeStatus.Ok {
          return;
        }
      }
      NothingLeftToPost(Model());
      return RuntimeStatus.Ok;
    }

    method Init(initialFillFrames: nat) returns (status: RuntimeStatus)
      requires Valid()
      modifies Repr()
      ensures Valid()
      ensures (Model(), status) == Runtime.Init(old(Model()), initialFillFrames)
    {
      if initialized {
        return AlreadyInitialized;
      }
      var frames := allocator.owners.Length;
      status := PostAll(if initialFillFrames < frames then initialFillFrames else frames);
      if status == RuntimeStatus.Ok {
        SetInitialized();
      }
    }

    method SetInitialized()
      requires Valid()
      modifies this
      ensures Valid() && Model() == old(Model()).(initialized := true)
    {
      initialized := true;
    }

    method RefillOne(frame: FrameHandle, expected: FrameOwner, stats: PollStats, ghost p: Poll)
      returns (r: PollStats, ghost q: Poll)
      requires At(p, stats)
      modifies allocator.Repr(), socket.Repr()
      ensures At(q, r) && q == p.RefillOne(frame, expected)
    {
      q := p.RefillOne(frame, expected);
      var status := Transition(frame, expected, FillRing);
      if status != FrameStatus.Ok {
        return stats.(ownerFailures := stats.ownerFailures + 1), q;
      }
      RingFullUnchanged(p.rt.socket.fill, frame.address);
      var count := PostFill(frame.address);
      if count == 1 {
        return stats.(fillRefilled := stats.fillRefilled + 1), q;
      }
      r := stats.(fillFailures := stats.fillFailures + 1);
      var _ := Transition(frame, FillRing, expected);
    }

    method RefillAddress(address: nat, expected: FrameOwner, stats: PollStats, ghost p: Poll)
      returns (r: PollStats, ghost q: Poll)
      requires At(p, stats)
      modifies allocator.Repr(), socket.Repr()
      ensures At(q, r) && q == p.RefillAddress(address, expected)
    {
      var handle := HandleFromAddress(address);
      if handle.status != FrameStatus.Ok {
        return stats.(ownerFailures := stats.ownerFailures + 1), p.OwnerFailure();
      }
      r, q := RefillOne(handle.frame, expected, stats, p);
    }

    method RefillAll(addresses: seq<nat>, expected: FrameOwner, stats: PollStats, ghost p: Poll)
      returns (r: PollStats, ghost q: Poll)
      requires At(p, stats)
      modifies allocator.Repr(), socket.Repr()
      ensures At(q, r) && q == p.RefillAll(addresses, expected)
    {
      ghost var all := p.RefillAll(addresses, expected);
      r, q := stats, p;
      for index := 0 to |addresses|
        invariant At(q, r) && q.RefillAll(addresses[index..], expected) == all
      {
        assert addresses[index..][0] == addresses[index] && addresses[index..][1..] == addresses[index + 1..];
        r, q := RefillAddress(addresses[index], expected, r, q);
      }
    }

    method SubmitOne(address: nat, length: U32, stats: PollStats, ghost p: Poll) returns (r: PollStats, ghost q: Poll)
      requires At(p, stats)
      modifies allocator.Repr(), socket.Repr()
      ensures At(q, r) && q == p.SubmitOne(address, length)
    {
      q := p.SubmitOne(address, length);
      var handle, owner, status := Claim(address, TxRing);
      if status != FrameStatus.Ok {
        return stats.(ownerFailures := stats.ownerFailures + 1), q;
      }
      var count := PostTx(Xsk.Descriptor(address, length, 0));
      if count == 1 {
        return stats.(txSubmitted := stats.txSubmitted + 1), q;
      }
      r := stats.(fillFailures := stats.fillFailures + 1);
      var _ := Transition(handle.frame, TxRing, owner);
    }

    method SubmitAll(frames: seq<(nat, U32)>, stats: PollStats, ghost p: Poll) returns (r: PollStats, ghost q: Poll)
      requires At(p, stats)
      modifies allocator.Repr(), socket.Repr()
      ensures At(q, r) && q == p.SubmitAll(frames)
    {
      ghost var all := p.SubmitAll(frames);
      r, q := stats, p;
      for index := 0 to |frames|
        invariant At(q, r) && q.SubmitAll(frames[index..]) == all
      {
        assert frames[index..][0] == frames[index] && frames[index..][1..] == frames[index + 1..];
        r, q := SubmitOne(frames[index].0, frames[index].1, r, q);
      }
    }

    method DrainCompletions(stats: PollStats, ghost p: Poll) returns (r: PollStats, ghost q: Poll)
      requires At(p, stats)
      modifies allocator.Repr(), socket.Repr()
      ensures At(q, r) && q == p.DrainCompletions()
    {
      var completed;
      r, completed, q := StartDrain(stats, p);
      r, q := RefillAll(completed, TxRing, r, q);
    }

    method StartDrain(stats: PollStats, ghost p: Poll) returns (r: PollStats, completed: seq<nat>, ghost q: Poll)
      requires At(p, stats)
      modifies socket.Repr()
      ensures At(q, r) && (q, completed) == p.StartDrain()
    {
      completed := TakeCompletions();
      r := stats.(txCompleted := stats.txCompleted + |completed|);
      q := p.(rt := Model(), stats := r);
    }

    method ReleaseDelayed(stats: PollStats, ghost p: Poll) returns (r: PollStats, ghost q: Poll)
      requires At(p, stats)
      modifies allocator.Repr(), socket.Repr(), wheel.Repr()
      ensures At(q, r) && q == p.ReleaseDelayed()
    {
      var expired := TickWheel();
      r, q := SubmitAll(DelayedKeys(expired), stats, p.(rt := Model()));
    }

    method ReceiveOne(d: Xsk.Descriptor, stats: PollStats, ghost p: Poll)
      returns (r: PollStats, claimed: seq<DP.PacketDescriptor>, ghost q: Poll)
      requires At(p, stats)
      modifies allocator.Repr()
      ensures At(q, r) && (q, claimed) == p.ReceiveOne(d)
    {
      q := p.ReceiveOne(d).0;
      var handle, owner, status := Claim(d.address, DataPlane);
      if status != FrameStatus.Ok {
        return stats.(ownerFailures := stats.ownerFailures + 1), [], q;
      }
      return stats, [DP.PacketDescriptor(d.address, d.length, d.options)], q;
    }

    method ReceiveAll(rx: seq<Xsk.Descriptor>, stats: PollStats, ghost p: Poll)
      returns (r: PollStats, descriptors: seq<DP.PacketDescriptor>, ghost q: Poll)
      requires At(p, stats)
      modifies allocator.Repr()
      ensures At(q, r) && (q, descriptors) == p.ReceiveAll(rx)
    {
      r, q, descriptors := stats, p, [];
      ghost var all := p.ReceiveAll(rx);
      for index := 0 to |rx|
        invariant At(q, r)
        invariant Remaining(all, q, descriptors, rx[index..])
      {
        RemainingStep(all, q, descriptors, rx, index);
        var claimed;
        r, claimed, q := ReceiveOne(rx[index], r, q);
        descriptors := descriptors + claimed;
      }
      assert descriptors + [] == descriptors;
    }

    method Receive(stats: PollStats, ghost p: Poll)
      returns (r: PollStats, descriptors: seq<DP.PacketDescriptor>, ghost q: Poll)
      requires At(p, stats)
      modifies allocator.Repr(), socket.Repr()
      ensures At(q, r) && (q, descriptors) == p.Receive()
    {
      var rx := TakeRx();
      r := stats.(rxFrames := |rx|);
      r, descriptors, q := ReceiveAll(rx, r, p.(rt := Model(), stats := r));
    }

    /** The data plane over the adapter's UMEM and wheel. */
    method RunBatch(descriptors: seq<DP.PacketDescriptor>, rules: seq<ChaosRule>,
                    tx: array<DP.ProcessedFrame>, recycle: array<DP.ProcessedFrame>, ghost b: DP.Batch)
      returns (result: BatchResult)
      requires Apart() && wheel.Valid() && tx != recycle && {tx, recycle} !! Repr()
      requires tx.Length == recycle.Length == DP.BATCH_SIZE
      requires b == DP.ProcessBatch(umem[..], wheel.Model(), descriptors, PollConfig(rules))
      modifies umem, wheel.Repr(), tx, recycle
      ensures Represents(result, b, tx, recycle)
      ensures wheel.Valid() && wheel.Model() == b.wheel && umem[..] == b.umem
    {
      result := ProcessPacketBatch(umem, descriptors, rules, wheel, tx, recycle, DP.DEFAULT_TICK_NS);
    }

    /** While no object of the allocator or the socket changes, neither does what they stand for. */
    twostate lemma RingsKept()
      requires old(Valid()) && unchanged(allocator.Repr()) && unchanged(socket.Repr())
      ensures allocator.Valid() && allocator.Model() == old(allocator.Model())
      ensures socket.Valid() && socket.Model() == old(socket.Model())
    {
    }

    method RunOnModel(descriptors: seq<DP.PacketDescriptor>, rules: seq<ChaosRule>,
                      tx: array<DP.ProcessedFrame>, recycle: array<DP.ProcessedFrame>, ghost b: DP.Batch)
      returns (result: BatchResult)
      requires Valid() && tx != recycle && {tx, recycle} !! Repr() && tx.Length == recycle.Length == DP.BATCH_SIZE
      requires b == DP.ProcessBatch(umem[..], wheel.Model(), descriptors, PollConfig(rules))
      modifies umem, wheel.Repr(), tx, recycle
      ensures Represents(result, b, tx, recycle)
      ensures Valid() && Model() == old(Model()).(umem := b.umem, wheel := b.wheel)
    {
      result := RunBatch(descriptors, rules, tx, recycle, b);
      RingsKept();
    }

    method NewOutputs() returns (tx: array<DP.ProcessedFrame>, recycle: array<DP.ProcessedFrame>)
      ensures fresh(tx) && fresh(recycle) && tx != recycle && {tx, recycle} !! Repr()
      ensures tx.Length == recycle.Length == DP.BATCH_SIZE
    {
      tx := NewOutput();
      recycle := NewOutput();
    }

    method ProcessBatch(descriptors: seq<DP.PacketDescriptor>, rules: seq<ChaosRule>, ghost p: Poll)
      returns (stats: DP.BatchStats, tx: seq<DP.ProcessedFrame>, recycle: seq<DP.ProcessedFrame>)
      requires Valid() && Model() == p.rt
      modifies umem, wheel.Repr()
      ensures var b := p.Batch(rules, descriptors);
              stats == b.stats && tx == b.tx && recycle == b.recycle && Valid() && Model() == p.WithBatch(b).rt
    {
      var txOut, recycleOut := NewOutputs();
      assert Valid() && Model() == p.rt;
      var batch := RunOnModel(descriptors, rules, txOut, recycleOut, p.Batch(rules, descriptors));
      return batch.stats, txOut[..batch.txCount], recycleOut[..batch.recycleCount];
    }

    /** The second half of a poll: the data plane, then the frames it hands back. */
    method ProcessAndReturn(descriptors: seq<DP.PacketDescriptor>, rules: seq<ChaosRule>, stats: PollStats, ghost p: Poll)
      returns (r: PollStats, ghost q: Poll)
      requires At(p, stats)
      modifies Repr() - {this}
      ensures At(q, r) && q == AfterBatch(p, p.Batch(rules, descriptors))
    {
      var batch, tx, recycle := ProcessBatch(descriptors, rules, p);
      r := stats.(dataPlane := batch);
      q := p.WithBatch(p.Batch(rules, descriptors));
      r, q := SubmitAll(ProcessedKeys(tx), r, q);
      r, q := RefillAll(ProcessedAddresses(recycle), DataPlane, r, q);
    }

    method PollOnce(rules: seq<ChaosRule>) returns (status: RuntimeStatus, stats: PollStats)
      requires Valid()
      modifies Repr()
      ensures Valid()
      ensures status == if old(initialized) then RuntimeStatus.Ok else NotInitialized
      ensures Model() == Runtime.PollOnce(old(Model()), rules).rt
      ensures stats == Runtime.PollOnce(old(Model()), rules).stats
    {
      stats := NO_POLL_STATS;
      if !initialized {
        return NotInitialized, stats;
      }
      ghost var p := StartPoll(Model());
      var descriptors;
      stats, p := DrainCompletions(stats, p);
      stats, p := ReleaseDelayed(stats, p);
      stats, descriptors, p := Receive(stats, p);
      stats, p := ProcessAndReturn(descriptors, rules, stats, p);
      status := RuntimeStatus.Ok;
    }
  }

  lemma NothingLeftToPost(rt: Adapter)
    requires rt.Bounded()
    ensures InitLoop(rt, 0) == (rt.(initialized := true), RuntimeStatus.Ok)
  {
  }

  /** `all` is what receiving `rest` from here gives, after the descriptors already claimed. */
  ghost predicate Remaining(all: (Poll, seq<DP.PacketDescriptor>), p: Poll, claimed: seq<DP.PacketDescriptor>,
                            rest: seq<Xsk.Descriptor>)
  {
    p.Bounded() && all.0 == p.ReceiveAll(rest).0 && all.1 == claimed + p.ReceiveAll(rest).1
  }

  lemma RemainingStep(all: (Poll, seq<DP.PacketDescriptor>), p: Poll, claimed: seq<DP.PacketDescriptor>,
                      rx: seq<Xsk.Descriptor>, index: nat)
    requires index < |rx| && Remaining(all, p, claimed, rx[index..])
    ensures var (q, first) := p.ReceiveOne(rx[index]);
            Remaining(all, q, claimed + first, rx[index + 1..])
  {
    assert rx[index..][0] == rx[index] && rx[index..][1..] == rx[index + 1..];
  }

  method NewOutput() returns (output: array<DP.ProcessedFrame>)
    ensures fresh(output) && output.Length == DP.BATCH_SIZE
  {
    output := new DP.ProcessedFrame[DP.BATCH_SIZE](_ => DP.ProcessedFrame(0, 0, 0, PASS));
  }

  /** A default-constructed adapter. Ring sizes are powers of two, given by their exponents. */
  method NewAdapter(frameCount: nat, frameSize: nat, fillSize: nat, completionSize: nat, rxSize: nat, txSize: nat,
                    slotCount: nat, perSlot: nat) returns (adapter: AfXdpRuntimeAdapter)
    requires 0 < frameSize && 0 < slotCount
    requires fillSize < 64 && completionSize < 64 && rxSize < 64 && txSize < 64
    ensures adapter.Valid()
    ensures adapter.allocator.Model() == FreshPool(frameCount, frameSize)
    ensures adapter.socket.Model() == FreshSocket(Pow2(fillSize), Pow2(completionSize), Pow2(rxSize), Pow2(txSize))
    ensures adapter.wheel.Model() == FreshWheel(slotCount, perSlot)
    ensures !adapter.initialized && adapter.umem.Length == frameCount * frameSize
    ensures forall i :: 0 <= i < adapter.umem.Length ==> adapter.umem[i] == 0
  {
    var memory := NewUmem(frameCount * frameSize);
    var pool, rings, slots :=
      NewParts(frameCount, frameSize, fillSize, completionSize, rxSize, txSize, slotCount, perSlot);
    adapter := new AfXdpRuntimeAdapter(memory, pool, rings, slots);
  }

  method NewParts(frameCount: nat, frameSize: nat, fillSize: nat, completionSize: nat, rxSize: nat, txSize: nat,
                  slotCount: nat, perSlot: nat)
    returns (pool: FrameAllocator, rings: Xsk.SimulatedXskSocket, slots: TimingWheel)
    requires 0 < frameSize && 0 < slotCount
    requires fillSize < 64 && completionSize < 64 && rxSize < 64 && txSize < 64
    ensures fresh(pool.Repr()) && fresh(rings.Repr()) && fresh(slots.Repr())
    ensures pool.Repr() !! rings.Repr() && pool.Repr() !! slots.Repr() && rings.Repr() !! slots.Repr()
    ensures pool.Valid() && pool.Model() == FreshPool(frameCount, frameSize)
    ensures rings.Valid() &&
            rings.Model() == FreshSocket(Pow2(fillSize), Pow2(completionSize), Pow2(rxSize), Pow2(txSize))
    ensures slots.Valid() && slots.Model() == FreshWheel(slotCount, perSlot)
  {
    slots := new TimingWheel(slotCount, perSlot);
    pool, rings := NewPoolAndRings(frameCount, frameSize, fillSize, completionSize, rxSize, txSize);
  }

  method NewUmem(bytes: nat) returns (memory: array<Byte>)
    ensures fresh(memory) && memory.Length == bytes && forall i :: 0 <= i < bytes ==> memory[i] == 0
  {
    memory := new Byte[bytes](_ => 0);
  }

  method NewPoolAndRings(frameCount: nat, frameSize: nat, fillSize: nat, completionSize: nat, rxSize: nat, txSize: nat)
    returns (pool: FrameAllocator, rings: Xsk.SimulatedXskSocket)
    requires 0 < frameSize && fillSize < 64 && completionSize < 64 && rxSize < 64 && txSize < 64
    ensures fresh(pool.Repr()) && fresh(rings.Repr()) && pool.Repr() !! rings.Repr()
    ensures pool.Valid() && pool.Model() == FreshPool(frameCount, frameSize)
    ensures rings.Valid() &&
            rings.Model() == FreshSocket(Pow2(fillSize), Pow2(completionSize), Pow2(rxSize), Pow2(txSize))
  {
    pool := new FrameAllocator(frameCount, frameSize);
    rings := new Xsk.SimulatedXskSocket(fillSize, completionSize, rxSize, txSize);
  }

  function FreshSocket(fill: nat, completion: nat, rx: nat, tx: nat): Xsk.SocketModel {
    Xsk.SocketModel(RingModel(fill, []), RingModel(completion, []), RingModel(rx, []), RingModel(tx, []), 0)
  }

  /** Offering one item to a full ring changes nothing. */
  lemma RingFullUnchanged<T>(ring: RingModel<T>, item: T)
    requires ring.Bounded()
    ensures ring.Room(1) != 1 ==> ring.Produce([item]) == ring
  {
  }
}
