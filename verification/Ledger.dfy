/** The frame ledger: where every UMEM frame is, counted per address, and that the
    allocator's owner table agrees with it. The lemmas follow one poll, step by step. */
module Ledger {
  import opened Machine
  import opened FrameAllocation
  import opened SocketRings
  import Xsk = XskSocket
  import opened TimingWheels
  import opened WheelContents
  import opened ChaosEngine
  import DP = DataPlane
  import opened BatchAccounting
  import opened Runtime

  function Id(a: nat): nat { a }

  function DescriptorKey(d: Descriptor): nat { d.address }

  function Count(s: seq<nat>, a: nat): nat { CountBy(s, Id, a) }

  /** What is outside the adapter during a poll: frames in the kernel's hands, taken from the
      fill ring or from the TX ring, and frames lost in earlier polls. */
  datatype Outside = Outside(rxHand: seq<nat>, txHand: seq<nat>, lost: seq<nat>)

  /** Frames in a poll's local arrays, by the owner the allocator records for them. */
  datatype Flight = Flight(fill: seq<nat>, plane: seq<nat>, tx: seq<nat>)

  const NO_FLIGHT := Flight([], [], [])

  // How often address `a` is on the fill side, with the data plane, on the TX side, or lost.

  function OnFill(p: Poll, o: Outside, f: Flight, a: nat): nat {
    Count(p.rt.socket.fill.items, a) + Count(o.rxHand, a) +
    CountBy(p.rt.socket.rx.items, DescriptorKey, a) + Count(f.fill, a)
  }

  function OnPlane(p: Poll, f: Flight, a: nat): nat {
    Contents(p.rt.wheel.slots, a) + Count(f.plane, a)
  }

  function OnTx(p: Poll, o: Outside, f: Flight, a: nat): nat {
    CountBy(p.rt.socket.tx.items, DescriptorKey, a) + Count(o.txHand, a) +
    Count(p.rt.socket.completion.items, a) + Count(f.tx, a)
  }

  function Lost(p: Poll, o: Outside, a: nat): nat {
    Count(o.lost, a) + Count(p.lost, a)
  }

  /** The owner recorded for an address; an address that is no frame's counts as free. */
  function OwnerAt(pool: Pool, a: nat): FrameOwner
    requires 0 < pool.frameSize
  {
    var handle := pool.HandleFromAddress(a);
    if handle.status == FrameStatus.Ok then pool.OwnerOf(handle.frame.index) else Free
  }

  /** The owner matches the one place the frame is in. A lost frame keeps the owner it had. */
  predicate Agrees(owner: FrameOwner, fill: nat, plane: nat, tx: nat, lost: nat) {
    match owner
    case Free => fill == 0 && plane == 0 && tx == 0 && lost == 0
    case FillRing => fill == 1 && plane == 0 && tx == 0 && lost == 0
    case DataPlane => fill == 0 && plane + lost == 1 && tx == 0
    case TxRing => fill == 0 && plane == 0 && tx + lost == 1
    case _ => false
  }

  ghost predicate AgreesAt(p: Poll, o: Outside, f: Flight, a: nat)
    requires 0 < p.rt.pool.frameSize
  {
    Agrees(OwnerAt(p.rt.pool, a), OnFill(p, o, f, a), OnPlane(p, f, a), OnTx(p, o, f, a), Lost(p, o, a))
  }

  function PlacedFrames(p: Poll, o: Outside, f: Flight): nat {
    |p.rt.socket.fill.items| + |o.rxHand| + |p.rt.socket.rx.items| + |f.fill| +
    p.rt.wheel.pending + |f.plane| +
    |p.rt.socket.tx.items| + |o.txHand| + |p.rt.socket.completion.items| + |f.tx| +
    |o.lost| + |p.lost|
  }

  /** Every frame is accounted for, and together they are the frames in use. */
  ghost predicate Balanced(p: Poll, o: Outside, f: Flight) {
    && p.Bounded() && p.rt.pool.FreeListExact()
    && (forall a: nat :: AgreesAt(p, o, f, a))
    && PlacedFrames(p, o, f) + |p.rt.pool.freeStack| == |p.rt.pool.owners|
  }

  function InUse(rt: Adapter): int { |rt.pool.owners| - |rt.pool.freeStack| }

  /** Both rings the adapter fills have room for every frame in use. */
  predicate Ample(rt: Adapter) {
    InUse(rt) <= rt.socket.fill.capacity && InUse(rt) <= rt.socket.tx.capacity
  }

  /** What a step of a poll never changes, and what it may add to the counters: no owner
      failure, one fill failure per frame lost, and no loss at all when the rings are ample. */
  ghost predicate Proceeds(p: Poll, r: Poll) {
    && InUse(r.rt) == InUse(p.rt) && r.rt.initialized == p.rt.initialized
    && |r.rt.pool.owners| == |p.rt.pool.owners|
    && r.rt.pool.frameSize == p.rt.pool.frameSize
    && r.rt.socket.fill.capacity == p.rt.socket.fill.capacity
    && r.rt.socket.tx.capacity == p.rt.socket.tx.capacity
    && r.stats.ownerFailures == p.stats.ownerFailures
    && r.stats.fillFailures + |p.lost| == p.stats.fillFailures + |r.lost|
    && (Ample(p.rt) ==> r.lost == p.lost)
    && Flows(p, r)
  }

  /** The counters count what crosses the rings: refills and submissions go in, completions
      and received frames come out. */
  ghost predicate Flows(p: Poll, r: Poll) {
    && |r.rt.socket.fill.items| + p.stats.fillRefilled == |p.rt.socket.fill.items| + r.stats.fillRefilled
    && |r.rt.socket.tx.items| + p.stats.txSubmitted == |p.rt.socket.tx.items| + r.stats.txSubmitted
    && |r.rt.socket.completion.items| + r.stats.txCompleted == |p.rt.socket.completion.items| + p.stats.txCompleted
    && |r.rt.socket.rx.items| + r.stats.rxFrames == |p.rt.socket.rx.items| + p.stats.rxFrames
  }

  /** The wheel and the received-frame count are as they were. */
  ghost predicate Steady(p: Poll, r: Poll) {
    r.rt.wheel == p.rt.wheel && r.stats.rxFrames == p.stats.rxFrames
  }

  // ---------------------------------------------------------------------------------------
  // Owners
  // ---------------------------------------------------------------------------------------

  lemma HandleOf(pool: Pool, x: nat)
    requires 0 < pool.frameSize && pool.HandleFromAddress(x).status == FrameStatus.Ok
    ensures var handle := pool.HandleFromAddress(x).frame;
            handle.address == x && handle.index < |pool.owners| && handle.index * pool.frameSize == x
  {
    QuotientBelow(x, pool.frameSize, |pool.owners|);
  }

  /** Re-owning the frame at `x` changes the owner at `x` and at no other address. */
  lemma OwnerAfterUpdate(pool: Pool, x: nat, next: FrameOwner, a: nat)
    requires 0 < pool.frameSize && pool.HandleFromAddress(x).status == FrameStatus.Ok
    requires pool.HandleFromAddress(x).frame.index < |pool.owners|
    ensures OwnerAt(pool.(owners := pool.owners[pool.HandleFromAddress(x).frame.index := next]), a) ==
            if a == x then next else OwnerAt(pool, a)
  {
    HandleOf(pool, x);
    if pool.HandleFromAddress(a).status == FrameStatus.Ok {
      HandleOf(pool, a);
    }
  }

  /** The adapter passes back the owner it has just read, so the transition is accepted. */
  lemma TransitionMoves(pool: Pool, x: nat, next: FrameOwner)
    requires pool.FreeListExact() && next != Free && OwnerAt(pool, x) != Free
    ensures var handle := pool.HandleFromAddress(x);
            var (q, status) := pool.Transition(handle.frame, OwnerAt(pool, x), next);
            && handle.status == FrameStatus.Ok && handle.frame.address == x
            && pool.OwnerOf(handle.frame.index) == OwnerAt(pool, x)
            && status == FrameStatus.Ok && q.FreeListExact()
            && q == pool.(owners := q.owners) && |q.owners| == |pool.owners|
            && q.HandleFromAddress(x) == handle
            && forall a: nat :: OwnerAt(q, a) == if a == x then next else OwnerAt(pool, a)
  {
    HandleOf(pool, x);
    var handle := pool.HandleFromAddress(x).frame;
    TransitionKeepsIff(pool, handle, OwnerAt(pool, x), next);
    forall a: nat
      ensures OwnerAt(pool.(owners := pool.owners[handle.index := next]), a) ==
              if a == x then next else OwnerAt(pool, a)
    {
      OwnerAfterUpdate(pool, x, next, a);
    }
  }

  /** Rolling a transition back restores the owner table. */
  lemma RollBack(pool: Pool, x: nat, next: FrameOwner)
    requires pool.FreeListExact() && next != Free && OwnerAt(pool, x) != Free
    ensures var frame := pool.HandleFromAddress(x).frame;
            var q := pool.Transition(frame, OwnerAt(pool, x), next).0;
            q.Transition(frame, next, OwnerAt(pool, x)).0 == pool
  {
    TransitionMoves(pool, x, next);
    var frame := pool.HandleFromAddress(x).frame;
    var q := pool.Transition(frame, OwnerAt(pool, x), next).0;
    HandleOf(pool, x);
    assert q.Transition(frame, next, OwnerAt(pool, x)).0.owners == pool.owners;
  }

  // ---------------------------------------------------------------------------------------
  // Refilling
  // ---------------------------------------------------------------------------------------

  /** The flight with `addresses` waiting under owner `owner`. */
  function Waiting(f: Flight, owner: FrameOwner, addresses: seq<nat>): Flight {
    if owner == TxRing then f.(tx := addresses) else f.(plane := addresses)
  }

  lemma CountHead(addresses: seq<nat>, a: nat)
    requires addresses != []
    ensures Count(addresses, a) == Count(addresses[1..], a) + if addresses[0] == a then 1 else 0
  {
    CountPop(addresses, Id, a);
  }

  /** Whoever waits in flight under an owner is recorded under it. */
  lemma HeadIsOwned(p: Poll, o: Outside, f: Flight, owner: FrameOwner, addresses: seq<nat>)
    requires owner in {DataPlane, TxRing} && addresses != []
    requires Balanced(p, o, Waiting(f, owner, addresses))
    ensures OwnerAt(p.rt.pool, addresses[0]) == owner
  {
    var x := addresses[0];
    assert AgreesAt(p, o, Waiting(f, owner, addresses), x);
    CountHead(addresses, x);
  }

  /** The owner table after a move: only `x` changed hands. */
  ghost predicate Reowned(pool: Pool, q: Pool, x: nat, next: FrameOwner) {
    && q.FreeListExact() && q == pool.(owners := q.owners) && |q.owners| == |pool.owners|
    && forall a: nat :: OwnerAt(q, a) == if a == x then next else OwnerAt(pool, a)
  }

  /** A refill either puts the frame on the fill ring or leaves everything but the counters
      as it was, and the frame in no ring. */
  lemma RefillCases(p: Poll, x: nat, owner: FrameOwner)
    requires p.Bounded() && p.rt.pool.FreeListExact() && OwnerAt(p.rt.pool, x) == owner != Free
    ensures var r, ring := p.RefillAddress(x, owner), p.rt.socket.fill;
            if |ring.items| < ring.capacity then
              && r.rt == p.rt.(pool := r.rt.pool, socket := p.rt.socket.(fill := ring.(items := ring.items + [x])))
              && Reowned(p.rt.pool, r.rt.pool, x, FillRing)
              && r.lost == p.lost && r.stats == p.stats.(fillRefilled := p.stats.fillRefilled + 1)
            else
              && r.rt == p.rt && r.lost == p.lost + [x]
              && r.stats == p.stats.(fillFailures := p.stats.fillFailures + 1)
  {
    TransitionMoves(p.rt.pool, x, FillRing);
    RollBack(p.rt.pool, x, FillRing);
  }

  /** Taking the head of a flight, and where it went, at one address. */
  lemma RefilledAgrees(p: Poll, r: Poll, o: Outside, f: Flight, owner: FrameOwner, addresses: seq<nat>, a: nat)
    requires owner in {DataPlane, TxRing} && addresses != [] && p.Bounded()
    requires OwnerAt(p.rt.pool, addresses[0]) == owner
    requires var ring := p.rt.socket.fill;
             r.rt == p.rt.(pool := r.rt.pool, socket := p.rt.socket.(fill := ring.(items := ring.items + [addresses[0]])))
    requires Reowned(p.rt.pool, r.rt.pool, addresses[0], FillRing) && r.lost == p.lost
    requires AgreesAt(p, o, Waiting(f, owner, addresses), a)
    ensures AgreesAt(r, o, Waiting(f, owner, addresses[1..]), a)
  {
    CountHead(addresses, a);
    CountPush(p.rt.socket.fill.items, addresses[0], Id, a);
  }

  lemma LostAgrees(p: Poll, r: Poll, o: Outside, f: Flight, owner: FrameOwner, addresses: seq<nat>, a: nat)
    requires owner in {DataPlane, TxRing} && addresses != [] && p.Bounded()
    requires OwnerAt(p.rt.pool, addresses[0]) == owner
    requires r.rt == p.rt && r.lost == p.lost + [addresses[0]]
    requires AgreesAt(p, o, Waiting(f, owner, addresses), a)
    ensures AgreesAt(r, o, Waiting(f, owner, addresses[1..]), a)
  {
    CountHead(addresses, a);
    CountPush(p.lost, addresses[0], Id, a);
  }

  lemma RefillKeeps(p: Poll, o: Outside, f: Flight, owner: FrameOwner, addresses: seq<nat>)
    requires owner in {DataPlane, TxRing} && addresses != []
    requires Balanced(p, o, Waiting(f, owner, addresses))
    ensures var r := p.RefillAddress(addresses[0], owner);
            Balanced(r, o, Waiting(f, owner, addresses[1..])) && Proceeds(p, r) && Steady(p, r)
  {
    HeadIsOwned(p, o, f, owner, addresses);
    var r := p.RefillAddress(addresses[0], owner);
    RefillCases(p, addresses[0], owner);
    forall a: nat
      ensures AgreesAt(r, o, Waiting(f, owner, addresses[1..]), a)
    {
      assert AgreesAt(p, o, Waiting(f, owner, addresses), a);
      if |p.rt.socket.fill.items| < p.rt.socket.fill.capacity {
        RefilledAgrees(p, r, o, f, owner, addresses, a);
      } else {
        LostAgrees(p, r, o, f, owner, addresses, a);
      }
    }
  }

  lemma {:induction false} RefillAllKeeps(p: Poll, o: Outside, f: Flight, owner: FrameOwner, addresses: seq<nat>)
    requires owner in {DataPlane, TxRing}
    requires Balanced(p, o, Waiting(f, owner, addresses))
    ensures var r := p.RefillAll(addresses, owner);
            Balanced(r, o, Waiting(f, owner, [])) && Proceeds(p, r) && Steady(p, r)
    decreases |addresses|
  {
    if addresses == [] {
    } else {
      RefillKeeps(p, o, f, owner, addresses);
      RefillAllKeeps(p.RefillAddress(addresses[0], owner), o, f, owner, addresses[1..]);
    }
  }

  // ---------------------------------------------------------------------------------------
  // Submitting
  // ---------------------------------------------------------------------------------------

  function KeyAddresses(frames: seq<(nat, U32)>): (r: seq<nat>)
    ensures |r| == |frames|
    ensures forall i :: 0 <= i < |r| ==> r[i] == frames[i].0
  {
    seq(|frames|, i requires 0 <= i < |frames| => frames[i].0)
  }

  /** A submission either puts the frame on the TX ring or, like a refill, loses it. */
  lemma SubmitCases(p: Poll, x: nat, length: U32)
    requires p.Bounded() && p.rt.pool.FreeListExact() && OwnerAt(p.rt.pool, x) == DataPlane
    ensures var r, ring := p.SubmitOne(x, length), p.rt.socket.tx;
            if |ring.items| < ring.capacity then
              && r.rt == p.rt.(pool := r.rt.pool,
                               socket := p.rt.socket.(tx := ring.(items := ring.items + [Xsk.Descriptor(x, length, 0)]),
                                                      kicks := p.rt.socket.kicks + 1))
              && Reowned(p.rt.pool, r.rt.pool, x, TxRing)
              && r.lost == p.lost && r.stats == p.stats.(txSubmitted := p.stats.txSubmitted + 1)
            else
              && r.rt == p.rt && r.lost == p.lost + [x]
              && r.stats == p.stats.(fillFailures := p.stats.fillFailures + 1)
  {
    TransitionMoves(p.rt.pool, x, TxRing);
    RollBack(p.rt.pool, x, TxRing);
  }

  lemma SubmittedAgrees(p: Poll, r: Poll, o: Outside, f: Flight, addresses: seq<nat>, length: U32, a: nat)
    requires addresses != [] && p.Bounded() && OwnerAt(p.rt.pool, addresses[0]) == DataPlane
    requires var ring, d := p.rt.socket.tx, Xsk.Descriptor(addresses[0], length, 0);
             r.rt == p.rt.(pool := r.rt.pool,
                           socket := p.rt.socket.(tx := ring.(items := ring.items + [d]), kicks := p.rt.socket.kicks + 1))
    requires Reowned(p.rt.pool, r.rt.pool, addresses[0], TxRing) && r.lost == p.lost
    requires AgreesAt(p, o, f.(plane := addresses), a)
    ensures AgreesAt(r, o, f.(plane := addresses[1..]), a)
  {
    CountHead(addresses, a);
    CountPush(p.rt.socket.tx.items, Xsk.Descriptor(addresses[0], length, 0), DescriptorKey, a);
  }

  lemma SubmitKeeps(p: Poll, o: Outside, f: Flight, addresses: seq<nat>, length: U32)
    requires addresses != []
    requires Balanced(p, o, f.(plane := addresses))
    ensures var r := p.SubmitOne(addresses[0], length);
            Balanced(r, o, f.(plane := addresses[1..])) && Proceeds(p, r) && Steady(p, r)
  {
    HeadIsOwned(p, o, f, DataPlane, addresses);
    var r := p.SubmitOne(addresses[0], length);
    SubmitCases(p, addresses[0], length);
    forall a: nat
      ensures AgreesAt(r, o, f.(plane := addresses[1..]), a)
    {
      assert AgreesAt(p, o, f.(plane := addresses), a);
      if |p.rt.socket.tx.items| < p.rt.socket.tx.capacity {
        SubmittedAgrees(p, r, o, f, addresses, length, a);
      } else {
        LostAgrees(p, r, o, f, DataPlane, addresses, a);
      }
    }
  }

  lemma {:induction false} SubmitAllKeeps(p: Poll, o: Outside, f: Flight, frames: seq<(nat, U32)>, rest: seq<nat>)
    requires Balanced(p, o, f.(plane := KeyAddresses(frames) + rest))
    ensures var r := p.SubmitAll(frames);
            Balanced(r, o, f.(plane := rest)) && Proceeds(p, r) && Steady(p, r)
    decreases |frames|
  {
    if frames == [] {
      assert KeyAddresses(frames) + rest == rest;
    } else {
      var addresses := KeyAddresses(frames) + rest;
      assert addresses[1..] == KeyAddresses(frames[1..]) + rest;
      SubmitKeeps(p, o, f, addresses, frames[0].1);
      SubmitAllKeeps(p.SubmitOne(frames[0].0, frames[0].1), o, f, frames[1..], rest);
    }
  }

  // ---------------------------------------------------------------------------------------
  // Taking a batch out of a ring or the wheel
  // ---------------------------------------------------------------------------------------

  lemma {:induction false} CountSame<T>(s: seq<T>, t: seq<nat>, key: T -> nat, a: nat)
    requires |s| == |t| && forall i :: 0 <= i < |s| ==> t[i] == key(s[i])
    ensures CountBy(s, key, a) == Count(t, a)
    decreases |s|
  {
    if s == [] {
    } else {
      CountSame(s[..|s| - 1], t[..|t| - 1], key, a);
    }
  }

  /** Consuming splits a ring's contents without losing any. */
  lemma ConsumeSplits<T>(ring: RingModel<T>, limit: nat, key: T -> nat, a: nat)
    ensures var (rest, taken) := ring.Consume(limit);
            && CountBy(ring.items, key, a) == CountBy(rest.items, key, a) + CountBy(taken, key, a)
            && |ring.items| == |rest.items| + |taken|
  {
    var (rest, taken) := ring.Consume(limit);
    CountConcat(taken, rest.items, key, a);
  }

  /** Taking completions off the ring leaves them waiting to be refilled. */
  lemma DrainStarts(p: Poll, o: Outside)
    requires Balanced(p, o, NO_FLIGHT)
    ensures var (q, completed) := p.StartDrain();
            Balanced(q, o, Waiting(NO_FLIGHT, TxRing, completed)) && Proceeds(p, q) && Steady(p, q)
  {
    var (q, completed) := p.StartDrain();
    forall a: nat
      ensures AgreesAt(q, o, Waiting(NO_FLIGHT, TxRing, completed), a)
    {
      assert AgreesAt(p, o, NO_FLIGHT, a);
      ConsumeSplits(p.rt.socket.completion, DP.BATCH_SIZE, Id, a);
    }
    ConsumeSplits(p.rt.socket.completion, DP.BATCH_SIZE, Id, 0);
  }

  lemma DrainKeeps(p: Poll, o: Outside)
    requires Balanced(p, o, NO_FLIGHT)
    ensures var r := p.DrainCompletions();
            Balanced(r, o, NO_FLIGHT) && Proceeds(p, r) && Steady(p, r)
  {
    var (q, completed) := p.StartDrain();
    DrainStarts(p, o);
    RefillAllKeeps(q, o, NO_FLIGHT, TxRing, completed);
  }

  /** A tick takes the frames it returns out of the wheel, on their way to TX. */
  lemma TickReleases(p: Poll, o: Outside)
    requires Balanced(p, o, NO_FLIGHT)
    ensures p.rt.wheel.Tick().0.Bounded()
    ensures var (wheel, expired) := p.rt.wheel.Tick();
            && Balanced(p.(rt := p.rt.(wheel := wheel)), o, NO_FLIGHT.(plane := KeyAddresses(DelayedKeys(expired)) + []))
            && wheel.pending + |expired| == p.rt.wheel.pending
  {
    StepsKeepBounded(p.rt.wheel, DelayedFrame(0, 0, 0, 0), 0);
    var (wheel, expired) := p.rt.wheel.Tick();
    var q := p.(rt := p.rt.(wheel := wheel));
    var frames := DelayedKeys(expired);
    var flight := NO_FLIGHT.(plane := KeyAddresses(frames) + []);
    SumAtLeastSlot(p.rt.wheel.slots, p.rt.wheel.SlotIndex(p.rt.wheel.now + 1));
    forall a: nat
      ensures AgreesAt(q, o, flight, a)
    {
      assert AgreesAt(p, o, NO_FLIGHT, a);
      TickTakes(p.rt.wheel, a);
      CountSame(expired, KeyAddresses(frames) + [], DelayedAddress, a);
    }
  }

  lemma ReleaseKeeps(p: Poll, o: Outside)
    requires Balanced(p, o, NO_FLIGHT)
    ensures var r := p.ReleaseDelayed();
            Balanced(r, o, NO_FLIGHT) && Proceeds(p, r) && r.rt.wheel == p.rt.wheel.Tick().0 &&
            r.stats.rxFrames == p.stats.rxFrames
  {
    TickReleases(p, o);
    var (wheel, expired) := p.rt.wheel.Tick();
    SubmitAllKeeps(p.(rt := p.rt.(wheel := wheel)), o, NO_FLIGHT, DelayedKeys(expired), []);
  }

  // ---------------------------------------------------------------------------------------
  // Receiving
  // ---------------------------------------------------------------------------------------

  function DescriptorAddresses(rx: seq<Descriptor>): (r: seq<nat>)
    ensures |r| == |rx|
    ensures forall i :: 0 <= i < |r| ==> r[i] == rx[i].address
  {
    seq(|rx|, i requires 0 <= i < |rx| => rx[i].address)
  }

  function PacketAddresses(rx: seq<DP.PacketDescriptor>): (r: seq<nat>)
    ensures |r| == |rx|
    ensures forall i :: 0 <= i < |r| ==> r[i] == rx[i].address
  {
    seq(|rx|, i requires 0 <= i < |rx| => rx[i].address)
  }

  /** A received frame passes from the fill side to the data plane. */
  lemma ReceiveKeeps(p: Poll, o: Outside, d: Descriptor, rest: seq<nat>, got: seq<nat>)
    requires Balanced(p, o, Flight([d.address] + rest, got, []))
    ensures var (r, claimed) := p.ReceiveOne(d);
            && Balanced(r, o, Flight(rest, got + [d.address], [])) && Proceeds(p, r) && Steady(p, r)
            && claimed == [DP.PacketDescriptor(d.address, d.length, d.options)]
  {
    var x := d.address;
    var addresses := [x] + rest;
    assert addresses[1..] == rest;
    assert AgreesAt(p, o, Flight(addresses, got, []), x);
    CountHead(addresses, x);
    assert OwnerAt(p.rt.pool, x) == FillRing;
    TransitionMoves(p.rt.pool, x, DataPlane);
    var r := p.ReceiveOne(d).0;
    forall a: nat
      ensures AgreesAt(r, o, Flight(rest, got + [x], []), a)
    {
      assert AgreesAt(p, o, Flight(addresses, got, []), a);
      CountHead(addresses, a);
      CountPush(got, x, Id, a);
    }
  }

  /** Steps of a poll add up. */
  lemma ProceedsTwice(p: Poll, q: Poll, r: Poll)
    requires Proceeds(p, q) && Proceeds(q, r)
    ensures Proceeds(p, r)
  {
  }

  lemma ReceiveSplits(p: Poll, rx: seq<Descriptor>)
    requires p.Bounded() && rx != []
    ensures var (next, first) := p.ReceiveOne(rx[0]);
            var (last, rest) := next.ReceiveAll(rx[1..]);
            p.ReceiveAll(rx) == (last, first + rest)
  {
  }

  /** The first of the frames received passes to the data plane; the others still wait. */
  lemma ReceiveHead(p: Poll, o: Outside, rx: seq<Descriptor>, got: seq<nat>, next: Poll, first: seq<DP.PacketDescriptor>)
    requires rx != [] && Balanced(p, o, Flight(DescriptorAddresses(rx), got, []))
    requires (next, first) == p.ReceiveOne(rx[0])
    ensures Balanced(next, o, Flight(DescriptorAddresses(rx[1..]), got + [rx[0].address], []))
    ensures Proceeds(p, next) && Steady(p, next)
    ensures first == [DP.PacketDescriptor(rx[0].address, rx[0].length, rx[0].options)]
  {
    assert DescriptorAddresses(rx) == [rx[0].address] + DescriptorAddresses(rx[1..]);
    ReceiveKeeps(p, o, rx[0], DescriptorAddresses(rx[1..]), got);
  }

  lemma GotMore(got: seq<nat>, d: DP.PacketDescriptor, claimed: seq<DP.PacketDescriptor>)
    ensures got + [d.address] + PacketAddresses(claimed) == got + PacketAddresses([d] + claimed)
  {
    assert PacketAddresses([d] + claimed) == [d.address] + PacketAddresses(claimed);
  }

  lemma {:induction false} ReceiveAllKeeps(p: Poll, o: Outside, rx: seq<Descriptor>, got: seq<nat>,
                                           r: Poll, claimed: seq<DP.PacketDescriptor>)
    requires Balanced(p, o, Flight(DescriptorAddresses(rx), got, [])) && (r, claimed) == p.ReceiveAll(rx)
    ensures Balanced(r, o, Flight([], got + PacketAddresses(claimed), []))
    ensures Proceeds(p, r) && Steady(p, r) && |claimed| == |rx|
    decreases |rx|
  {
    if rx == [] {
      assert got + PacketAddresses([]) == got;
      assert DescriptorAddresses(rx) == [];
    } else {
      var (next, first) := p.ReceiveOne(rx[0]);
      ReceiveHead(p, o, rx, got, next, first);
      ReceiveSplits(p, rx);
      var rest := next.ReceiveAll(rx[1..]).1;
      ReceiveAllKeeps(next, o, rx[1..], got + [rx[0].address], r, rest);
      GotMore(got, first[0], rest);
      ProceedsTwice(p, next, r);
    }
  }

  lemma ReceiveBatchKeeps(p: Poll, o: Outside)
    requires Balanced(p, o, NO_FLIGHT) && p.stats.rxFrames == 0
    ensures var (r, claimed) := p.Receive();
            && Balanced(r, o, NO_FLIGHT.(plane := PacketAddresses(claimed))) && Proceeds(p, r)
            && r.rt.wheel == p.rt.wheel
  {
    var (rx, received) := p.rt.socket.rx.Consume(DP.BATCH_SIZE);
    var q := p.(rt := p.rt.(socket := p.rt.socket.(rx := rx)), stats := p.stats.(rxFrames := |received|));
    var addresses := DescriptorAddresses(received);
    forall a: nat
      ensures AgreesAt(q, o, Flight(addresses, [], []), a)
    {
      assert AgreesAt(p, o, NO_FLIGHT, a);
      ConsumeSplits(p.rt.socket.rx, DP.BATCH_SIZE, DescriptorKey, a);
      CountSame(received, addresses, DescriptorKey, a);
    }
    ConsumeSplits(p.rt.socket.rx, DP.BATCH_SIZE, DescriptorKey, 0);
    assert Balanced(q, o, Flight(addresses, [], []));
    var (r, claimed) := q.ReceiveAll(received);
    ReceiveAllKeeps(q, o, received, [], r, claimed);
    assert [] + PacketAddresses(claimed) == PacketAddresses(claimed);
  }

  // ---------------------------------------------------------------------------------------
  // The data plane
  // ---------------------------------------------------------------------------------------

  /** The frames a batch leaves in flight: those to send, then those to recycle. */
  function Leaving(b: DP.Batch): seq<nat> {
    KeyAddresses(ProcessedKeys(b.tx)) + ProcessedAddresses(b.recycle)
  }

  lemma LeavingCounts(b: DP.Batch, rx: seq<DP.PacketDescriptor>, a: nat)
    requires OutputsMatch(b, rx)
    ensures Count(Leaving(b), a) ==
            Arrivals(Select(rx, b.fates, DP.Sent), a) + Arrivals(Select(rx, b.fates, DP.Recycled), a)
    ensures |Leaving(b)| == |Select(rx, b.fates, DP.Sent)| + |Select(rx, b.fates, DP.Recycled)|
  {
    var sent, back := KeyAddresses(ProcessedKeys(b.tx)), ProcessedAddresses(b.recycle);
    CountConcat(sent, back, Id, a);
    CountSame(Select(rx, b.fates, DP.Sent), sent, DescriptorAddress, a);
    CountSame(Select(rx, b.fates, DP.Recycled), back, DescriptorAddress, a);
  }

  /** The batch leaves each received frame in the wheel or in one of the outputs. */
  lemma BatchAgrees(p: Poll, o: Outside, rx: seq<DP.PacketDescriptor>, b: DP.Batch, config: DP.BatchConfig, a: nat)
    requires p.Bounded()
    requires Accounts(b, rx, config, p.rt.wheel) && Partitioned(b, rx)
    requires AgreesAt(p, o, NO_FLIGHT.(plane := PacketAddresses(rx)), a)
    ensures AgreesAt(p.WithBatch(b), o, NO_FLIGHT.(plane := Leaving(b)), a)
  {
    LeavingCounts(b, rx, a);
    CountSame(rx, PacketAddresses(rx), DescriptorAddress, a);
  }

  lemma BatchKeeps(p: Poll, o: Outside, rx: seq<DP.PacketDescriptor>, rules: seq<ChaosRule>)
    requires Balanced(p, o, NO_FLIGHT.(plane := PacketAddresses(rx))) && |rx| <= DP.BATCH_SIZE
    ensures var b := p.Batch(rules, rx);
            Balanced(p.WithBatch(b), o, NO_FLIGHT.(plane := Leaving(b))) && Proceeds(p, p.WithBatch(b))
  {
    var b := p.Batch(rules, rx);
    var config := PollConfig(rules);
    BatchConserves(p.rt.umem, p.rt.wheel, rx, config);
    assert Accounts(b, rx, config, p.rt.wheel) && Partitioned(b, rx);
    forall a: nat
      ensures AgreesAt(p.WithBatch(b), o, NO_FLIGHT.(plane := Leaving(b)), a)
    {
      assert AgreesAt(p, o, NO_FLIGHT.(plane := PacketAddresses(rx)), a);
      BatchAgrees(p, o, rx, b, config, a);
    }
    LeavingCounts(b, rx, 0);
    SelectEmptyIff(rx, b.fates, DP.Overflowed);
  }

  lemma AfterBatchKeeps(p: Poll, o: Outside, b: DP.Batch)
    requires p.Bounded() && b.wheel.Bounded()
    requires Balanced(p.WithBatch(b), o, NO_FLIGHT.(plane := Leaving(b)))
    ensures var r := AfterBatch(p, b);
            Balanced(r, o, NO_FLIGHT) && Proceeds(p.WithBatch(b), r) && r.rt.wheel == b.wheel
  {
    var q := p.WithBatch(b);
    var frames, back := ProcessedKeys(b.tx), ProcessedAddresses(b.recycle);
    SubmitAllKeeps(q, o, NO_FLIGHT, frames, back);
    RefillAllKeeps(q.SubmitAll(frames), o, NO_FLIGHT, DataPlane, back);
  }

  /** A whole poll keeps the books: every frame is where its owner says, no owner failure is
      counted, every fill failure is a frame lost, and ample rings lose none. */
  lemma PollKeeps(rt: Adapter, o: Outside, rules: seq<ChaosRule>)
    requires Balanced(StartPoll(rt), o, NO_FLIGHT)
    ensures var r := PollOnce(rt, rules);
            Balanced(r, o, NO_FLIGHT) && Proceeds(StartPoll(rt), r)
  {
    if rt.initialized {
      var start := StartPoll(rt);
      DrainKeeps(start, o);
      ReleaseKeeps(start.DrainCompletions(), o);
      var before := BeforeBatch(rt);
      ReceiveBatchKeeps(before, o);
      var (received, rx) := before.Receive();
      BatchKeeps(received, o, rx, rules);
      AfterBatchKeeps(received, o, received.Batch(rules, rx));
    }
  }
}
