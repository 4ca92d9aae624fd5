/** Whole runs of the runtime with a kernel on the other side of its rings.

    A world is an adapter, the frames in the kernel's hands, and a history. Its steps are
    `init`, `poll_once` and the four kernel steps; the theorems hold over every run, in any
    order, from a freshly constructed adapter. */
module Lifecycle {
  import opened Machine
  import opened FrameAllocation
  import opened SocketRings
  import Xsk = XskSocket
  import opened TimingWheels
  import opened WheelContents
  import opened ChaosEngine
  import DP = DataPlane
  import opened BatchFates
  import opened Runtime
  import opened Ledger

  datatype World = World(
    rt: Adapter,
    rxHand: seq<nat>,
    txHand: seq<nat>,
    lost: seq<nat>,
    fillFailures: nat,
    ownerFailures: nat,
    trace: Trace)
  {
    function Outside(): Ledger.Outside { Ledger.Outside(rxHand, txHand, lost) }

    ghost predicate Bounded() { rt.Bounded() && trace.wheel.Bounded() }
  }

  /** What can happen. The kernel returns only frames it holds, and writes no more than a
      frame into one; which of its frames it returns, and when, is up to it. */
  datatype Action =
    | InitA(initialFillFrames: nat)
    | PollA(rules: seq<ChaosRule>)
    | TakeFill
    | InjectRx(k: nat, content: seq<Byte>, options: U32)
    | TakeTx
    | CompleteTx(k: nat)

  datatype Sizes = Sizes(
    frameCount: nat, frameSize: nat, fill: nat, completion: nat, rx: nat, tx: nat, slots: nat, perSlot: nat)

  predicate Sensible(n: Sizes) { 0 < n.frameSize && 0 < n.slots }

  function Boot(n: Sizes, umem: seq<Byte>): (w: World)
    requires Sensible(n)
    ensures w.Bounded()
  {
    var wheel := FreshWheel(n.slots, n.perSlot);
    var socket := Xsk.SocketModel(RingModel(n.fill, []), RingModel(n.completion, []), RingModel(n.rx, []),
                                  RingModel(n.tx, []), 0);
    World(Adapter(FreshPool(n.frameCount, n.frameSize), socket, wheel, umem, false), [], [], [], 0, 0,
          Trace(wheel, [], []))
  }

  function Remove(s: seq<nat>, k: nat): seq<nat>
    requires k < |s|
  {
    s[..k] + s[k + 1..]
  }

  /** The batch of a poll. */
  function PollBatch(rt: Adapter, rules: seq<ChaosRule>): (b: DP.Batch)
    requires rt.Bounded()
    ensures b.wheel.Bounded()
  {
    var (received, rx) := BeforeBatch(rt).Receive();
    received.Batch(rules, rx)
  }

  function PollStep(w: World, rules: seq<ChaosRule>): (r: World)
    requires w.Bounded()
    ensures r.Bounded()
  {
    var p := PollOnce(w.rt, rules);
    w.(rt := p.rt,
       lost := w.lost + p.lost,
       fillFailures := w.fillFailures + p.stats.fillFailures,
       ownerFailures := w.ownerFailures + p.stats.ownerFailures,
       trace := if w.rt.initialized then Run(Step(w.trace, TickOp), PollBatch(w.rt, rules).attempts) else w.trace)
  }

  function InjectStep(w: World, k: nat, content: seq<Byte>, options: U32): (r: World)
    requires w.Bounded()
    ensures r.Bounded()
  {
    var rx := w.rt.socket.rx;
    if k < |w.rxHand| && |rx.items| < rx.capacity && |content| <= w.rt.pool.frameSize && |content| < POW32 &&
       w.rxHand[k] + |content| <= |w.rt.umem|
    then
      w.(rxHand := Remove(w.rxHand, k),
         rt := w.rt.(umem := Splice(w.rt.umem, w.rxHand[k], content),
                     socket := w.rt.socket.(rx := rx.(items := rx.items + [Xsk.Descriptor(w.rxHand[k], |content|, options)]))))
    else w
  }

  function StepWorld(w: World, action: Action): (r: World)
    requires w.Bounded()
    ensures r.Bounded()
  {
    match action
    case InitA(n) => w.(rt := Init(w.rt, n).0)
    case PollA(rules) => PollStep(w, rules)
    case TakeFill =>
      var (fill, taken) := w.rt.socket.fill.Consume(1);
      w.(rt := w.rt.(socket := w.rt.socket.(fill := fill)), rxHand := w.rxHand + taken)
    case InjectRx(k, content, options) => InjectStep(w, k, content, options)
    case TakeTx =>
      var (tx, taken) := w.rt.socket.tx.Consume(1);
      w.(rt := w.rt.(socket := w.rt.socket.(tx := tx)), txHand := w.txHand + DescriptorAddresses(taken))
    case CompleteTx(k) =>
      var completion := w.rt.socket.completion;
      if k < |w.txHand| && |completion.items| < completion.capacity then
        w.(txHand := Remove(w.txHand, k),
           rt := w.rt.(socket := w.rt.socket.(completion := completion.(items := completion.items + [w.txHand[k]]))))
      else w
  }

  function RunWorld(w: World, actions: seq<Action>): (r: World)
    requires w.Bounded()
    ensures r.Bounded()
    decreases |actions|
  {
    if actions == [] then w else RunWorld(StepWorld(w, actions[0]), actions[1..])
  }

  /** The invariant of every run: the books balance, no owner failure has ever been counted,
      each fill failure is one lost frame, and the wheel is a faithful schedule. */
  ghost predicate Safe(w: World) {
    && Balanced(StartPoll(w.rt), w.Outside(), NO_FLIGHT)
    && w.ownerFailures == 0
    && w.fillFailures == |w.lost|
    && w.trace.wheel == w.rt.wheel && Refines(w.trace)
  }

  // ---------------------------------------------------------------------------------------
  // init
  // ---------------------------------------------------------------------------------------

  lemma AllocateMoves(pool: Pool)
    requires pool.FreeListExact() && 0 < |pool.freeStack|
    ensures var (q, got) := pool.Allocate(FillRing);
            var x := got.frame.address;
            && got.status == FrameStatus.Ok && q.FreeListExact()
            && |q.freeStack| == |pool.freeStack| - 1 && |q.owners| == |pool.owners| && q.frameSize == pool.frameSize
            && OwnerAt(pool, x) == Free
            && (forall a: nat :: OwnerAt(q, a) == if a == x then FillRing else OwnerAt(pool, a))
            && q.Transition(got.frame, FillRing, Free).0 == pool
  {
    var (q, got) := pool.Allocate(FillRing);
    var index := pool.freeStack[|pool.freeStack| - 1];
    AllocateKeepsIff(pool, FillRing);
    ReleaseUndoesAllocate(pool, FillRing);
    MultipleDivides(index, pool.frameSize, |pool.owners|);
    assert pool.HandleFromAddress(got.frame.address) == Allocation(got.frame, FrameStatus.Ok);
    assert index in pool.freeStack;
    forall a: nat
      ensures OwnerAt(q, a) == if a == got.frame.address then FillRing else OwnerAt(pool, a)
    {
      OwnerAfterUpdate(pool, got.frame.address, FillRing, a);
    }
  }

  /** Posting a frame moves it from the free list to the fill ring. */
  lemma PostAgrees(rt: Adapter, o: Outside, pool: Pool, x: nat, a: nat)
    requires rt.Bounded() && 0 < pool.frameSize
    requires OwnerAt(rt.pool, x) == Free && AgreesAt(StartPoll(rt), o, NO_FLIGHT, a)
    requires OwnerAt(pool, a) == if a == x then FillRing else OwnerAt(rt.pool, a)
    ensures var ring := rt.socket.fill;
            var next := rt.(pool := pool, socket := rt.socket.(fill := ring.(items := ring.items + [x])));
            AgreesAt(StartPoll(next), o, NO_FLIGHT, a)
  {
    CountPush(rt.socket.fill.items, x, Id, a);
    PostedAgrees(OwnerAt(rt.pool, a), OwnerAt(pool, a), OnFill(StartPoll(rt), o, NO_FLIGHT, a),
                 OnPlane(StartPoll(rt), NO_FLIGHT, a), OnTx(StartPoll(rt), o, NO_FLIGHT, a), Lost(StartPoll(rt), o, a), a == x);
  }

  lemma PostedAgrees(before: FrameOwner, after: FrameOwner, fill: nat, plane: nat, tx: nat, lost: nat, posted: bool)
    requires Agrees(before, fill, plane, tx, lost) && (posted ==> before == Free)
    requires after == if posted then FillRing else before
    ensures Agrees(after, fill + if posted then 1 else 0, plane, tx, lost)
  {
  }

  /** The adapter after one frame is posted. */
  function Post(rt: Adapter): (r: Adapter)
    requires rt.Bounded() && 0 < |rt.pool.freeStack|
    requires |rt.socket.fill.items| < rt.socket.fill.capacity
    ensures r.Bounded()
  {
    var (pool, got) := rt.pool.Allocate(FillRing);
    var ring := rt.socket.fill;
    rt.(pool := pool, socket := rt.socket.(fill := ring.(items := ring.items + [got.frame.address])))
  }

  lemma PostKeeps(rt: Adapter, o: Outside)
    requires Balanced(StartPoll(rt), o, NO_FLIGHT) && 0 < |rt.pool.freeStack|
    requires |rt.socket.fill.items| < rt.socket.fill.capacity
    ensures Balanced(StartPoll(Post(rt)), o, NO_FLIGHT)
  {
    AllocateMoves(rt.pool);
    var (pool, got) := rt.pool.Allocate(FillRing);
    forall a: nat
      ensures AgreesAt(StartPoll(Post(rt)), o, NO_FLIGHT, a)
    {
      assert AgreesAt(StartPoll(rt), o, NO_FLIGHT, a);
      PostAgrees(rt, o, pool, got.frame.address, a);
    }
  }

  /** Only the rings, the wheel, the free list and the owners matter to the books. */
  lemma SameBooks(rt: Adapter, r: Adapter, o: Outside)
    requires Balanced(StartPoll(rt), o, NO_FLIGHT)
    requires r.socket == rt.socket && r.wheel == rt.wheel && SameTables(rt.pool, r.pool)
    ensures Balanced(StartPoll(r), o, NO_FLIGHT)
  {
    forall a: nat
      ensures AgreesAt(StartPoll(r), o, NO_FLIGHT, a)
    {
      assert AgreesAt(StartPoll(rt), o, NO_FLIGHT, a);
      assert OwnerAt(r.pool, a) == OwnerAt(rt.pool, a);
    }
  }

  /** What one pass of the posting loop does. */
  lemma InitLoopCases(rt: Adapter, remaining: nat)
    requires rt.Bounded() && rt.pool.FreeListExact() && remaining != 0
    ensures var (r, status) := InitLoop(rt, remaining);
            if 0 == |rt.pool.freeStack| || |rt.socket.fill.items| >= rt.socket.fill.capacity then
              && status != RuntimeStatus.Ok && r.socket == rt.socket && r.wheel == rt.wheel
              && SameTables(rt.pool, r.pool)
            else (r, status) == InitLoop(Post(rt), remaining - 1)
  {
    if 0 < |rt.pool.freeStack| {
      AllocateMoves(rt.pool);
      var ring, x := rt.socket.fill, rt.pool.Allocate(FillRing).1.frame.address;
      if |ring.items| < ring.capacity {
        assert ring.Produce([x]) == ring.(items := ring.items + [x]);
      }
    }
  }

  lemma {:induction false} InitLoopKeeps(rt: Adapter, o: Outside, remaining: nat)
    requires Balanced(StartPoll(rt), o, NO_FLIGHT)
    ensures var (r, status) := InitLoop(rt, remaining);
            && Balanced(StartPoll(r), o, NO_FLIGHT)
            && r.wheel == rt.wheel && r.socket.tx == rt.socket.tx
            && r.socket.fill.capacity == rt.socket.fill.capacity
            && (status == RuntimeStatus.Ok ==>
                  && InUse(r) == InUse(rt) + remaining && r.initialized
                  && |r.socket.fill.items| == |rt.socket.fill.items| + remaining)
    decreases remaining
  {
    var r := InitLoop(rt, remaining).0;
    if remaining == 0 {
      SameBooks(rt, r, o);
    } else {
      InitLoopCases(rt, remaining);
      if 0 < |rt.pool.freeStack| && |rt.socket.fill.items| < rt.socket.fill.capacity {
        PostKeeps(rt, o);
        AllocateMoves(rt.pool);
        InitLoopKeeps(Post(rt), o, remaining - 1);
      } else {
        SameBooks(rt, r, o);
      }
    }
  }

  // ---------------------------------------------------------------------------------------
  // The kernel's steps
  // ---------------------------------------------------------------------------------------

  lemma CountRemove(s: seq<nat>, k: nat, a: nat)
    requires k < |s|
    ensures Count(s, a) == Count(Remove(s, k), a) + if s[k] == a then 1 else 0
  {
    assert s == s[..k] + s[k..];
    CountConcat(s[..k], s[k..], Id, a);
    CountPop(s[k..], Id, a);
    assert s[k..][1..] == s[k + 1..];
    CountConcat(s[..k], s[k + 1..], Id, a);
  }

  lemma TakeFillKeeps(w: World)
    requires Safe(w)
    ensures Safe(StepWorld(w, TakeFill))
  {
    var r := StepWorld(w, TakeFill);
    var taken := w.rt.socket.fill.Consume(1).1;
    forall a: nat
      ensures AgreesAt(StartPoll(r.rt), r.Outside(), NO_FLIGHT, a)
    {
      assert AgreesAt(StartPoll(w.rt), w.Outside(), NO_FLIGHT, a);
      ConsumeSplits(w.rt.socket.fill, 1, Id, a);
      CountConcat(w.rxHand, taken, Id, a);
    }
    ConsumeSplits(w.rt.socket.fill, 1, Id, 0);
  }

  /** Frames taken off the TX ring are counted in the kernel's hand instead. */
  lemma TakenCounts(ring: RingModel<Descriptor>, hand: seq<nat>, a: nat)
    ensures var (rest, taken) := ring.Consume(1);
            var gained := hand + DescriptorAddresses(taken);
            && CountBy(rest.items, DescriptorKey, a) + Count(gained, a) ==
               CountBy(ring.items, DescriptorKey, a) + Count(hand, a)
            && |rest.items| + |gained| == |ring.items| + |hand| && |rest.items| <= |ring.items|
  {
    var taken := ring.Consume(1).1;
    ConsumeSplits(ring, 1, DescriptorKey, a);
    CountSame(taken, DescriptorAddresses(taken), DescriptorKey, a);
    CountConcat(hand, DescriptorAddresses(taken), Id, a);
  }

  lemma TakeTxKeeps(w: World)
    requires Safe(w)
    ensures Safe(StepWorld(w, TakeTx))
  {
    var r := StepWorld(w, TakeTx);
    forall a: nat
      ensures AgreesAt(StartPoll(r.rt), r.Outside(), NO_FLIGHT, a)
    {
      assert AgreesAt(StartPoll(w.rt), w.Outside(), NO_FLIGHT, a);
      TakenCounts(w.rt.socket.tx, w.txHand, a);
    }
    TakenCounts(w.rt.socket.tx, w.txHand, 0);
  }

  lemma InjectKeeps(w: World, k: nat, content: seq<Byte>, options: U32)
    requires Safe(w)
    ensures Safe(InjectStep(w, k, content, options))
  {
    var r := InjectStep(w, k, content, options);
    if r != w {
      var d := Xsk.Descriptor(w.rxHand[k], |content|, options);
      forall a: nat
        ensures AgreesAt(StartPoll(r.rt), r.Outside(), NO_FLIGHT, a)
      {
        assert AgreesAt(StartPoll(w.rt), w.Outside(), NO_FLIGHT, a);
        CountRemove(w.rxHand, k, a);
        CountPush(w.rt.socket.rx.items, d, DescriptorKey, a);
      }
    }
  }

  lemma CompleteKeeps(w: World, k: nat)
    requires Safe(w)
    ensures Safe(StepWorld(w, CompleteTx(k)))
  {
    var r := StepWorld(w, CompleteTx(k));
    if r != w {
      forall a: nat
        ensures AgreesAt(StartPoll(r.rt), r.Outside(), NO_FLIGHT, a)
      {
        assert AgreesAt(StartPoll(w.rt), w.Outside(), NO_FLIGHT, a);
        CountRemove(w.txHand, k, a);
        CountPush(w.rt.socket.completion.items, w.txHand[k], Id, a);
      }
    }
  }

  // ---------------------------------------------------------------------------------------
  // Polls: the wheel's history
  // ---------------------------------------------------------------------------------------

  /** The batch's wheel is the one it started from, with the operations made so far replayed. */
  ghost predicate Replays(b: DP.Batch, t: Trace)
    requires t.wheel.Bounded()
  {
    OnlySchedules(b.attempts) && b.wheel == Run(t, b.attempts).wheel
  }

  lemma ApplyReplays(b: DP.Batch, d: DP.PacketDescriptor, v: DP.Verdict, config: DP.BatchConfig, t: Trace)
    requires b.wheel.Bounded() && v.Fits(d, |b.umem|) && t.wheel.Bounded() && Replays(b, t)
    ensures Replays(DP.Apply(b, d, v, config), t)
  {
    var fate := ApplyOutcome(b, d, v, config);
    OutcomeReplays(b, DP.Apply(b, d, v, config), d, v, fate, config, t);
  }

  lemma OutcomeReplays(b: DP.Batch, r: DP.Batch, d: DP.PacketDescriptor, v: DP.Verdict, fate: DP.Fate,
                       config: DP.BatchConfig, t: Trace)
    requires 0 < |b.wheel.slots| && t.wheel.Bounded() && Replays(b, t) && Outcome(b, r, d, v, fate, config)
    ensures Replays(r, t)
  {
    WheelFollows(t, b.attempts, Asks(d, v, config.tickNs));
    assert b.attempts + [] == b.attempts;
  }

  /** Replaying a batch's attempts on the wheel it started from gives the wheel it ends with. */
  lemma {:induction false} AttemptsReplay(b: DP.Batch, rx: seq<DP.PacketDescriptor>, config: DP.BatchConfig, t: Trace)
    requires b.wheel.Bounded() && t.wheel.Bounded() && Replays(b, t)
    ensures Replays(DP.ProcessAll(b, rx, config), t)
    decreases |rx|
  {
    if rx == [] {
    } else {
      ApplyReplays(b, rx[0], DP.Judge(b.umem, rx[0], config), config, t);
      AttemptsReplay(DP.ProcessOne(b, rx[0], config), rx[1..], config, t);
    }
  }

  /** A poll ticks the wheel once, offers to TX exactly the frames due at that tick, in the
      order they were accepted, and stamps every frame it delays with its own number. */
  lemma PollFollowsSchedule(w: World, rules: seq<ChaosRule>)
    requires Safe(w) && w.rt.initialized
    ensures var r := PollStep(w, rules);
            var n := w.rt.wheel.now + 1;
            var drained := StartPoll(w.rt).DrainCompletions();
            var due := DueAt(w.trace.accepted, n);
            && r.trace.wheel == r.rt.wheel && Refines(r.trace) && r.rt.wheel.now == n
            && r.trace.returned == w.trace.returned + [due]
            && drained.ReleaseDelayed() ==
                 drained.(rt := drained.rt.(wheel := w.rt.wheel.Tick().0)).SubmitAll(DelayedKeys(due))
            && (forall i :: |w.trace.accepted| <= i < |r.trace.accepted| ==> r.trace.accepted[i].at == n)
  {
    var o := w.Outside();
    var start := StartPoll(w.rt);
    DrainKeeps(start, o);
    ReleaseKeeps(start.DrainCompletions(), o);
    var before := BeforeBatch(w.rt);
    ReceiveBatchKeeps(before, o);
    var (received, rx) := before.Receive();
    var ticked := Step(w.trace, TickOp);
    TickReturnsDue(w.trace);
    TickRefines(w.trace);
    assert received.rt.wheel == ticked.wheel;
    var first := DP.StartBatch(received.rt.umem, received.rt.wheel);
    AttemptsReplay(first, rx, PollConfig(rules), ticked);
    var b := PollBatch(w.rt, rules);
    RunRefines(ticked, b.attempts);
    SchedulesStamp(ticked, b.attempts);
    BatchKeeps(received, o, rx, rules);
    AfterBatchKeeps(received, o, b);
  }

  // ---------------------------------------------------------------------------------------
  // Every run
  // ---------------------------------------------------------------------------------------

  /** At the end of a poll its losses join the earlier ones. */
  lemma CloseBooks(p: Poll, o: Outside)
    requires Balanced(p, o, NO_FLIGHT)
    ensures Balanced(StartPoll(p.rt), o.(lost := o.lost + p.lost), NO_FLIGHT)
  {
    forall a: nat
      ensures AgreesAt(StartPoll(p.rt), o.(lost := o.lost + p.lost), NO_FLIGHT, a)
    {
      assert AgreesAt(p, o, NO_FLIGHT, a);
      CountConcat(o.lost, p.lost, Id, a);
    }
  }

  lemma PollStepKeeps(w: World, rules: seq<ChaosRule>)
    requires Safe(w)
    ensures Safe(PollStep(w, rules))
  {
    PollKeeps(w.rt, w.Outside(), rules);
    CloseBooks(PollOnce(w.rt, rules), w.Outside());
    if w.rt.initialized {
      PollFollowsSchedule(w, rules);
    }
  }

  /** What goes in comes out, in every poll of a running adapter: completions drained, frames
      received and frames whose delay ran out are refilled, submitted, delayed anew or lost. */
  lemma PollFlowBalance(w: World, rules: seq<ChaosRule>)
    requires Safe(w)
    ensures var p := PollOnce(w.rt, rules);
            && Flows(StartPoll(w.rt), p)
            && p.stats.fillFailures == |p.lost|
            && p.stats.txCompleted + p.stats.rxFrames + w.rt.wheel.pending ==
               p.stats.fillRefilled + p.stats.txSubmitted + p.stats.fillFailures + p.rt.wheel.pending
  {
    PollKeeps(w.rt, w.Outside(), rules);
  }

  lemma InitKeeps(w: World, n: nat)
    requires Safe(w)
    ensures Safe(StepWorld(w, InitA(n)))
  {
    if !w.rt.initialized {
      InitLoopKeeps(w.rt, w.Outside(), Min(n, w.rt.pool.FrameCount()));
    }
  }

  lemma StepKeeps(w: World, action: Action)
    requires Safe(w)
    ensures Safe(StepWorld(w, action))
  {
    match action
    case InitA(n) => InitKeeps(w, n);
    case PollA(rules) => PollStepKeeps(w, rules);
    case TakeFill => TakeFillKeeps(w);
    case InjectRx(k, content, options) => InjectKeeps(w, k, content, options);
    case TakeTx => TakeTxKeeps(w);
    case CompleteTx(k) => CompleteKeeps(w, k);
  }

  lemma {:induction false} RunKeeps(w: World, actions: seq<Action>)
    requires Safe(w)
    ensures Safe(RunWorld(w, actions))
    decreases |actions|
  {
    if actions == [] {
    } else {
      StepKeeps(w, actions[0]);
      RunKeeps(StepWorld(w, actions[0]), actions[1..]);
    }
  }

  lemma {:induction false} RunWorldConcat(w: World, a: seq<Action>, b: seq<Action>)
    requires w.Bounded()
    ensures RunWorld(w, a + b) == RunWorld(RunWorld(w, a), b)
    decreases |a|
  {
    if a == [] {
      assert a + b == b;
    } else {
      assert (a + b)[0] == a[0] && (a + b)[1..] == a[1..] + b;
      RunWorldConcat(StepWorld(w, a[0]), a[1..], b);
    }
  }

  lemma BootSafe(n: Sizes, umem: seq<Byte>)
    requires Sensible(n)
    ensures Safe(Boot(n, umem))
  {
    var w := Boot(n, umem);
    forall a: nat
      ensures AgreesAt(StartPoll(w.rt), w.Outside(), NO_FLIGHT, a)
    {
      ContentsOfEmpties(w.rt.wheel.slots, a);
      if w.rt.pool.HandleFromAddress(a).status == FrameStatus.Ok {
        HandleOf(w.rt.pool, a);
      }
    }
    FreshRefines(n.slots, n.perSlot);
  }

  /** How often an address is in the seven places a posted frame can be. */
  function Placed(w: World, a: nat): nat {
    Count(w.rt.socket.fill.items, a) + Count(w.rxHand, a) + CountBy(w.rt.socket.rx.items, DescriptorKey, a) +
    Contents(w.rt.wheel.slots, a) +
    CountBy(w.rt.socket.tx.items, DescriptorKey, a) + Count(w.txHand, a) + Count(w.rt.socket.completion.items, a)
  }

  /** Frame `i` is nowhere if it is free, and otherwise in exactly one of the seven places, the
      one its owner names, or lost. */
  ghost predicate FrameAccounted(w: World, i: nat)
    requires i < |w.rt.pool.owners|
  {
    var a, owner := i * w.rt.pool.frameSize, w.rt.pool.owners[i];
    var fill := Count(w.rt.socket.fill.items, a) + Count(w.rxHand, a) + CountBy(w.rt.socket.rx.items, DescriptorKey, a);
    var tx := CountBy(w.rt.socket.tx.items, DescriptorKey, a) + Count(w.txHand, a) + Count(w.rt.socket.completion.items, a);
    && Placed(w, a) + Count(w.lost, a) == (if owner == Free then 0 else 1)
    && (owner == FillRing <==> fill == 1)
    && (Contents(w.rt.wheel.slots, a) == 1 ==> owner == DataPlane)
    && (tx == 1 ==> owner == TxRing)
    && owner in {Free, FillRing, DataPlane, TxRing}
  }

  lemma SafeAccounts(w: World, i: nat)
    requires Safe(w) && i < |w.rt.pool.owners|
    ensures FrameAccounted(w, i)
  {
    var a := i * w.rt.pool.frameSize;
    assert AgreesAt(StartPoll(w.rt), w.Outside(), NO_FLIGHT, a);
    MultipleDivides(i, w.rt.pool.frameSize, |w.rt.pool.owners|);
    assert OwnerAt(w.rt.pool, a) == w.rt.pool.owners[i];
  }

  /** The main theorem, for every run of any adapter against any kernel, whatever the ring
      sizes and however often `init` is tried. Each frame in use is in exactly one of the
      seven places or is one of the lost frames; the allocator's owner agrees with the place;
      unposted frames stay free and are nowhere; `owner_failures` is never counted and
      `fill_failures` counts exactly the lost frames. */
  lemma FramesConserved(n: Sizes, umem: seq<Byte>, actions: seq<Action>, i: nat)
    requires Sensible(n) && i < n.frameCount
    ensures var w := RunWorld(Boot(n, umem), actions);
            && |w.rt.pool.owners| == n.frameCount && w.rt.pool.frameSize == n.frameSize
            && FrameAccounted(w, i)
            && w.ownerFailures == 0 && w.fillFailures == |w.lost|
  {
    var start := Boot(n, umem);
    BootSafe(n, umem);
    RunKeeps(start, actions);
    RunShape(start, actions);
    SafeAccounts(RunWorld(start, actions), i);
  }

  /** No run changes the number or the size of the frames. */
  lemma {:induction false} RunShape(w: World, actions: seq<Action>)
    requires Safe(w)
    ensures var r := RunWorld(w, actions);
            |r.rt.pool.owners| == |w.rt.pool.owners| && r.rt.pool.frameSize == w.rt.pool.frameSize
    decreases |actions|
  {
    if actions == [] {
    } else {
      StepKeeps(w, actions[0]);
      StepShape(w, actions[0]);
      RunShape(StepWorld(w, actions[0]), actions[1..]);
    }
  }

  lemma StepShape(w: World, action: Action)
    requires Safe(w)
    ensures var r := StepWorld(w, action);
            |r.rt.pool.owners| == |w.rt.pool.owners| && r.rt.pool.frameSize == w.rt.pool.frameSize
  {
    match action
    case InitA(n) => InitShape(w.rt, Min(n, w.rt.pool.FrameCount()));
    case PollA(rules) => PollKeeps(w.rt, w.Outside(), rules);
    case _ =>
  }

  lemma {:induction false} InitShape(rt: Adapter, remaining: nat)
    requires rt.Bounded()
    ensures var r := InitLoop(rt, remaining).0;
            |r.pool.owners| == |rt.pool.owners| && r.pool.frameSize == rt.pool.frameSize
    decreases remaining
  {
    if remaining == 0 {
    } else {
      var (pool, allocation) := rt.pool.Allocate(FillRing);
      if allocation.status == FrameStatus.Ok && rt.socket.fill.Room(1) == 1 {
        InitShape(rt.(pool := pool, socket := rt.socket.(fill := rt.socket.fill.Produce([allocation.frame.address]))),
                  remaining - 1);
      }
    }
  }

  lemma {:induction false} InitLeavesOthers(rt: Adapter, remaining: nat)
    requires rt.Bounded()
    ensures var r := InitLoop(rt, remaining).0;
            && r.umem == rt.umem && r.wheel == rt.wheel
            && r.socket == rt.socket.(fill := r.socket.fill)
    decreases remaining
  {
    if remaining == 0 {
    } else {
      var (pool, allocation) := rt.pool.Allocate(FillRing);
      if allocation.status == FrameStatus.Ok && rt.socket.fill.Room(1) == 1 {
        InitLeavesOthers(rt.(pool := pool,
                             socket := rt.socket.(fill := rt.socket.fill.Produce([allocation.frame.address]))),
                         remaining - 1);
      }
    }
  }

  /** An initialised world with ample rings that has lost nothing. */
  ghost predicate Lossless(w: World, posted: nat) {
    Safe(w) && w.rt.initialized && InUse(w.rt) == posted && Ample(w.rt) && w.lost == []
  }

  lemma StepLossless(w: World, action: Action, posted: nat)
    requires Lossless(w, posted)
    ensures Lossless(StepWorld(w, action), posted)
  {
    StepKeeps(w, action);
    match action
    case PollA(rules) => PollKeeps(w.rt, w.Outside(), rules);
    case _ =>
  }

  lemma {:induction false} RunLossless(w: World, actions: seq<Action>, posted: nat)
    requires Lossless(w, posted)
    ensures Lossless(RunWorld(w, actions), posted)
    decreases |actions|
  {
    if actions == [] {
    } else {
      StepLossless(w, actions[0], posted);
      RunLossless(StepWorld(w, actions[0]), actions[1..], posted);
    }
  }

  /** After a first `init` that succeeds, with a TX ring at least as large as the number of
      frames posted, no run ever counts a fill failure or loses a frame: the successful `init`
      itself shows that the posted frames fit the fill ring, and the books leave no room for
      either ring to be full when a frame is on its way to it. */
  lemma NothingIsLost(n: Sizes, umem: seq<Byte>, initialFillFrames: nat, actions: seq<Action>)
    requires Sensible(n)
    requires Init(Boot(n, umem).rt, initialFillFrames).1 == RuntimeStatus.Ok
    requires Min(initialFillFrames, n.frameCount) <= n.tx
    ensures var w := RunWorld(StepWorld(Boot(n, umem), InitA(initialFillFrames)), actions);
            w.lost == [] && w.fillFailures == 0 && w.ownerFailures == 0 &&
            InUse(w.rt) == Min(initialFillFrames, n.frameCount) <= n.fill
  {
    var start := Boot(n, umem);
    BootSafe(n, umem);
    InitKeeps(start, initialFillFrames);
    InitLoopKeeps(start.rt, start.Outside(), Min(initialFillFrames, n.frameCount));
    var w := StepWorld(start, InitA(initialFillFrames));
    RunLossless(w, actions, Min(initialFillFrames, n.frameCount));
  }

  /** When `init` on a fresh adapter succeeds: exactly when the fill ring holds the frames. */
  lemma InitSucceedsIff(n: Sizes, umem: seq<Byte>, initialFillFrames: nat)
    requires Sensible(n)
    ensures Init(Boot(n, umem).rt, initialFillFrames).1 == RuntimeStatus.Ok <==>
              Min(initialFillFrames, n.frameCount) <= n.fill
  {
    BootSafe(n, umem);
    InitLoopSucceedsIff(Boot(n, umem).rt, Min(initialFillFrames, n.frameCount));
  }

  lemma {:induction false} InitLoopSucceedsIff(rt: Adapter, remaining: nat)
    requires rt.Bounded() && rt.pool.FreeListExact() && remaining <= |rt.pool.freeStack|
    ensures InitLoop(rt, remaining).1 == RuntimeStatus.Ok <==>
              |rt.socket.fill.items| + remaining <= rt.socket.fill.capacity
    decreases remaining
  {
    if remaining == 0 {
    } else {
      InitLoopCases(rt, remaining);
      if |rt.socket.fill.items| < rt.socket.fill.capacity {
        AllocateMoves(rt.pool);
        InitLoopSucceedsIff(Post(rt), remaining - 1);
      }
    }
  }

  /** A frame delayed by `d` ticks in poll `n` is among those offered to TX in poll
      `n + max(1, d)`, and in no other poll so far; `trace.returned[t]` is what poll `t + 1`
      offered, by PollFollowsSchedule. */
  lemma DelayedFramesReturnOnTime(n: Sizes, umem: seq<Byte>, actions: seq<Action>, i: nat, t: nat)
    requires Sensible(n)
    requires var w := RunWorld(Boot(n, umem), actions); i < |w.trace.accepted| && t < |w.trace.returned|
    ensures var w := RunWorld(Boot(n, umem), actions);
            var e := w.trace.accepted[i];
            && |w.trace.returned| == w.rt.wheel.now
            && (e.Entry() in w.trace.returned[t] <==> t + 1 == e.at + if e.delay == 0 then 1 else e.delay)
  {
    var start := Boot(n, umem);
    BootSafe(n, umem);
    RunKeeps(start, actions);
    DueAtMembers(RunWorld(start, actions).trace.accepted, t + 1, i);
  }

  // ---------------------------------------------------------------------------------------
  // When frames are lost
  // ---------------------------------------------------------------------------------------

  /** What overflows a ring with room for `room` more. */
  function Overflow(keys: seq<nat>, room: nat): seq<nat> {
    keys[Min(room, |keys|)..]
  }

  lemma OverflowStep(keys: seq<nat>, room: nat)
    requires keys != []
    ensures 0 < room ==> Overflow(keys, room) == Overflow(keys[1..], room - 1)
    ensures 0 == room ==> Overflow(keys, room) == [keys[0]] + Overflow(keys[1..], room)
  {
  }

  function TxRoom(p: Poll): nat
    requires p.Bounded()
  {
    p.rt.socket.tx.capacity - |p.rt.socket.tx.items|
  }

  lemma SubmitHead(p: Poll, o: Outside, f: Flight, addresses: seq<nat>, length: U32)
    requires addresses != [] && Balanced(p, o, f.(plane := addresses))
    ensures var r := p.SubmitOne(addresses[0], length);
            && Balanced(r, o, f.(plane := addresses[1..]))
            && r.lost == (if 0 < TxRoom(p) then p.lost else p.lost + [addresses[0]])
            && TxRoom(r) == if 0 < TxRoom(p) then TxRoom(p) - 1 else 0
  {
    SubmitKeeps(p, o, f, addresses, length);
    HeadIsOwned(p, o, f, DataPlane, addresses);
    SubmitCases(p, addresses[0], length);
  }

  lemma Regroup(lost: seq<nat>, keys: seq<nat>, room: nat, next: seq<nat>, all: seq<nat>)
    requires keys != []
    requires next == if 0 < room then lost else lost + [keys[0]]
    requires all == next + Overflow(keys[1..], if 0 < room then room - 1 else 0)
    ensures all == lost + Overflow(keys, room)
  {
    OverflowStep(keys, room);
  }

  /** Submitting frames of the data plane loses exactly those the TX ring has no room for,
      which is why ample TX room cannot be dispensed with. */
  lemma {:induction false} SubmitAllLoses(p: Poll, o: Outside, f: Flight, frames: seq<(nat, U32)>, rest: seq<nat>)
    requires Balanced(p, o, f.(plane := KeyAddresses(frames) + rest))
    ensures p.SubmitAll(frames).lost == p.lost + Overflow(KeyAddresses(frames), TxRoom(p))
    decreases |frames|
  {
    var keys := KeyAddresses(frames);
    if frames == [] {
      assert p.lost + [] == p.lost;
    } else {
      var addresses := keys + rest;
      assert keys[1..] == KeyAddresses(frames[1..]);
      assert addresses[1..] == keys[1..] + rest;
      SubmitHead(p, o, f, addresses, frames[0].1);
      var next := p.SubmitOne(frames[0].0, frames[0].1);
      SubmitAllLoses(next, o, f, frames[1..], rest);
      Regroup(p.lost, keys, TxRoom(p), next.lost, p.SubmitAll(frames).lost);
    }
  }
}
