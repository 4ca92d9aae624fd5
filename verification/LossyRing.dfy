/** The TX-capacity hypothesis of `Lifecycle.NothingIsLost` is exact: with a smaller TX ring
    there is a run, of plain packets and no rules, that loses a frame. */
module LossyRing {
  import opened Machine
  import opened FrameAllocation
  import Xsk = XskSocket
  import opened TimingWheels
  import opened PacketParser
  import opened ChaosEngine
  import opened Decisions
  import opened TestPackets
  import DP = DataPlane
  import opened Runtime
  import opened Ledger
  import opened Lifecycle

  const PROBE: seq<Byte> := TestPacket(80, 0)

  /** One frame through the adapter: the kernel takes it, fills it and returns it; a poll
      sends it. Nobody empties the TX ring. */
  const ROUND: seq<Action> := [TakeFill, InjectRx(0, PROBE, 0), PollA([])]

  function Repeat(actions: seq<Action>, k: nat): seq<Action> {
    if k == 0 then [] else actions + Repeat(actions, k - 1)
  }

  /** Between rounds: frames only on the fill ring, on the TX ring, or lost. */
  ghost predicate Idle(w: World) {
    && Safe(w) && w.rt.initialized
    && w.rxHand == [] && w.rt.socket.rx.items == [] && w.rt.socket.completion.items == []
    && w.rt.wheel.pending == 0
    && 1 <= w.rt.socket.rx.capacity && HEADER_BYTES <= w.rt.pool.frameSize
    && |w.rt.umem| == |w.rt.pool.owners| * w.rt.pool.frameSize
  }

  /** A frame on the fill ring lies wholly inside UMEM. */
  lemma HeadInUmem(w: World)
    requires Idle(w) && w.rt.socket.fill.items != []
    ensures w.rt.socket.fill.items[0] + HEADER_BYTES <= |w.rt.umem|
    ensures OwnerAt(w.rt.pool, w.rt.socket.fill.items[0]) == FillRing
  {
    var x := w.rt.socket.fill.items[0];
    assert AgreesAt(StartPoll(w.rt), w.Outside(), NO_FLIGHT, x);
    CountHead(w.rt.socket.fill.items, x);
    HandleOf(w.rt.pool, x);
    FrameFits(w.rt.pool.HandleFromAddress(x).frame.index, |w.rt.pool.owners|, w.rt.pool.frameSize, x);
  }

  lemma FrameFits(i: nat, frames: nat, size: nat, x: nat)
    requires i < frames && i * size == x
    ensures x + size <= frames * size
  {
    MulLe(i + 1, frames, size);
    assert (i + 1) * size == x + size;
  }

  /** The world with the head frame filled with the probe and back on the RX ring. */
  ghost function Delivered(w: World): World
    requires Idle(w) && w.rt.socket.fill.items != []
  {
    HeadInUmem(w);
    var x, fill := w.rt.socket.fill.items[0], w.rt.socket.fill;
    w.(rt := w.rt.(umem := Splice(w.rt.umem, x, PROBE),
                   socket := w.rt.socket.(fill := fill.(items := fill.items[1..]),
                                          rx := w.rt.socket.rx.(items := [Xsk.Descriptor(x, HEADER_BYTES, 0)]))))
  }

  lemma DeliveredReached(w: World)
    requires Idle(w) && w.rt.socket.fill.items != []
    ensures var taken := StepWorld(w, TakeFill);
            StepWorld(taken, InjectRx(0, PROBE, 0)) == Delivered(w)
    ensures Safe(Delivered(w))
  {
    HeadInUmem(w);
    var x := w.rt.socket.fill.items[0];
    var taken := StepWorld(w, TakeFill);
    assert w.rt.socket.fill.items[..1] == [x];
    assert taken.rxHand == [x];
    assert Remove(taken.rxHand, 0) == [];
    assert w.rt.socket.rx.items + [Xsk.Descriptor(x, HEADER_BYTES, 0)] == [Xsk.Descriptor(x, HEADER_BYTES, 0)];
    TakeFillKeeps(w);
    InjectKeeps(taken, 0, PROBE, 0);
  }

  lemma NothingToDrain(p: Poll)
    requires p.Bounded() && p.rt.socket.completion.items == []
    ensures p.DrainCompletions() == p
  {
    assert p.rt.socket.completion.Consume(DP.BATCH_SIZE).0 == p.rt.socket.completion;
    assert p.rt.socket.completion.Consume(DP.BATCH_SIZE).1 == [];
  }

  lemma NothingDue(p: Poll)
    requires p.Bounded() && p.rt.wheel.pending == 0
    ensures p.ReleaseDelayed() == p.(rt := p.rt.(wheel := p.rt.wheel.Tick().0))
    ensures p.rt.wheel.Tick().0.pending == 0
  {
    var k := p.rt.wheel.SlotIndex(p.rt.wheel.now + 1);
    SumAtLeastSlot(p.rt.wheel.slots, k);
    assert p.rt.wheel.Tick().1 == [];
    assert DelayedKeys([]) == [];
  }

  lemma ProbeVerdict(umem: seq<Byte>, x: nat)
    requires x + HEADER_BYTES <= |umem| && umem[x..x + HEADER_BYTES] == PROBE
    ensures var v := DP.Judge(umem, DP.PacketDescriptor(x, HEADER_BYTES, 0), PollConfig([]));
            v.valid && v.packet.status == ParseStatus.Ok && v.decision == PASS_DECISION
  {
    TestPacketParses(80, 0);
  }

  lemma PassedOn(b: DP.Batch, d: DP.PacketDescriptor, v: DP.Verdict, config: DP.BatchConfig)
    requires b.wheel.Bounded() && v.Fits(d, |b.umem|) && |b.tx| < config.txCapacity
    requires v.valid && v.packet.status == ParseStatus.Ok && v.decision == PASS_DECISION
    ensures var r := DP.Apply(b, d, v, config);
            && r.wheel == b.wheel && |r.umem| == |b.umem| && r.recycle == b.recycle
            && r.tx == b.tx + [DP.ProcessedFrame(d.address, d.length, 0, PASS)]
  {
  }

  lemma BatchOfOne(umem: seq<Byte>, wheel: WheelModel, d: DP.PacketDescriptor, config: DP.BatchConfig)
    requires wheel.Bounded()
    ensures DP.ProcessBatch(umem, wheel, [d], config) ==
            DP.Apply(DP.StartBatch(umem, wheel), d, DP.Judge(umem, d, config), config)
  {
    var start := DP.StartBatch(umem, wheel);
    var b := DP.ProcessOne(start, d, config);
    assert [d][1..] == [] && DP.ProcessAll(b, [], config) == b;
    assert DP.ProcessAll(start, [d], config) == DP.ProcessAll(b, [d][1..], config);
  }

  /** With no rules, the probe is sent on. */
  lemma ProbeIsSent(umem: seq<Byte>, wheel: WheelModel, x: nat)
    requires wheel.Bounded() && x + HEADER_BYTES <= |umem| && umem[x..x + HEADER_BYTES] == PROBE
    ensures var b := DP.ProcessBatch(umem, wheel, [DP.PacketDescriptor(x, HEADER_BYTES, 0)], PollConfig([]));
            && b.wheel == wheel && |b.umem| == |umem|
            && b.tx == [DP.ProcessedFrame(x, HEADER_BYTES, 0, PASS)] && b.recycle == []
  {
    var d, config := DP.PacketDescriptor(x, HEADER_BYTES, 0), PollConfig([]);
    ProbeVerdict(umem, x);
    BatchOfOne(umem, wheel, d, config);
    PassedOn(DP.StartBatch(umem, wheel), d, DP.Judge(umem, d, config), config);
  }

  lemma BeforeBatchIdle(rt: Adapter)
    requires rt.Bounded() && rt.socket.completion.items == [] && rt.wheel.pending == 0
    ensures BeforeBatch(rt) == StartPoll(rt.(wheel := rt.wheel.Tick().0))
    ensures rt.wheel.Tick().0.pending == 0
  {
    NothingToDrain(StartPoll(rt));
    NothingDue(StartPoll(rt));
  }

  /** Receiving from a ring that holds one frame. */
  lemma ReceiveSingle(p: Poll, d: Descriptor)
    requires p.Bounded() && p.rt.pool.FreeListExact() && OwnerAt(p.rt.pool, d.address) == FillRing
    requires p.rt.socket.rx.items == [d]
    ensures var (r, rx) := p.Receive();
            && rx == [DP.PacketDescriptor(d.address, d.length, d.options)]
            && r.lost == p.lost
            && r.rt == p.rt.(pool := r.rt.pool, socket := p.rt.socket.(rx := p.rt.socket.rx.(items := [])))
  {
    var (rx, got) := p.rt.socket.rx.Consume(DP.BATCH_SIZE);
    assert got == [d] && rx == p.rt.socket.rx.(items := []);
    var q := p.(rt := p.rt.(socket := p.rt.socket.(rx := rx)), stats := p.stats.(rxFrames := 1));
    ReceivedAlone(q, d);
  }

  lemma ReceivedAlone(q: Poll, d: Descriptor)
    requires q.Bounded() && q.rt.pool.FreeListExact() && OwnerAt(q.rt.pool, d.address) == FillRing
    ensures var (r, rx) := q.ReceiveAll([d]);
            && rx == [DP.PacketDescriptor(d.address, d.length, d.options)]
            && r == q.(rt := q.rt.(pool := r.rt.pool))
  {
    TransitionMoves(q.rt.pool, d.address, DataPlane);
    var (next, first) := q.ReceiveOne(d);
    assert [d][1..] == [];
    assert next.ReceiveAll([]) == (next, []);
    assert first + [] == first;
  }

  /** The poll of a round, up to the data plane. */
  lemma ProbeReceived(rt: Adapter, o: Outside, x: nat)
    requires Balanced(StartPoll(rt), o, NO_FLIGHT) && OwnerAt(rt.pool, x) == FillRing
    requires rt.socket.completion.items == [] && rt.wheel.pending == 0
    requires rt.socket.rx.items == [Xsk.Descriptor(x, HEADER_BYTES, 0)]
    ensures var (r, rx) := BeforeBatch(rt).Receive();
            && rx == [DP.PacketDescriptor(x, HEADER_BYTES, 0)]
            && r.lost == [] && Balanced(r, o, NO_FLIGHT.(plane := [x]))
            && r.rt == rt.(wheel := rt.wheel.Tick().0, pool := r.rt.pool,
                           socket := rt.socket.(rx := rt.socket.rx.(items := [])))
  {
    BeforeBatchIdle(rt);
    DrainKeeps(StartPoll(rt), o);
    NothingToDrain(StartPoll(rt));
    ReleaseKeeps(StartPoll(rt), o);
    ReceiveBatchKeeps(BeforeBatch(rt), o);
    ReceiveSingle(BeforeBatch(rt), Xsk.Descriptor(x, HEADER_BYTES, 0));
    assert PacketAddresses([DP.PacketDescriptor(x, HEADER_BYTES, 0)]) == [x];
  }

  /** The poll of a round, after the data plane: the frame is sent or lost. */
  lemma ProbeSubmitted(p: Poll, o: Outside, x: nat, b: DP.Batch)
    requires p.Bounded() && b.wheel.Bounded() && p.lost == []
    requires Balanced(p.WithBatch(b), o, NO_FLIGHT.(plane := [x]))
    requires b.tx == [DP.ProcessedFrame(x, HEADER_BYTES, 0, PASS)] && b.recycle == []
    ensures var r, ring := AfterBatch(p, b), p.rt.socket.tx;
            if |ring.items| < ring.capacity then
              && r.lost == []
              && r.rt == p.rt.(umem := b.umem, wheel := b.wheel, pool := r.rt.pool,
                               socket := p.rt.socket.(tx := r.rt.socket.tx, kicks := r.rt.socket.kicks))
              && r.rt.socket.tx.capacity == ring.capacity && |r.rt.socket.tx.items| == |ring.items| + 1
            else
              r.lost == [x] && r.rt == p.rt.(umem := b.umem, wheel := b.wheel)
  {
    var q := p.WithBatch(b);
    HeadIsOwned(q, o, NO_FLIGHT, DataPlane, [x]);
    SubmitCases(q, x, HEADER_BYTES);
    assert ProcessedKeys(b.tx) == [(x, HEADER_BYTES as U32)];
    var r := q.SubmitOne(x, HEADER_BYTES);
    assert q.SubmitAll(ProcessedKeys(b.tx)) == r by {
      assert ProcessedKeys(b.tx)[1..] == [];
      assert r.SubmitAll([]) == r;
    }
    assert ProcessedAddresses(b.recycle) == [];
    assert r.RefillAll([], DataPlane) == r;
  }

  /** The poll of a round, through the data plane. */
  lemma ProbeProcessed(rt: Adapter, o: Outside, x: nat, p: Poll, rx: seq<DP.PacketDescriptor>, b: DP.Batch)
    requires Balanced(StartPoll(rt), o, NO_FLIGHT) && OwnerAt(rt.pool, x) == FillRing
    requires rt.socket.completion.items == [] && rt.wheel.pending == 0
    requires rt.socket.rx.items == [Xsk.Descriptor(x, HEADER_BYTES, 0)]
    requires x + HEADER_BYTES <= |rt.umem| && rt.umem[x..x + HEADER_BYTES] == PROBE
    requires (p, rx) == BeforeBatch(rt).Receive() && b == p.Batch([], rx)
    ensures p.lost == [] && p.rt.initialized == rt.initialized && |b.umem| == |rt.umem| && b.wheel.pending == 0
    ensures p.rt.socket == rt.socket.(rx := rt.socket.rx.(items := []))
    ensures b.tx == [DP.ProcessedFrame(x, HEADER_BYTES, 0, PASS)] && b.recycle == []
    ensures Balanced(p.WithBatch(b), o, NO_FLIGHT.(plane := [x]))
  {
    ProbeReceived(rt, o, x);
    BeforeBatchIdle(rt);
    ProbeIsSent(p.rt.umem, p.rt.wheel, x);
    ProbeBalanced(p, o, x, rx, b);
  }

  lemma ProbeBalanced(p: Poll, o: Outside, x: nat, rx: seq<DP.PacketDescriptor>, b: DP.Batch)
    requires Balanced(p, o, NO_FLIGHT.(plane := [x])) && b == p.Batch([], rx)
    requires rx == [DP.PacketDescriptor(x, HEADER_BYTES, 0)]
    requires b.tx == [DP.ProcessedFrame(x, HEADER_BYTES, 0, PASS)] && b.recycle == []
    ensures Balanced(p.WithBatch(b), o, NO_FLIGHT.(plane := [x]))
  {
    assert PacketAddresses(rx) == [x];
    BatchKeeps(p, o, rx, []);
    assert Leaving(b) == [x];
  }

  /** The poll of a round. */
  lemma ProbePolled(w: World, x: nat)
    requires Safe(w) && w.rt.initialized && OwnerAt(w.rt.pool, x) == FillRing
    requires w.rt.socket.completion.items == [] && w.rt.wheel.pending == 0
    requires w.rt.socket.rx.items == [Xsk.Descriptor(x, HEADER_BYTES, 0)]
    requires x + HEADER_BYTES <= |w.rt.umem| && w.rt.umem[x..x + HEADER_BYTES] == PROBE
    ensures var r, ring := PollOnce(w.rt, []), w.rt.socket.tx;
            && r.rt.initialized && |r.rt.umem| == |w.rt.umem| && r.rt.wheel.pending == 0
            && r.rt.socket == w.rt.socket.(rx := w.rt.socket.rx.(items := []), tx := r.rt.socket.tx,
                                           kicks := r.rt.socket.kicks)
            && r.rt.socket.tx.capacity == ring.capacity
            && |r.rt.socket.tx.items| == Min(|ring.items| + 1, ring.capacity)
            && |r.lost| == if |ring.items| < ring.capacity then 0 else 1
  {
    var (p, rx) := BeforeBatch(w.rt).Receive();
    var b := p.Batch([], rx);
    ProbeProcessed(w.rt, w.Outside(), x, p, rx, b);
    ProbeSubmitted(p, w.Outside(), x, b);
  }

  /** A round takes one frame off the fill ring, and sends it or loses it. */
  lemma RoundSendsOrLoses(w: World)
    requires Idle(w) && w.rt.socket.fill.items != []
    ensures Idle(RunWorld(w, ROUND)) && SentOrLost(w, RunWorld(w, ROUND))
  {
    var x := w.rt.socket.fill.items[0];
    HeadInUmem(w);
    DeliveredReached(w);
    var d := Delivered(w);
    ProbePolled(d, x);
    PollStepKeeps(d, []);
    StepShape(d, PollA([]));
    RunThree(w, TakeFill, InjectRx(0, PROBE, 0), PollA([]));
  }

  lemma RunThree(w: World, a: Action, b: Action, c: Action)
    requires w.Bounded()
    ensures RunWorld(w, [a, b, c]) == StepWorld(StepWorld(StepWorld(w, a), b), c)
  {
    assert [a, b, c][1..] == [b, c] && [b, c][1..] == [c] && [c][1..] == [];
    var u := StepWorld(w, a);
    var v := StepWorld(u, b);
    assert RunWorld(v, [c]) == RunWorld(StepWorld(v, c), []);
    assert RunWorld(u, [b, c]) == RunWorld(v, [c]);
    assert RunWorld(w, [a, b, c]) == RunWorld(u, [b, c]);
  }

  /** One frame leaves the fill ring, and the TX ring takes it or it is lost. */
  ghost predicate SentOrLost(w: World, r: World) {
    && |r.rt.socket.fill.items| == |w.rt.socket.fill.items| - 1
    && r.rt.socket.tx.capacity == w.rt.socket.tx.capacity
    && |r.rt.socket.tx.items| == Min(|w.rt.socket.tx.items| + 1, w.rt.socket.tx.capacity)
    && |r.lost| == |w.lost| + if |w.rt.socket.tx.items| < w.rt.socket.tx.capacity then 0 else 1
  }

  /** The same for `k` frames: the TX ring takes as many as it has room for. */
  ghost predicate SentOrLostMany(w: World, r: World, k: nat) {
    && |r.rt.socket.fill.items| == |w.rt.socket.fill.items| - k
    && r.rt.socket.tx.capacity == w.rt.socket.tx.capacity
    && |r.rt.socket.tx.items| == Min(|w.rt.socket.tx.items| + k, w.rt.socket.tx.capacity)
    && |r.lost| - |w.lost| == |w.rt.socket.tx.items| + k - |r.rt.socket.tx.items|
  }

  lemma OneAndMany(w: World, next: World, r: World, k: nat)
    requires SentOrLost(w, next) && SentOrLostMany(next, r, k)
    requires |w.rt.socket.tx.items| <= w.rt.socket.tx.capacity
    ensures SentOrLostMany(w, r, k + 1)
  {
  }

  /** `k` rounds lead from one world to the other. */
  ghost predicate Reaches(w: World, k: nat, r: World)
    requires w.Bounded()
    decreases k
  {
    if k == 0 then r == w else Reaches(RunWorld(w, ROUND), k - 1, r)
  }

  lemma {:induction false} RepeatReaches(w: World, k: nat)
    requires w.Bounded()
    ensures Reaches(w, k, RunWorld(w, Repeat(ROUND, k)))
    decreases k
  {
    if k == 0 {
    } else {
      RepeatReaches(RunWorld(w, ROUND), k - 1);
      RunWorldConcat(w, ROUND, Repeat(ROUND, k - 1));
    }
  }

  lemma RoundIs(w: World, next: World)
    requires Idle(w) && w.rt.socket.fill.items != [] && next == RunWorld(w, ROUND)
    ensures Idle(next) && SentOrLost(w, next) && |w.rt.socket.tx.items| <= w.rt.socket.tx.capacity
  {
    RoundSendsOrLoses(w);
  }

  lemma NoRounds(w: World, r: World)
    requires Idle(w) && Reaches(w, 0, r)
    ensures SentOrLostMany(w, r, 0)
  {
  }

  lemma OneRound(w: World, k: nat, r: World) returns (next: World)
    requires Idle(w) && 0 < k <= |w.rt.socket.fill.items| && Reaches(w, k, r)
    ensures Idle(next) && SentOrLost(w, next) && |w.rt.socket.tx.items| <= w.rt.socket.tx.capacity
    ensures Reaches(next, k - 1, r)
  {
    next := RunWorld(w, ROUND);
    RoundIs(w, next);
  }

  lemma {:induction false} RoundsLose(w: World, k: nat, r: World)
    requires Idle(w) && k <= |w.rt.socket.fill.items| && Reaches(w, k, r)
    ensures SentOrLostMany(w, r, k)
    decreases k
  {
    if k == 0 {
      NoRounds(w, r);
    } else {
      var next := OneRound(w, k, r);
      RoundsLose(next, k - 1, r);
      OneAndMany(w, next, r, k - 1);
    }
  }

  /** The bound of NothingIsLost is exact. After a successful first `init` on an adapter whose
      RX ring has a slot and whose frames can hold a packet, whenever more frames are posted
      than the TX ring holds, as many rounds as there are posted frames lose precisely the
      excess. */
  lemma SmallTxRingLoses(n: Sizes, umem: seq<Byte>, initialFillFrames: nat)
    requires Sensible(n) && 1 <= n.rx && HEADER_BYTES <= n.frameSize && |umem| == n.frameCount * n.frameSize
    requires Init(Boot(n, umem).rt, initialFillFrames).1 == RuntimeStatus.Ok
    requires Min(initialFillFrames, n.frameCount) > n.tx
    ensures var posted := Min(initialFillFrames, n.frameCount);
            var w := RunWorld(StepWorld(Boot(n, umem), InitA(initialFillFrames)), Repeat(ROUND, posted));
            |w.lost| == posted - n.tx > 0
  {
    var start := Boot(n, umem);
    var posted := Min(initialFillFrames, n.frameCount);
    BootSafe(n, umem);
    InitKeeps(start, initialFillFrames);
    InitLoopKeeps(start.rt, start.Outside(), posted);
    InitLeavesOthers(start.rt, posted);
    StepShape(start, InitA(initialFillFrames));
    var w := StepWorld(start, InitA(initialFillFrames));
    RepeatReaches(w, posted);
    RoundsLose(w, posted, RunWorld(w, Repeat(ROUND, posted)));
  }
}
