/** The AF_XDP runtime adapter on values: `init` and `poll_once` over the frame pool, the
    socket's rings, the timing wheel and UMEM. */
module Runtime {
  import opened Machine
  import opened FrameAllocation
  import Xsk = XskSocket
  import opened TimingWheels
  import opened ChaosEngine
  import DP = DataPlane

  type Descriptor = Xsk.Descriptor

  datatype RuntimeStatus = Ok | AlreadyInitialized | NotInitialized | FrameAllocationFailed | RingFull

  datatype PollStats = PollStats(
    rxFrames: nat,
    txSubmitted: nat,
    txCompleted: nat,
    fillRefilled: nat,
    fillFailures: nat,
    ownerFailures: nat,
    dataPlane: DP.BatchStats)

  const NO_POLL_STATS := PollStats(0, 0, 0, 0, 0, 0, DP.NO_STATS)

  datatype Adapter = Adapter(
    pool: Pool,
    socket: Xsk.SocketModel,
    wheel: WheelModel,
    umem: seq<Byte>,
    initialized: bool)
  {
    ghost predicate Bounded() {
      pool.Bounded() && socket.Bounded() && wheel.Bounded()
    }
  }

  // ---------------------------------------------------------------------------------------
  // init
  // ---------------------------------------------------------------------------------------

  /** Post frames until `remaining` is used up; a full ring or an empty pool stops early. */
  function InitLoop(rt: Adapter, remaining: nat): (r: (Adapter, RuntimeStatus))
    requires rt.Bounded()
    ensures r.0.Bounded()
    decreases remaining
  {
    if remaining == 0 then (rt.(initialized := true), RuntimeStatus.Ok)
    else
      var (pool, allocation) := rt.pool.Allocate(FillRing);
      if allocation.status != FrameStatus.Ok then (rt.(pool := pool), FrameAllocationFailed)
      else if rt.socket.fill.Room(1) != 1 then
        (rt.(pool := pool.Transition(allocation.frame, FillRing, Free).0), RingFull)
      else
        InitLoop(rt.(pool := pool, socket := rt.socket.(fill := rt.socket.fill.Produce([allocation.frame.address]))),
                 remaining - 1)
  }

  function Init(rt: Adapter, initialFillFrames: nat): (r: (Adapter, RuntimeStatus))
    requires rt.Bounded()
    ensures r.0.Bounded()
  {
    if rt.initialized then (rt, AlreadyInitialized)
    else InitLoop(rt, Min(initialFillFrames, rt.pool.FrameCount()))
  }

  // ---------------------------------------------------------------------------------------
  // poll_once
  // ---------------------------------------------------------------------------------------

  /** A poll in progress. `lost` is history: the frames whose ring was full, which a roll-back
      leaves in no ring. */
  datatype Poll = Poll(rt: Adapter, stats: PollStats, lost: seq<nat>)
  {
    ghost predicate Bounded() { rt.Bounded() }

    function OwnerFailure(): Poll {
      this.(stats := stats.(ownerFailures := stats.ownerFailures + 1))
    }

    function WithPool(pool: Pool): Poll { this.(rt := rt.(pool := pool)) }

    function RefillOne(frame: FrameHandle, expected: FrameOwner): (r: Poll)
      requires Bounded()
      ensures r.Bounded()
    {
      var (pool, status) := rt.pool.Transition(frame, expected, FillRing);
      if status != FrameStatus.Ok then WithPool(pool).OwnerFailure()
      else if rt.socket.fill.Room(1) == 1 then
        this.(rt := rt.(pool := pool, socket := rt.socket.(fill := rt.socket.fill.Produce([frame.address]))),
              stats := stats.(fillRefilled := stats.fillRefilled + 1))
      else
        this.(rt := rt.(pool := pool.Transition(frame, FillRing, expected).0),
              stats := stats.(fillFailures := stats.fillFailures + 1),
              lost := lost + [frame.address])
    }

    function RefillAddress(address: nat, expected: FrameOwner): (r: Poll)
      requires Bounded()
      ensures r.Bounded()
    {
      var handle := rt.pool.HandleFromAddress(address);
      if handle.status != FrameStatus.Ok then OwnerFailure() else RefillOne(handle.frame, expected)
    }

    /** The refill loops of `drain_completions` and `refill_recycled`. */
    function RefillAll(addresses: seq<nat>, expected: FrameOwner): (r: Poll)
      requires Bounded()
      ensures r.Bounded()
      decreases |addresses|
    {
      if addresses == [] then this
      else RefillAddress(addresses[0], expected).RefillAll(addresses[1..], expected)
    }

    function SubmitOne(address: nat, length: U32): (r: Poll)
      requires Bounded()
      ensures r.Bounded()
    {
      var handle := rt.pool.HandleFromAddress(address);
      if handle.status != FrameStatus.Ok then OwnerFailure()
      else
        var owner := rt.pool.OwnerOf(handle.frame.index);
        var (pool, status) := rt.pool.Transition(handle.frame, owner, TxRing);
        if status != FrameStatus.Ok then WithPool(pool).OwnerFailure()
        else if rt.socket.tx.Room(1) == 1 then
          this.(rt := rt.(pool := pool,
                          socket := rt.socket.(tx := rt.socket.tx.Produce([Xsk.Descriptor(address, length, 0)]),
                                               kicks := rt.socket.kicks + 1)),
                stats := stats.(txSubmitted := stats.txSubmitted + 1))
        else
          this.(rt := rt.(pool := pool.Transition(handle.frame, TxRing, owner).0),
                stats := stats.(fillFailures := stats.fillFailures + 1),
                lost := lost + [address])
    }

    function SubmitAll(frames: seq<(nat, U32)>): (r: Poll)
      requires Bounded()
      ensures r.Bounded()
      decreases |frames|
    {
      if frames == [] then this
      else SubmitOne(frames[0].0, frames[0].1).SubmitAll(frames[1..])
    }

    /** Take up to 64 completions off the ring, and count them. */
    function StartDrain(): (r: (Poll, seq<nat>))
      requires Bounded()
      ensures r.0.Bounded()
    {
      var (completion, completed) := rt.socket.completion.Consume(DP.BATCH_SIZE);
      (this.(rt := rt.(socket := rt.socket.(completion := completion)),
             stats := stats.(txCompleted := stats.txCompleted + |completed|)), completed)
    }

    function DrainCompletions(): (r: Poll)
      requires Bounded()
      ensures r.Bounded()
    {
      var (next, completed) := StartDrain();
      next.RefillAll(completed, TxRing)
    }

    function ReleaseDelayed(): (r: Poll)
      requires Bounded()
      ensures r.Bounded()
    {
      StepsKeepBounded(rt.wheel, DelayedFrame(0, 0, 0, 0), 0);
      var (wheel, expired) := rt.wheel.Tick();
      this.(rt := rt.(wheel := wheel)).SubmitAll(DelayedKeys(expired))
    }

    /** Claim one received frame for the data plane. */
    function ReceiveOne(d: Descriptor): (r: (Poll, seq<DP.PacketDescriptor>))
      requires Bounded()
      ensures r.0.Bounded() && |r.1| <= 1
    {
      var handle := rt.pool.HandleFromAddress(d.address);
      if handle.status != FrameStatus.Ok then (OwnerFailure(), [])
      else
        var owner := rt.pool.OwnerOf(handle.frame.index);
        var (pool, status) := rt.pool.Transition(handle.frame, owner, DataPlane);
        if status != FrameStatus.Ok then (WithPool(pool).OwnerFailure(), [])
        else (WithPool(pool), [DP.PacketDescriptor(d.address, d.length, d.options)])
    }

    function ReceiveAll(rx: seq<Descriptor>): (r: (Poll, seq<DP.PacketDescriptor>))
      requires Bounded()
      ensures r.0.Bounded() && |r.1| <= |rx|
      decreases |rx|
    {
      if rx == [] then (this, [])
      else
        var (next, first) := ReceiveOne(rx[0]);
        var (last, rest) := next.ReceiveAll(rx[1..]);
        (last, first + rest)
    }

    /** Receive a batch: up to 64 RX descriptors, claimed for the data plane. */
    function Receive(): (r: (Poll, seq<DP.PacketDescriptor>))
      requires Bounded()
      ensures r.0.Bounded() && |r.1| <= DP.BATCH_SIZE
    {
      var (rx, received) := rt.socket.rx.Consume(DP.BATCH_SIZE);
      this.(rt := rt.(socket := rt.socket.(rx := rx)), stats := stats.(rxFrames := |received|)).ReceiveAll(received)
    }

    function Batch(rules: seq<ChaosRule>, descriptors: seq<DP.PacketDescriptor>): (b: DP.Batch)
      requires Bounded()
      ensures b.wheel.Bounded()
    {
      DP.ProcessBatch(rt.umem, rt.wheel, descriptors, PollConfig(rules))
    }

    /** Put a processed batch's UMEM, wheel and counters in place. */
    function WithBatch(b: DP.Batch): Poll {
      this.(rt := rt.(umem := b.umem, wheel := b.wheel), stats := stats.(dataPlane := b.stats))
    }
  }

  /** The adapter always gives the data plane its own UMEM, outputs of 64 and the default tick. */
  function PollConfig(rules: seq<ChaosRule>): DP.BatchConfig {
    DP.BatchConfig(true, rules, DP.BATCH_SIZE, DP.BATCH_SIZE, DP.DEFAULT_TICK_NS)
  }

  function DelayedKeys(frames: seq<DelayedFrame>): (r: seq<(nat, U32)>)
    ensures |r| == |frames|
    ensures forall i :: 0 <= i < |r| ==> r[i] == (frames[i].address, frames[i].length)
  {
    seq(|frames|, i requires 0 <= i < |frames| => (frames[i].address, frames[i].length))
  }

  function ProcessedKeys(frames: seq<DP.ProcessedFrame>): (r: seq<(nat, U32)>)
    ensures |r| == |frames|
    ensures forall i :: 0 <= i < |r| ==> r[i] == (frames[i].address, frames[i].length)
  {
    seq(|frames|, i requires 0 <= i < |frames| => (frames[i].address, frames[i].length))
  }

  function ProcessedAddresses(frames: seq<DP.ProcessedFrame>): (r: seq<nat>)
    ensures |r| == |frames|
    ensures forall i :: 0 <= i < |r| ==> r[i] == frames[i].address
  {
    seq(|frames|, i requires 0 <= i < |frames| => frames[i].address)
  }

  function StartPoll(rt: Adapter): Poll { Poll(rt, NO_POLL_STATS, []) }

  /** The two halves of a poll before the data plane, and the two after it. */
  function BeforeBatch(rt: Adapter): (r: Poll)
    requires rt.Bounded()
    ensures r.Bounded()
  {
    StartPoll(rt).DrainCompletions().ReleaseDelayed()
  }

  function AfterBatch(p: Poll, b: DP.Batch): (r: Poll)
    requires p.Bounded() && b.wheel.Bounded()
    ensures r.Bounded()
  {
    p.WithBatch(b).SubmitAll(ProcessedKeys(b.tx)).RefillAll(ProcessedAddresses(b.recycle), DataPlane)
  }

  function PollOnce(rt: Adapter, rules: seq<ChaosRule>): (r: Poll)
    requires rt.Bounded()
    ensures r.Bounded()
  {
    if !rt.initialized then StartPoll(rt)
    else
      var (received, descriptors) := BeforeBatch(rt).Receive();
      AfterBatch(received, received.Batch(rules, descriptors))
  }
}
