/** The batch data plane on values: what one descriptor, and then a batch of them, does to
    UMEM, the timing wheel, the two outputs and the counters. */
module DataPlane {
  import opened Machine
  import opened PacketParser
  import opened ChaosEngine
  import opened Decisions
  import opened TimingWheels

  const BATCH_SIZE: nat := 64
  const DEFAULT_TICK_NS: U64 := 1000000

  datatype PacketDescriptor = PacketDescriptor(address: nat, length: U32, options: U32)

  datatype ProcessedFrame = ProcessedFrame(address: nat, length: U32, ruleId: U32, action: Byte)

  datatype BatchStats = BatchStats(
    seen: nat,
    dropped: nat,
    delayed: nat,
    corrupted: nat,
    malformed: nat,
    sent: nat,
    recycled: nat,
    scheduleFailures: nat,
    overflows: nat,
    invalidDescriptors: nat,
    bytesSeen: nat)

  const NO_STATS := BatchStats(0, 0, 0, 0, 0, 0, 0, 0, 0, 0, 0)

  /** What a batch call is given besides the descriptors and the state it changes. `mapped`
      is false for a null UMEM base. */
  datatype BatchConfig = BatchConfig(
    mapped: bool, rules: seq<ChaosRule>, txCapacity: nat, recycleCapacity: nat, tickNs: U64)

  /** `delay_ns_to_ticks`: round up, in 64-bit arithmetic. */
  function DelayNsToTicks(delayNs: U64, tickNs: U64): (t: U64) {
    if delayNs == 0 then 1
    else if tickNs == 0 then delayNs
    else
      var sum: int := delayNs;
      (sum + tickNs - 1) % POW64 / tickNs
  }

  predicate WithinUmem(d: PacketDescriptor, size: nat) {
    d.address <= size && d.length <= size - d.address
  }

  function FrameOf(umem: seq<Byte>, d: PacketDescriptor): (f: seq<Byte>)
    requires WithinUmem(d, |umem|)
    ensures |f| == d.length
  {
    umem[d.address..d.address + d.length]
  }

  function SwapMacs(frame: seq<Byte>): (r: seq<Byte>)
    ensures |r| == |frame|
  {
    if |frame| < ETHERNET_HEADER_BYTES then frame else frame[6..12] + frame[..6] + frame[12..]
  }

  function FlipLowBit(b: Byte): Byte {
    if b % 2 == 0 then b + 1 else b - 1
  }

  /** The offset `corrupt_packet_payload` flips, when it flips one. */
  function CorruptOffset(packet: PacketView, selector: U64): (r: Option<nat>)
    ensures r.Some? ==> r.value < packet.frameLength
  {
    if packet.status != Ok || packet.payloadLength == 0 || packet.payloadOffset >= packet.frameLength then None
    else
      var pick: int := selector;
      var offset := packet.payloadOffset + pick % packet.payloadLength;
      if offset >= packet.frameLength then None else Some(offset)
  }

  function CorruptPayload(frame: seq<Byte>, packet: PacketView, selector: U64): (r: seq<Byte>)
    requires packet.frameLength == |frame|
    ensures |r| == |frame|
  {
    match CorruptOffset(packet, selector)
    case None => frame
    case Some(k) => frame[k := FlipLowBit(frame[k])]
  }

  /** What becomes of a received frame. */
  datatype Fate = Sent | Recycled | Held | Overflowed

  /** A batch in progress. `fates` and `attempts` are history: the fate of each descriptor so
      far and the wheel operations made for them. */
  datatype Batch = Batch(
    umem: seq<Byte>,
    wheel: WheelModel,
    tx: seq<ProcessedFrame>,
    recycle: seq<ProcessedFrame>,
    stats: BatchStats,
    fates: seq<Fate>,
    attempts: seq<WheelOp>)
  {
    function AppendRecycle(frame: ProcessedFrame, capacity: nat): Batch {
      if |recycle| >= capacity then
        this.(stats := stats.(overflows := stats.overflows + 1), fates := fates + [Overflowed])
      else
        this.(recycle := recycle + [frame], stats := stats.(recycled := stats.recycled + 1), fates := fates + [Recycled])
    }

    function Drop(frame: ProcessedFrame, capacity: nat): Batch {
      this.(stats := stats.(dropped := stats.dropped + 1)).AppendRecycle(frame, capacity)
    }

    function Malformed(frame: ProcessedFrame, valid: bool, capacity: nat): Batch {
      this.(stats := stats.(malformed := stats.malformed + 1,
                            invalidDescriptors := stats.invalidDescriptors + if valid then 0 else 1))
          .Drop(frame, capacity)
    }

    function Delay(frame: ProcessedFrame, delayTicks: nat, capacity: nat): Batch
      requires wheel.Bounded()
    {
      var delayed := DelayedFrame(frame.address, frame.length, frame.ruleId, 0);
      var (w, status) := wheel.Schedule(delayed, delayTicks);
      var tried := this.(wheel := w, attempts := attempts + [ScheduleOp(delayed, delayTicks)]);
      if status == Scheduled then
        tried.(stats := stats.(delayed := stats.delayed + 1), fates := fates + [Held])
      else
        tried.(stats := stats.(scheduleFailures := stats.scheduleFailures + 1)).Drop(frame, capacity)
    }

    function Forward(frame: ProcessedFrame, txCapacity: nat, recycleCapacity: nat): Batch {
      if |tx| < txCapacity then
        this.(tx := tx + [frame], stats := stats.(sent := stats.sent + 1), fates := fates + [Sent])
      else
        this.(stats := stats.(overflows := stats.overflows + 1)).Drop(frame, recycleCapacity)
    }
  }

  function StartBatch(umem: seq<Byte>, wheel: WheelModel): Batch {
    Batch(umem, wheel, [], [], NO_STATS, [], [])
  }

  /** The bytes behind a descriptor, or a null pointer when it does not fit UMEM. */
  function FrameFor(umem: seq<Byte>, mapped: bool, d: PacketDescriptor): (f: Option<seq<Byte>>)
    ensures f.Some? ==> WithinUmem(d, |umem|) && f.value == FrameOf(umem, d)
  {
    if mapped && WithinUmem(d, |umem|) then Some(FrameOf(umem, d)) else None
  }

  /** What the parser and the chaos engine say about one descriptor. */
  datatype Verdict = Verdict(valid: bool, packet: PacketView, decision: ChaosDecision)
  {
    predicate Fits(d: PacketDescriptor, size: nat) {
      && (valid ==> WithinUmem(d, size))
      && (packet.status == Ok ==> valid && packet.frameLength == d.length)
    }

    function Processed(d: PacketDescriptor): ProcessedFrame {
      ProcessedFrame(d.address, d.length, decision.ruleId, decision.action)
    }
  }

  predicate Delays(v: Verdict) {
    v.valid && v.packet.status == Ok && v.decision.action == DELAY
  }

  predicate Forwards(v: Verdict) {
    v.packet.status == Ok && v.decision.action != DROP && v.decision.action != DELAY
  }

  function Judge(umem: seq<Byte>, d: PacketDescriptor, config: BatchConfig): (v: Verdict)
    ensures v.Fits(d, |umem|)
  {
    var frame := FrameFor(umem, config.mapped, d);
    var packet := ParsePacket(frame, d.length);
    FrameLengthKept(frame, d.length);
    Verdict(frame.Some?, packet,
            if packet.status == Ok then DecidePacketFast(packet, config.rules) else PASS_DECISION)
  }

  lemma FrameLengthKept(frame: Option<seq<Byte>>, length: nat)
    requires frame.Some? ==> |frame.value| == length
    ensures ParsePacket(frame, length).frameLength == length
    ensures frame.None? ==> ParsePacket(frame, length).status != Ok
  {
  }

  /** The edit made to a frame that is forwarded: maybe one bit of payload, then the MACs. */
  function EditFrame(frame: seq<Byte>, v: Verdict): (r: seq<Byte>)
    requires v.packet.frameLength == |frame|
    ensures |r| == |frame|
  {
    SwapMacs(if v.decision.action == CORRUPT then CorruptPayload(frame, v.packet, v.decision.hash) else frame)
  }

  /** The effect of one descriptor, given the verdict on it. */
  function Apply(b: Batch, d: PacketDescriptor, v: Verdict, config: BatchConfig): (r: Batch)
    requires b.wheel.Bounded() && v.Fits(d, |b.umem|)
    ensures |r.umem| == |b.umem|
  {
    var counted := b.(stats := b.stats.(seen := b.stats.seen + 1, bytesSeen := b.stats.bytesSeen + d.length));
    if !v.valid || v.packet.status != Ok then
      counted.Malformed(v.Processed(d), v.valid, config.recycleCapacity)
    else if v.decision.action == DROP then
      counted.Drop(v.Processed(d), config.recycleCapacity)
    else if v.decision.action == DELAY then
      counted.Delay(v.Processed(d), DelayNsToTicks(v.decision.delayNs, config.tickNs), config.recycleCapacity)
    else
      var hit := v.decision.action == CORRUPT && CorruptOffset(v.packet, v.decision.hash).Some?;
      counted.(umem := Splice(b.umem, d.address, EditFrame(FrameOf(b.umem, d), v)),
               stats := counted.stats.(corrupted := counted.stats.corrupted + if hit then 1 else 0))
             .Forward(v.Processed(d), config.txCapacity, config.recycleCapacity)
  }

  lemma ApplyKeepsWheel(b: Batch, d: PacketDescriptor, v: Verdict, config: BatchConfig)
    requires b.wheel.Bounded() && v.Fits(d, |b.umem|)
    ensures Apply(b, d, v, config).wheel.Bounded()
    ensures Apply(b, d, v, config).wheel.now == b.wheel.now
    ensures |Apply(b, d, v, config).wheel.slots| == |b.wheel.slots|
  {
    StepsKeepBounded(b.wheel, DelayedFrame(d.address, d.length, v.decision.ruleId, 0),
                     DelayNsToTicks(v.decision.delayNs, config.tickNs));
  }

  /** One pass of the batch loop. */
  function ProcessOne(b: Batch, d: PacketDescriptor, config: BatchConfig): (r: Batch)
    requires b.wheel.Bounded()
    ensures r.wheel.Bounded() && |r.umem| == |b.umem|
  {
    var v := Judge(b.umem, d, config);
    ApplyKeepsWheel(b, d, v, config);
    Apply(b, d, v, config)
  }

  function ProcessAll(b: Batch, rx: seq<PacketDescriptor>, config: BatchConfig): (r: Batch)
    requires b.wheel.Bounded()
    ensures r.wheel.Bounded() && |r.umem| == |b.umem|
    decreases |rx|
  {
    if rx == [] then b
    else
      ProcessAll(ProcessOne(b, rx[0], config), rx[1..], config)
  }

  /** `process_packet_batch`. */
  function ProcessBatch(umem: seq<Byte>, wheel: WheelModel, rx: seq<PacketDescriptor>, config: BatchConfig): (r: Batch)
    requires wheel.Bounded()
    ensures r.wheel.Bounded() && |r.umem| == |umem|
  {
    ProcessAll(StartBatch(umem, wheel), rx, config)
  }

  // ---------------------------------------------------------------------------------------
  // Delay rounding
  // ---------------------------------------------------------------------------------------

  /** A positive delay is held for at least `delayNs` and less than one tick longer, counted
      in whole wheel ticks, if and only if the rounding sum does not wrap or the delay is
      within one tick anyway. (The wheel turns zero ticks into one.) */
  lemma DelayRoundsUp(delayNs: U64, tickNs: U64)
    requires 0 < delayNs && 0 < tickNs
    ensures var t := DelayNsToTicks(delayNs, tickNs);
            var held := (if t == 0 then 1 else t) * tickNs;
            delayNs <= held < delayNs + tickNs <==> delayNs + tickNs - 1 < POW64 || delayNs <= tickNs
  {
    var d: int := delayNs;
    var n: int := tickNs;
    var sum := d + n - 1;
    if sum < POW64 {
      var t := sum / n;
      assert sum == t * n + sum % n;
      assert t == 0 ==> t * n == 0;
    } else {
      DivUnique(sum - POW64, n, 0, sum - POW64);
      assert 1 * n == n;
    }
  }
}
