/** The batch data plane as it runs: in place on UMEM, on the wheel object and on two output
    spans. `ProcessPacketBatch` is proved to do what `DataPlane.ProcessBatch` says. */
module DataPlaneMethods {
  import opened Machine
  import opened PacketParser
  import opened ChaosEngine
  import opened Decisions
  import opened TimingWheels
  import opened TimingWheelObject
  import opened DataPlane

  datatype BatchResult = BatchResult(stats: BatchStats, txCount: nat, recycleCount: nat)

  method SwapEthernetMacs(umem: array<Byte>, base: nat, length: nat) returns (swapped: bool)
    requires base + length <= umem.Length
    modifies umem
    ensures swapped == (ETHERNET_HEADER_BYTES <= length)
    ensures umem[..] == Splice(old(umem[..]), base, SwapMacs(old(umem[base..base + length])))
  {
    if length < ETHERNET_HEADER_BYTES {
      assert umem[..] == Splice(umem[..], base, umem[base..base + length]);
      return false;
    }
    for index := 0 to 6
      invariant forall i {:trigger umem[i]} :: 0 <= i < umem.Length ==>
                  umem[i] == if base <= i < base + index then old(umem[i + 6])
                             else if base + 6 <= i < base + 6 + index then old(umem[i - 6])
                             else old(umem[i])
    {
      var temporary := umem[base + index];
      umem[base + index] := umem[base + index + 6];
      umem[base + index + 6] := temporary;
    }
    SwappedBytes(old(umem[..]), umem[..], base, length);
    return true;
  }

  lemma SwappedBytes(before: seq<Byte>, after: seq<Byte>, base: nat, length: nat)
    requires |before| == |after| && base + length <= |before| && ETHERNET_HEADER_BYTES <= length
    requires forall i {:trigger after[i]} :: 0 <= i < |before| ==>
               after[i] == if base <= i < base + 6 then before[i + 6]
                           else if base + 6 <= i < base + 12 then before[i - 6]
                           else before[i]
    ensures after == Splice(before, base, SwapMacs(before[base..base + length]))
  {
    forall i | 0 <= i < |before|
      ensures after[i] == Splice(before, base, SwapMacs(before[base..base + length]))[i]
    {
      SwappedInPlace(before, base, length, i, before[base..base + length]);
    }
  }

  lemma SwappedInPlace(before: seq<Byte>, base: nat, length: nat, i: nat, frame: seq<Byte>)
    requires base + length <= |before| && ETHERNET_HEADER_BYTES <= length && i < |before|
    requires frame == before[base..base + length]
    ensures Splice(before, base, SwapMacs(frame))[i] == if base <= i < base + 6 then before[i + 6]
                                                        else if base + 6 <= i < base + 12 then before[i - 6]
                                                        else before[i]
  {
    SpliceAt(before, base, SwapMacs(frame), i);
    if base <= i < base + length {
      SwappedAt(frame, i - base);
    }
  }

  lemma SwappedAt(frame: seq<Byte>, k: nat)
    requires ETHERNET_HEADER_BYTES <= |frame| && k < |frame|
    ensures |SwapMacs(frame)| == |frame|
    ensures SwapMacs(frame)[k] == frame[if k < 6 then k + 6 else if k < 12 then k - 6 else k]
  {
  }

  method CorruptPacketPayload(umem: array<Byte>, base: nat, packet: PacketView, selector: U64) returns (hit: bool)
    requires base + packet.frameLength <= umem.Length
    modifies umem
    ensures hit == CorruptOffset(packet, selector).Some?
    ensures umem[..] == Splice(old(umem[..]), base,
                               CorruptPayload(old(umem[base..base + packet.frameLength]), packet, selector))
  {
    if packet.status != Ok || packet.payloadLength == 0 || packet.payloadOffset >= packet.frameLength {
      SpliceSame(umem[..], base, packet.frameLength);
      return false;
    }
    var pick: int := selector;
    var offset := packet.payloadOffset + pick % packet.payloadLength;
    if offset >= packet.frameLength {
      SpliceSame(umem[..], base, packet.frameLength);
      return false;
    }
    FlipAt(umem, base, packet.frameLength, offset);
    return true;
  }

  method FlipAt(umem: array<Byte>, base: nat, length: nat, offset: nat)
    requires base + length <= umem.Length && offset < length
    modifies umem
    ensures var frame := old(umem[base..base + length]);
            umem[..] == Splice(old(umem[..]), base, frame[offset := FlipLowBit(frame[offset])])
  {
    SpliceUpdated(umem[..], base, length, offset, FlipLowBit(umem[base + offset]));
    umem[base + offset] := FlipLowBit(umem[base + offset]);
  }

  lemma SpliceSame(s: seq<Byte>, base: nat, length: nat)
    requires base + length <= |s|
    ensures Splice(s, base, s[base..base + length]) == s
  {
  }

  lemma SpliceUpdated(s: seq<Byte>, base: nat, length: nat, offset: nat, b: Byte)
    requires base + length <= |s| && offset < length
    ensures Splice(s, base, s[base..base + length][offset := b]) == s[base + offset := b]
  {
    var part := s[base..base + length][offset := b];
    forall k | 0 <= k < |s|
      ensures Splice(s, base, part)[k] == s[base + offset := b][k]
    {
      SpliceAt(s, base, part, k);
    }
  }

  method MaybeCorrupt(umem: array<Byte>, d: PacketDescriptor, v: Verdict) returns (hit: bool)
    requires WithinUmem(d, umem.Length) && v.packet.frameLength == d.length
    modifies umem
    ensures hit == (v.decision.action == CORRUPT && CorruptOffset(v.packet, v.decision.hash).Some?)
    ensures umem[..] == Splice(old(umem[..]), d.address,
                               if v.decision.action == CORRUPT
                               then CorruptPayload(FrameOf(old(umem[..]), d), v.packet, v.decision.hash)
                               else FrameOf(old(umem[..]), d))
  {
    assert FrameOf(umem[..], d) == umem[d.address..d.address + d.length];
    if v.decision.action == CORRUPT {
      hit := CorruptPacketPayload(umem, d.address, v.packet, v.decision.hash);
    } else {
      hit := false;
    }
  }

  /** The two edits of a forwarded frame. */
  method EditInPlace(umem: array<Byte>, d: PacketDescriptor, v: Verdict) returns (hit: bool)
    requires WithinUmem(d, umem.Length) && v.packet.frameLength == d.length
    modifies umem
    ensures hit == (v.decision.action == CORRUPT && CorruptOffset(v.packet, v.decision.hash).Some?)
    ensures umem[..] == Splice(old(umem[..]), d.address, EditFrame(FrameOf(old(umem[..]), d), v))
  {
    hit := MaybeCorrupt(umem, d, v);
    ghost var frame := umem[d.address..d.address + d.length];
    SpliceTwice(old(umem[..]), d.address, frame, SwapMacs(frame));
    var _ := SwapEthernetMacs(umem, d.address, d.length);
  }

  lemma SpliceTwice(umem: seq<Byte>, base: nat, part: seq<Byte>, part': seq<Byte>)
    requires base + |part| <= |umem| && |part| == |part'|
    ensures Splice(Splice(umem, base, part), base, part') == Splice(umem, base, part')
  {
  }

  ghost function Bytes(umem: array?<Byte>): seq<Byte>
    reads umem
  {
    if umem == null then [] else umem[..]
  }

  /** The first `n` entries of an output span. */
  ghost function Taken(output: array<ProcessedFrame>, n: nat): seq<ProcessedFrame>
    requires n <= output.Length
    reads output
  {
    output[..n]
  }

  ghost predicate Represents(result: BatchResult, b: Batch, tx: array<ProcessedFrame>, recycle: array<ProcessedFrame>)
    reads tx, recycle
  {
    && result.stats == b.stats
    && result.txCount <= tx.Length && Taken(tx, result.txCount) == b.tx
    && result.recycleCount <= recycle.Length && Taken(recycle, result.recycleCount) == b.recycle
  }

  method AppendRecycle(processed: ProcessedFrame, tx: array<ProcessedFrame>, recycle: array<ProcessedFrame>,
                       result: BatchResult, ghost b: Batch) returns (r: BatchResult)
    requires tx != recycle && Represents(result, b, tx, recycle)
    modifies recycle
    ensures Represents(r, b.AppendRecycle(processed, recycle.Length), tx, recycle)
  {
    if result.recycleCount >= recycle.Length {
      return result.(stats := result.stats.(overflows := result.stats.overflows + 1));
    }
    recycle[result.recycleCount] := processed;
    r := result.(recycleCount := result.recycleCount + 1,
                 stats := result.stats.(recycled := result.stats.recycled + 1));
    assert recycle[..r.recycleCount] == b.recycle + [processed];
  }

  method Drop(processed: ProcessedFrame, tx: array<ProcessedFrame>, recycle: array<ProcessedFrame>,
              result: BatchResult, ghost b: Batch) returns (r: BatchResult)
    requires tx != recycle && Represents(result, b, tx, recycle)
    modifies recycle
    ensures Represents(r, b.Drop(processed, recycle.Length), tx, recycle)
  {
    r := result.(stats := result.stats.(dropped := result.stats.dropped + 1));
    r := AppendRecycle(processed, tx, recycle, r, b.(stats := r.stats));
  }

  method Forward(processed: ProcessedFrame, tx: array<ProcessedFrame>, recycle: array<ProcessedFrame>,
                 result: BatchResult, ghost b: Batch) returns (r: BatchResult)
    requires tx != recycle && Represents(result, b, tx, recycle)
    modifies tx, recycle
    ensures Represents(r, b.Forward(processed, tx.Length, recycle.Length), tx, recycle)
  {
    if result.txCount < tx.Length {
      tx[result.txCount] := processed;
      r := result.(txCount := result.txCount + 1, stats := result.stats.(sent := result.stats.sent + 1));
      assert tx[..r.txCount] == b.tx + [processed];
    } else {
      r := result.(stats := result.stats.(overflows := result.stats.overflows + 1));
      r := Drop(processed, tx, recycle, r, b.(stats := r.stats));
    }
  }

  method Delay(processed: ProcessedFrame, delayTicks: nat, wheel: TimingWheel,
               tx: array<ProcessedFrame>, recycle: array<ProcessedFrame>,
               result: BatchResult, ghost b: Batch) returns (r: BatchResult)
    requires tx != recycle && Represents(result, b, tx, recycle)
    requires wheel.Valid() && wheel.Model() == b.wheel && {tx, recycle} !! wheel.Repr()
    modifies wheel.Repr(), recycle
    ensures Represents(r, b.Delay(processed, delayTicks, recycle.Length), tx, recycle)
    ensures wheel.Valid() && wheel.Model() == b.Delay(processed, delayTicks, recycle.Length).wheel
  {
    var delayed := DelayedFrame(processed.address, processed.length, processed.ruleId, 0);
    var status := wheel.Schedule(delayed, delayTicks);
    ghost var tried := b.(wheel := wheel.Model(), attempts := b.attempts + [ScheduleOp(delayed, delayTicks)]);
    if status == Scheduled {
      r := result.(stats := result.stats.(delayed := result.stats.delayed + 1));
    } else {
      r := result.(stats := result.stats.(scheduleFailures := result.stats.scheduleFailures + 1));
      r := Drop(processed, tx, recycle, r, tried.(stats := r.stats));
    }
  }

  method FindVerdict(umem: array?<Byte>, d: PacketDescriptor, ghost config: BatchConfig, rules: seq<ChaosRule>)
    returns (v: Verdict)
    requires config.rules == rules && config.mapped == (umem != null)
    ensures v == Judge(Bytes(umem), d, config)
  {
    var valid := umem != null && WithinUmem(d, umem.Length);
    var frame: Option<seq<Byte>> := None;
    if valid {
      frame := Some(umem[d.address..d.address + d.length]);
    }
    assert frame == FrameFor(Bytes(umem), config.mapped, d);
    var packet := ParsePacket(frame, d.length);
    var decision := PASS_DECISION;
    if packet.status == Ok {
      decision := DecideFast(packet, rules);
    }
    v := Verdict(valid, packet, decision);
  }

  /** Edit and forward. */
  method EditAndForward(umem: array<Byte>, d: PacketDescriptor, v: Verdict,
                        tx: array<ProcessedFrame>, recycle: array<ProcessedFrame>,
                        result: BatchResult, ghost b: Batch, ghost edited: Batch) returns (r: BatchResult)
    requires tx != recycle && Represents(result, b, tx, recycle)
    requires umem[..] == b.umem && WithinUmem(d, |b.umem|) && v.packet.frameLength == d.length
    requires umem as object != tx && umem as object != recycle
    requires var hit := v.decision.action == CORRUPT && CorruptOffset(v.packet, v.decision.hash).Some?;
             edited == b.(umem := Splice(b.umem, d.address, EditFrame(FrameOf(b.umem, d), v)),
                          stats := b.stats.(corrupted := b.stats.corrupted + if hit then 1 else 0))
    modifies umem, tx, recycle
    ensures umem[..] == edited.umem
    ensures Represents(r, edited.Forward(v.Processed(d), tx.Length, recycle.Length), tx, recycle)
  {
    var hit := EditInPlace(umem, d, v);
    r := result.(stats := result.stats.(corrupted := result.stats.corrupted + if hit then 1 else 0));
    r := Forward(v.Processed(d), tx, recycle, r, edited);
  }

  /** The loop body for a frame that is dropped. */
  method ApplyDrop(d: PacketDescriptor, v: Verdict, tx: array<ProcessedFrame>, recycle: array<ProcessedFrame>,
                   result: BatchResult, ghost b: Batch, ghost config: BatchConfig, ghost after: Batch)
    returns (r: BatchResult)
    requires !v.valid || v.packet.status != Ok || v.decision.action == DROP
    requires b.wheel.Bounded() && tx != recycle && Represents(result, b, tx, recycle) && v.Fits(d, |b.umem|)
    requires config.recycleCapacity == recycle.Length && after == Apply(b, d, v, config)
    modifies recycle
    ensures Represents(r, after, tx, recycle) && after.umem == b.umem && after.wheel == b.wheel
  {
    r := result.(stats := result.stats.(seen := result.stats.seen + 1, bytesSeen := result.stats.bytesSeen + d.length));
    ghost var counted := b.(stats := r.stats);
    if !v.valid || v.packet.status != Ok {
      r := DropMalformed(v.Processed(d), v.valid, tx, recycle, r, counted);
    } else {
      r := Drop(v.Processed(d), tx, recycle, r, counted);
    }
  }

  method DropMalformed(processed: ProcessedFrame, valid: bool, tx: array<ProcessedFrame>, recycle: array<ProcessedFrame>,
                       result: BatchResult, ghost b: Batch) returns (r: BatchResult)
    requires tx != recycle && Represents(result, b, tx, recycle)
    modifies recycle
    ensures Represents(r, b.Malformed(processed, valid, recycle.Length), tx, recycle)
  {
    r := result.(stats := result.stats.(malformed := result.stats.malformed + 1,
                                        invalidDescriptors := result.stats.invalidDescriptors + if valid then 0 else 1));
    r := Drop(processed, tx, recycle, r, b.(stats := r.stats));
  }

  /** The loop body for a frame that is forwarded. */
  method ApplyForward(umem: array<Byte>, d: PacketDescriptor, v: Verdict,
                      tx: array<ProcessedFrame>, recycle: array<ProcessedFrame>,
                      result: BatchResult, ghost b: Batch, ghost config: BatchConfig, ghost after: Batch)
    returns (r: BatchResult)
    requires v.valid && v.packet.status == Ok && v.decision.action !in {DROP, DELAY}
    requires b.wheel.Bounded() && tx != recycle && Represents(result, b, tx, recycle)
    requires umem[..] == b.umem && v.Fits(d, |b.umem|) && umem as object != tx && umem as object != recycle
    requires config.txCapacity == tx.Length && config.recycleCapacity == recycle.Length
    requires after == Apply(b, d, v, config)
    modifies umem, tx, recycle
    ensures Represents(r, after, tx, recycle) && umem[..] == after.umem && after.wheel == b.wheel
  {
    r := result.(stats := result.stats.(seen := result.stats.seen + 1, bytesSeen := result.stats.bytesSeen + d.length));
    ghost var counted := b.(stats := r.stats);
    ghost var hit := v.decision.action == CORRUPT && CorruptOffset(v.packet, v.decision.hash).Some?;
    ghost var edited := counted.(umem := Splice(b.umem, d.address, EditFrame(FrameOf(b.umem, d), v)),
                                 stats := r.stats.(corrupted := r.stats.corrupted + if hit then 1 else 0));
    assert after == edited.Forward(v.Processed(d), tx.Length, recycle.Length);
    ForwardKeeps(edited, v.Processed(d), tx.Length, recycle.Length);
    r := EditAndForward(umem, d, v, tx, recycle, r, counted, edited);
  }

  lemma ForwardKeeps(b: Batch, frame: ProcessedFrame, txCapacity: nat, recycleCapacity: nat)
    ensures var r := b.Forward(frame, txCapacity, recycleCapacity);
            r.umem == b.umem && r.wheel == b.wheel
  {
  }

  /** The loop body for a frame that is delayed. */
  method ApplyDelay(d: PacketDescriptor, v: Verdict, wheel: TimingWheel,
                    tx: array<ProcessedFrame>, recycle: array<ProcessedFrame>, tickNs: U64,
                    result: BatchResult, ghost b: Batch, ghost config: BatchConfig, ghost after: Batch)
    returns (r: BatchResult)
    requires Delays(v) && v.Fits(d, |b.umem|)
    requires tx != recycle && Represents(result, b, tx, recycle)
    requires wheel.Valid() && wheel.Model() == b.wheel && {tx, recycle} !! wheel.Repr()
    requires config.recycleCapacity == recycle.Length && config.tickNs == tickNs
    requires after == Apply(b, d, v, config)
    modifies wheel.Repr(), recycle
    ensures Represents(r, after, tx, recycle)
    ensures wheel.Valid() && wheel.Model() == after.wheel && after.umem == b.umem
  {
    r := result.(stats := result.stats.(seen := result.stats.seen + 1, bytesSeen := result.stats.bytesSeen + d.length));
    ghost var counted := b.(stats := r.stats);
    assert after == counted.Delay(v.Processed(d), DelayNsToTicks(v.decision.delayNs, tickNs), recycle.Length);
    r := Delay(v.Processed(d), DelayNsToTicks(v.decision.delayNs, tickNs), wheel, tx, recycle, r, counted);
  }

  method ApplyVerdict(umem: array?<Byte>, d: PacketDescriptor, v: Verdict, wheel: TimingWheel,
                      tx: array<ProcessedFrame>, recycle: array<ProcessedFrame>, tickNs: U64,
                      result: BatchResult, ghost b: Batch, ghost config: BatchConfig, ghost after: Batch)
    returns (r: BatchResult)
    requires config.txCapacity == tx.Length && config.recycleCapacity == recycle.Length && config.tickNs == tickNs
    requires tx != recycle && Represents(result, b, tx, recycle)
    requires wheel.Valid() && wheel.Model() == b.wheel && {tx, recycle} !! wheel.Repr()
    requires Bytes(umem) == b.umem && v.Fits(d, |b.umem|) && (umem == null ==> !v.valid)
    requires umem != null ==> umem !in wheel.Repr() && umem as object != tx && umem as object != recycle
    requires after == Apply(b, d, v, config)
    modifies umem, wheel.Repr(), tx, recycle
    ensures Represents(r, after, tx, recycle)
    ensures wheel.Valid() && wheel.Model() == after.wheel && Bytes(umem) == after.umem
  {
    if Delays(v) {
      r := ApplyDelay(d, v, wheel, tx, recycle, tickNs, result, b, config, after);
    } else if !v.valid || v.packet.status != Ok || v.decision.action == DROP {
      r := ApplyDrop(d, v, tx, recycle, result, b, config, after);
    } else {
      r := ApplyForward(umem, d, v, tx, recycle, result, b, config, after);
    }
  }

  method ProcessDescriptor(umem: array?<Byte>, d: PacketDescriptor, rules: seq<ChaosRule>, wheel: TimingWheel,
                           tx: array<ProcessedFrame>, recycle: array<ProcessedFrame>, tickNs: U64,
                           result: BatchResult, ghost b: Batch, ghost config: BatchConfig) returns (r: BatchResult)
    requires config == BatchConfig(umem != null, rules, tx.Length, recycle.Length, tickNs)
    requires tx != recycle && Represents(result, b, tx, recycle)
    requires wheel.Valid() && wheel.Model() == b.wheel && {tx, recycle} !! wheel.Repr()
    requires Bytes(umem) == b.umem
    requires umem != null ==> umem !in wheel.Repr() && umem as object != tx && umem as object != recycle
    modifies umem, wheel.Repr(), tx, recycle
    ensures Represents(r, ProcessOne(b, d, config), tx, recycle)
    ensures wheel.Valid() && wheel.Model() == ProcessOne(b, d, config).wheel
    ensures Bytes(umem) == ProcessOne(b, d, config).umem
  {
    var v := FindVerdict(umem, d, config, rules);
    UnmappedInvalid(b.umem, d, config);
    r := ApplyVerdict(umem, d, v, wheel, tx, recycle, tickNs, result, b, config, ProcessOne(b, d, config));
  }

  lemma UnmappedInvalid(umem: seq<Byte>, d: PacketDescriptor, config: BatchConfig)
    ensures !config.mapped ==> !Judge(umem, d, config).valid
  {
  }

  method ProcessPacketBatch(umem: array?<Byte>, rx: seq<PacketDescriptor>, rules: seq<ChaosRule>, wheel: TimingWheel,
                            tx: array<ProcessedFrame>, recycle: array<ProcessedFrame>, tickNs: U64)
    returns (result: BatchResult)
    requires wheel.Valid() && tx != recycle && {tx, recycle} !! wheel.Repr()
    requires umem != null ==> umem !in wheel.Repr() && umem as object != tx && umem as object != recycle
    modifies umem, wheel.Repr(), tx, recycle
    ensures var config := BatchConfig(umem != null, rules, tx.Length, recycle.Length, tickNs);
            var b := ProcessBatch(old(Bytes(umem)), old(wheel.Model()), rx, config);
            && Represents(result, b, tx, recycle)
            && wheel.Valid() && wheel.Model() == b.wheel
            && Bytes(umem) == b.umem
  {
    ghost var config := BatchConfig(umem != null, rules, tx.Length, recycle.Length, tickNs);
    ghost var b := StartBatch(Bytes(umem), wheel.Model());
    ghost var final := ProcessAll(b, rx, config);
    result := BatchResult(NO_STATS, 0, 0);
    for k := 0 to |rx|
      invariant Represents(result, b, tx, recycle)
      invariant wheel.Valid() && wheel.Model() == b.wheel && Bytes(umem) == b.umem
      invariant ProcessAll(b, rx[k..], config) == final
    {
      assert rx[k..][0] == rx[k] && rx[k..][1..] == rx[k + 1..];
      result := ProcessDescriptor(umem, rx[k], rules, wheel, tx, recycle, tickNs, result, b, config);
      b := ProcessOne(b, rx[k], config);
    }
  }
}
