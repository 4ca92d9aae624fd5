/** Chaos rules: which packets a rule matches, the hashes that drive the dice, and the
    decision taken for a packet. */
module ChaosEngine {
  import opened Machine
  import opened Bits
  import opened PacketParser

  const PROBABILITY_SCALE: U16 := 10000

  // `PacketAction` values. A rule read off the wire may carry any byte; the others forward.
  const PASS: Byte := 0
  const DROP: Byte := 1
  const DELAY: Byte := 2
  const CORRUPT: Byte := 3

  datatype ChaosRule = ChaosRule(
    seed: U64,
    delayNs: U64,
    id: U32,
    srcIp: U32,
    dstIp: U32,
    srcPort: U16,
    dstPort: U16,
    probability: U16,
    protocol: Byte,
    action: Byte,
    enabled: Byte,
    reserved: (Byte, Byte, Byte))

  /** A default-initialised rule: it matches everything and passes it. */
  const DEFAULT_RULE := ChaosRule(0, 0, 0, 0, 0, 0, 0, 0, 0, PASS, 1, (0, 0, 0))

  datatype ChaosDecision = ChaosDecision(
    hash: U64, delayNs: U64, ruleId: U32, roll: U16, action: Byte, matched: bool)

  function ClampProbability(probability: U16): (p: U16)
    ensures p <= PROBABILITY_SCALE
  {
    if probability > PROBABILITY_SCALE then PROBABILITY_SCALE else probability
  }

  /** Zero in a rule's address, port or protocol is a wildcard. */
  predicate RuleMatches(rule: ChaosRule, packet: PacketView) {
    && rule.enabled != 0
    && packet.status == Ok
    && (rule.srcIp == 0 || rule.srcIp == packet.srcIp)
    && (rule.dstIp == 0 || rule.dstIp == packet.dstIp)
    && (rule.srcPort == 0 || rule.srcPort == packet.srcPort)
    && (rule.dstPort == 0 || rule.dstPort == packet.dstPort)
    && (rule.protocol == 0 || rule.protocol == packet.protocol)
  }

  // ---------------------------------------------------------------------------------------
  // Hashing
  // ---------------------------------------------------------------------------------------

  const FNV_OFFSET_BASIS: U64 := 14695981039346656037
  const FNV_PRIME: int := 1099511628211
  const AVALANCHE_1: int := 0xff51afd7ed558ccd
  const AVALANCHE_2: int := 0xc4ceb9fe1a85ec53

  function MulWrap(a: U64, b: int): U64
    requires 0 <= b
  {
    var x: int := a;
    x * b % POW64
  }

  function FnvByte(hash: U64, value: Byte): U64 {
    XorFits(hash, value);
    MulWrap(Xor(hash, value), FNV_PRIME)
  }

  /** FNV-1a over a byte string, first byte first. */
  function Fnv(hash: U64, bytes: seq<Byte>): U64 {
    if bytes == [] then hash
    else FnvByte(Fnv(hash, bytes[..|bytes| - 1]), bytes[|bytes| - 1])
  }

  function XorShift33(value: U64): U64 {
    ShrFits(value, 33);
    XorFits(value, Shr(value, 33));
    Xor(value, Shr(value, 33))
  }

  function Avalanche(value: U64): U64 {
    XorShift33(MulWrap(XorShift33(MulWrap(XorShift33(value), AVALANCHE_1)), AVALANCHE_2))
  }

  /** The bytes both hashes cover, in order: seed, addresses, ports, protocol and length. */
  function FlowBytes(rule: ChaosRule, packet: PacketView): (s: seq<Byte>)
    ensures |s| == 29
  {
    U64Bytes(rule.seed) + U32Bytes(packet.srcIp) + U32Bytes(packet.dstIp) +
    U16Bytes(packet.srcPort) + U16Bytes(packet.dstPort) + [packet.protocol] +
    U64Bytes(packet.payloadLength % POW64)
  }

  function FlowHash(rule: ChaosRule, packet: PacketView): U64 {
    Avalanche(Fnv(FNV_OFFSET_BASIS, FlowBytes(rule, packet)))
  }

  function PacketHash(rule: ChaosRule, packet: PacketView, payload: seq<Byte>): U64 {
    Avalanche(Fnv(FNV_OFFSET_BASIS, FlowBytes(rule, packet) + payload))
  }

  /** The bytes `payload_data()` points at: none unless the packet parsed. */
  function Payload(frame: seq<Byte>): (s: seq<Byte>) {
    var v := Parse(frame);
    if v.status != Ok then []
    else
      ParsedPacketFits(frame);
      frame[v.payloadOffset..v.payloadOffset + v.payloadLength]
  }

  lemma XorFits(a: U64, b: U64)
    ensures Xor(a, b) < POW64
  {
    Pow2Of64();
    XorBound(a, b, 64);
  }

  lemma {:induction false} ShrFits(a: nat, k: nat)
    ensures Shr(a, k) <= a
    decreases k
  {
    if k == 0 {
    } else {
      ShrFits(a / 2, k - 1);
    }
  }

  lemma {:induction false} FnvConcat(hash: U64, a: seq<Byte>, b: seq<Byte>)
    ensures Fnv(hash, a + b) == Fnv(Fnv(hash, a), b)
    decreases |b|
  {
    if b == [] {
      assert a + b == a;
    } else {
      var n := |b| - 1;
      assert (a + b)[..|a + b| - 1] == a + b[..n];
      FnvConcat(hash, a, b[..n]);
    }
  }
}
