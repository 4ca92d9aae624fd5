/** Injectivity of the hashes, step by step modulo 2^64, and the loops that compute them. */
module Hashing {
  import opened Machine
  import opened Bits
  import opened PacketParser
  import opened ChaosEngine

  // Multiplicative inverses modulo 2^64 of the three multipliers.
  const FNV_INVERSE: int := 14886173955864302971
  const INVERSE_1: int := 5725274745694666757
  const INVERSE_2: int := 11291846944257947611

  /** Multiplying by a number and then by its inverse modulo 2^64 changes nothing. */
  lemma MulWrapUndone(a: U64, b: int, inverse: int)
    requires 0 <= b && 0 <= inverse && b * inverse % POW64 == 1
    ensures MulWrap(MulWrap(a, b), inverse) == a
  {
    var x: int := a;
    var k, r := (x * b) / POW64, x * b % POW64;
    var q := (b * inverse) / POW64;
    assert x * b == k * POW64 + r;
    assert b * inverse == q * POW64 + 1;
    calc {
      r * inverse;
      (x * b - k * POW64) * inverse;
      { Rearrange(x, b, k, inverse); }
      x * (b * inverse) - (k * inverse) * POW64;
      x * (q * POW64 + 1) - (k * inverse) * POW64;
      { Collect(x, q, k * inverse); }
      (x * q - k * inverse) * POW64 + x;
    }
    DivUnique(r * inverse, POW64, x * q - k * inverse, x);
  }

  lemma Rearrange(x: int, b: int, k: int, inverse: int)
    ensures (x * b - k * POW64) * inverse == x * (b * inverse) - (k * inverse) * POW64
  {
  }

  lemma Collect(x: int, q: int, m: int)
    ensures x * (q * POW64 + 1) - m * POW64 == (x * q - m) * POW64 + x
  {
  }

  lemma MulWrapInjective(a: U64, c: U64, b: int, inverse: int)
    requires 0 <= b && 0 <= inverse && b * inverse % POW64 == 1
    requires MulWrap(a, b) == MulWrap(c, b)
    ensures a == c
  {
    MulWrapUndone(a, b, inverse);
    MulWrapUndone(c, b, inverse);
  }

  /** An FNV-1a step is injective in the running hash and in the byte. */
  lemma FnvByteInjective(h: U64, b: Byte, h': U64, b': Byte)
    requires FnvByte(h, b) == FnvByte(h', b')
    ensures b == b' ==> h == h'
    ensures h == h' ==> b == b'
  {
    XorFits(h, b);
    XorFits(h', b');
    InversesHold();
    MulWrapInjective(Xor(h, b), Xor(h', b'), FNV_PRIME, FNV_INVERSE);
    if b == b' {
      XorInjective(b, h, h');
    }
    if h == h' {
      XorInjective(h, b, b');
    }
  }

  /** Folding the top 31 bits down is its own inverse. */
  lemma XorShiftUndone(x: U64)
    ensures XorShift33(XorShift33(x)) == x
  {
    var s := Shr(x, 33);
    var y := XorShift33(x);
    XorShift(x, s, 33);
    ShrAdds(x, 33, 33);
    ShrVanishesBeyond(x);
    XorZero(s);
    XorCancels(s, x);
  }

  lemma ShrVanishesBeyond(x: U64)
    ensures Shr(x, 66) == 0
  {
    Pow2Of64();
    assert Pow2(66) == 2 * Pow2(65) && Pow2(65) == 2 * Pow2(64);
    ShrVanishes(x, 66);
  }

  /** One fold and one multiplication by an invertible number lose nothing. */
  lemma MixInjective(a: U64, b: U64, m: int, inverse: int)
    requires 0 <= m && 0 <= inverse && m * inverse % POW64 == 1
    requires MulWrap(XorShift33(a), m) == MulWrap(XorShift33(b), m)
    ensures a == b
  {
    MulWrapInjective(XorShift33(a), XorShift33(b), m, inverse);
    XorShiftUndone(a);
    XorShiftUndone(b);
  }

  lemma AvalancheInjective(a: U64, b: U64)
    requires Avalanche(a) == Avalanche(b)
    ensures a == b
  {
    var a1, b1 := MulWrap(XorShift33(a), AVALANCHE_1), MulWrap(XorShift33(b), AVALANCHE_1);
    var a2, b2 := MulWrap(XorShift33(a1), AVALANCHE_2), MulWrap(XorShift33(b1), AVALANCHE_2);
    LastFold(a2, b2);
    InversesHold();
    MixInjective(a1, b1, AVALANCHE_2, INVERSE_2);
    MixInjective(a, b, AVALANCHE_1, INVERSE_1);
  }

  lemma LastFold(a: U64, b: U64)
    requires XorShift33(a) == XorShift33(b)
    ensures a == b
  {
    XorShiftUndone(a);
    XorShiftUndone(b);
  }

  lemma InversesHold()
    ensures FNV_PRIME * FNV_INVERSE % POW64 == 1
    ensures AVALANCHE_1 * INVERSE_1 % POW64 == 1
    ensures AVALANCHE_2 * INVERSE_2 % POW64 == 1
  {
  }

  /** The running hash after a common suffix still tells two different states apart. */
  lemma {:induction false} FnvSuffixInjective(h: U64, h': U64, suffix: seq<Byte>)
    requires h != h'
    ensures Fnv(h, suffix) != Fnv(h', suffix)
    decreases |suffix|
  {
    if suffix == [] {
    } else {
      var n := |suffix| - 1;
      FnvSuffixInjective(h, h', suffix[..n]);
      if Fnv(h, suffix) == Fnv(h', suffix) {
        FnvByteInjective(Fnv(h, suffix[..n]), suffix[n], Fnv(h', suffix[..n]), suffix[n]);
      }
    }
  }

  ghost predicate DifferInOneByte(s: seq<Byte>, t: seq<Byte>) {
    && |s| == |t|
    && exists k :: 0 <= k < |s| && s[k] != t[k] && s[..k] == t[..k] && s[k + 1..] == t[k + 1..]
  }

  /** Byte strings of one length that differ in exactly one byte never collide under FNV-1a,
      whatever the starting hash. */
  lemma OneByteNeverCollides(start: U64, s: seq<Byte>, t: seq<Byte>)
    requires DifferInOneByte(s, t)
    ensures Fnv(start, s) != Fnv(start, t)
  {
    var k :| 0 <= k < |s| && s[k] != t[k] && s[..k] == t[..k] && s[k + 1..] == t[k + 1..];
    FnvSplit(start, s, k);
    FnvSplit(start, t, k);
    var h := Fnv(start, s[..k]);
    if FnvByte(h, s[k]) == FnvByte(h, t[k]) {
      FnvByteInjective(h, s[k], h, t[k]);
    }
    FnvSuffixInjective(FnvByte(h, s[k]), FnvByte(h, t[k]), s[k + 1..]);
  }

  lemma FnvSplit(start: U64, s: seq<Byte>, k: nat)
    requires k < |s|
    ensures Fnv(start, s) == Fnv(FnvByte(Fnv(start, s[..k]), s[k]), s[k + 1..])
  {
    assert s == s[..k + 1] + s[k + 1..];
    assert s[..k + 1] == s[..k] + [s[k]];
    FnvConcat(start, s[..k + 1], s[k + 1..]);
    FnvOneMore(start, s[..k], s[k]);
  }

  lemma FnvOneMore(start: U64, s: seq<Byte>, b: Byte)
    ensures Fnv(start, s + [b]) == FnvByte(Fnv(start, s), b)
  {
    assert (s + [b])[..|s|] == s;
  }

  /** Two packets whose hashed fields differ in exactly one byte (of the seed, an address, a
      port, the protocol or the payload) always get different packet hashes. */
  lemma PacketHashSeparates(r: ChaosRule, p: PacketView, payload: seq<Byte>,
                            r': ChaosRule, p': PacketView, payload': seq<Byte>)
    requires DifferInOneByte(FlowBytes(r, p) + payload, FlowBytes(r', p') + payload')
    ensures PacketHash(r, p, payload) != PacketHash(r', p', payload')
  {
    HashSeparates(FlowBytes(r, p) + payload, FlowBytes(r', p') + payload');
  }

  lemma HashSeparates(s: seq<Byte>, t: seq<Byte>)
    requires DifferInOneByte(s, t)
    ensures Avalanche(Fnv(FNV_OFFSET_BASIS, s)) != Avalanche(Fnv(FNV_OFFSET_BASIS, t))
  {
    OneByteNeverCollides(FNV_OFFSET_BASIS, s, t);
    if Avalanche(Fnv(FNV_OFFSET_BASIS, s)) == Avalanche(Fnv(FNV_OFFSET_BASIS, t)) {
      AvalancheInjective(Fnv(FNV_OFFSET_BASIS, s), Fnv(FNV_OFFSET_BASIS, t));
    }
  }

  /** In particular, changing one payload byte of a packet always changes its hash. */
  lemma PayloadByteSeparates(r: ChaosRule, p: PacketView, payload: seq<Byte>, k: nat, b: Byte)
    requires k < |payload| && b != payload[k]
    ensures PacketHash(r, p, payload) != PacketHash(r, p, payload[k := b])
  {
    var s, t := FlowBytes(r, p) + payload, FlowBytes(r, p) + payload[k := b];
    var i := |FlowBytes(r, p)| + k;
    assert s[i] != t[i] && s[..i] == t[..i] && s[i + 1..] == t[i + 1..];
    PacketHashSeparates(r, p, payload, r, p, payload[k := b]);
  }

  /** A frame with payload byte `k` replaced. */
  function WithPayloadByte(frame: seq<Byte>, k: nat, b: Byte): (r: seq<Byte>)
    requires Parse(frame).status == Ok && k < |Payload(frame)|
    ensures |r| == |frame|
  {
    ParsedPacketFits(frame);
    frame[Parse(frame).payloadOffset + k := b]
  }

  /** A payload byte is no header byte. */
  lemma ChangedParsesAlike(frame: seq<Byte>, k: nat, b: Byte, changed: seq<Byte>)
    requires Parse(frame).status == Ok && k < |Payload(frame)| && changed == WithPayloadByte(frame, k, b)
    ensures Parse(changed) == Parse(frame)
  {
    ParsedPacketFits(frame);
    ParseReadsOnlyHeaders(frame, changed);
  }

  lemma ChangedPayload(frame: seq<Byte>, k: nat, b: Byte, changed: seq<Byte>)
    requires Parse(frame).status == Ok && k < |Payload(frame)| && changed == WithPayloadByte(frame, k, b)
    requires Parse(changed) == Parse(frame)
    ensures Payload(changed) == Payload(frame)[k := b]
  {
    ParsedPacketFits(frame);
  }

  /** On frames: a parsing frame with one payload byte changed still parses alike, and always
      gets a different packet hash from every rule. */
  lemma FramePayloadByteSeparates(r: ChaosRule, frame: seq<Byte>, k: nat, b: Byte, changed: seq<Byte>)
    requires Parse(frame).status == Ok && k < |Payload(frame)| && b != Payload(frame)[k]
    requires changed == WithPayloadByte(frame, k, b)
    ensures Parse(changed) == Parse(frame)
    ensures PacketHash(r, Parse(changed), Payload(changed)) != PacketHash(r, Parse(frame), Payload(frame))
  {
    ChangedParsesAlike(frame, k, b, changed);
    ChangedPayload(frame, k, b, changed);
    PayloadByteSeparates(r, Parse(frame), Payload(frame), k, b);
  }

  /** The flow hash, which the data plane uses, separates flows the same way. */
  lemma FlowHashSeparates(r: ChaosRule, p: PacketView, r': ChaosRule, p': PacketView)
    requires DifferInOneByte(FlowBytes(r, p), FlowBytes(r', p'))
    ensures FlowHash(r, p) != FlowHash(r', p')
  {
    HashSeparates(FlowBytes(r, p), FlowBytes(r', p'));
  }

  // The helpers as the code writes them: most significant part first.

  method FnvU16(hash: U64, value: U16) returns (h: U64)
    ensures h == Fnv(hash, U16Bytes(value))
  {
    var v: int := value;
    h := FnvByte(hash, v / 0x100);
    FnvOneMore(hash, [], v / 0x100);
    FnvOneMore(hash, [v / 0x100], v % 0x100);
    h := FnvByte(h, v % 0x100);
  }

  method FnvU32(hash: U64, value: U32) returns (h: U64)
    ensures h == Fnv(hash, U32Bytes(value))
  {
    var v: int := value;
    h := FnvU16(hash, v / POW16);
    h := FnvU16(h, v % POW16);
    FnvConcat(hash, U16Bytes(v / POW16), U16Bytes(v % POW16));
  }

  method FnvU64(hash: U64, value: U64) returns (h: U64)
    ensures h == Fnv(hash, U64Bytes(value))
  {
    var v: int := value;
    h := FnvU32(hash, v / POW32);
    h := FnvU32(h, v % POW32);
    FnvConcat(hash, U32Bytes(v / POW32), U32Bytes(v % POW32));
  }

  method FnvBytes(hash: U64, bytes: seq<Byte>) returns (h: U64)
    ensures h == Fnv(hash, bytes)
  {
    h := hash;
    for index := 0 to |bytes|
      invariant h == Fnv(hash, bytes[..index])
    {
      assert bytes[..index + 1] == bytes[..index] + [bytes[index]];
      FnvOneMore(hash, bytes[..index], bytes[index]);
      h := FnvByte(h, bytes[index]);
    }
    assert bytes[..|bytes|] == bytes;
  }

  lemma FnvPieces(h: U64, a: seq<Byte>, b: seq<Byte>, c: seq<Byte>, d: seq<Byte>, e: seq<Byte>,
                  f: seq<Byte>, g: seq<Byte>)
    ensures Fnv(h, a + b + c + d + e + f + g) == Fnv(Fnv(Fnv(Fnv(Fnv(Fnv(Fnv(h, a), b), c), d), e), f), g)
  {
    FnvConcat(h, a, b);
    FnvConcat(h, a + b, c);
    FnvConcat(h, a + b + c, d);
    FnvConcat(h, a + b + c + d, e);
    FnvConcat(h, a + b + c + d + e, f);
    FnvConcat(h, a + b + c + d + e + f, g);
  }

  /** Both hashes start with this fixed sequence of updates. */
  method HashFlowFields(rule: ChaosRule, packet: PacketView) returns (hash: U64)
    ensures hash == Fnv(FNV_OFFSET_BASIS, FlowBytes(rule, packet))
  {
    hash := FnvU64(FNV_OFFSET_BASIS, rule.seed);
    hash := FnvU32(hash, packet.srcIp);
    hash := FnvU32(hash, packet.dstIp);
    hash := FnvU16(hash, packet.srcPort);
    hash := FnvU16(hash, packet.dstPort);
    hash := FnvBytes(hash, [packet.protocol]);
    hash := FnvU64(hash, packet.payloadLength % POW64);
    FnvPieces(FNV_OFFSET_BASIS, U64Bytes(rule.seed), U32Bytes(packet.srcIp), U32Bytes(packet.dstIp),
              U16Bytes(packet.srcPort), U16Bytes(packet.dstPort), [packet.protocol],
              U64Bytes(packet.payloadLength % POW64));
  }

  method StableFlowHash(rule: ChaosRule, packet: PacketView) returns (hash: U64)
    ensures hash == FlowHash(rule, packet)
  {
    hash := HashFlowFields(rule, packet);
    hash := Avalanche(hash);
  }

  method StablePacketHash(rule: ChaosRule, packet: PacketView, payload: seq<Byte>) returns (hash: U64)
    ensures hash == PacketHash(rule, packet, payload)
  {
    var flow := HashFlowFields(rule, packet);
    hash := FnvBytes(flow, payload);
    FnvConcat(FNV_OFFSET_BASIS, FlowBytes(rule, packet), payload);
    hash := Avalanche(hash);
  }
}
