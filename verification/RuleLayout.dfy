/** The 40-byte layout of a rule: host (little-endian) field order, no padding. `AddRule`
    copies a payload into a rule byte for byte and `ListRules` copies the rules back out. */
module RuleLayout {
  import opened Machine
  import opened ChaosEngine

  const RULE_BYTES: nat := 40

  function Le16(v: U16): (s: seq<Byte>)
    ensures |s| == 2
  {
    var n: int := v;
    [n % 0x100, n / 0x100]
  }

  function Le32(v: U32): (s: seq<Byte>)
    ensures |s| == 4
  {
    var n: int := v;
    Le16(n % POW16) + Le16(n / POW16)
  }

  function Le64(v: U64): (s: seq<Byte>)
    ensures |s| == 8
  {
    var n: int := v;
    Le32(n % POW32) + Le32(n / POW32)
  }

  function FromLe16(s: seq<Byte>): U16
    requires |s| == 2
  {
    var high: int := s[1];
    high * 0x100 + s[0]
  }

  function FromLe32(s: seq<Byte>): U32
    requires |s| == 4
  {
    var high: int := FromLe16(s[2..]);
    high * POW16 + FromLe16(s[..2])
  }

  function FromLe64(s: seq<Byte>): U64
    requires |s| == 8
  {
    var high: int := FromLe32(s[4..]);
    high * POW32 + FromLe32(s[..4])
  }

  lemma Le16RoundTrip(v: U16, s: seq<Byte>)
    requires |s| == 2
    ensures FromLe16(Le16(v)) == v && Le16(FromLe16(s)) == s
  {
    var low: int := s[0];
    var high: int := s[1];
    DivUnique(FromLe16(s), 0x100, high, low);
  }

  lemma Le32RoundTrip(v: U32, s: seq<Byte>)
    requires |s| == 4
    ensures FromLe32(Le32(v)) == v && Le32(FromLe32(s)) == s
  {
    var n: int := v;
    Le16RoundTrip(n % POW16, s[..2]);
    Le16RoundTrip(n / POW16, s[2..]);
    var low: int := FromLe16(s[..2]);
    var high: int := FromLe16(s[2..]);
    DivUnique(FromLe32(s), POW16, high, low);
    assert s == s[..2] + s[2..];
    var b := Le32(v);
    assert b[..2] == Le16(n % POW16) && b[2..] == Le16(n / POW16);
  }

  lemma Le64RoundTrip(v: U64, s: seq<Byte>)
    requires |s| == 8
    ensures FromLe64(Le64(v)) == v && Le64(FromLe64(s)) == s
  {
    var n: int := v;
    Le32RoundTrip(n % POW32, s[..4]);
    Le32RoundTrip(n / POW32, s[4..]);
    var low: int := FromLe32(s[..4]);
    var high: int := FromLe32(s[4..]);
    DivUnique(FromLe64(s), POW32, high, low);
    assert s == s[..4] + s[4..];
    var b := Le64(v);
    assert b[..4] == Le32(n % POW32) && b[4..] == Le32(n / POW32);
  }

  /** Seed, delay, id and addresses. */
  function WideBytes(r: ChaosRule): (s: seq<Byte>)
    ensures |s| == 28
  {
    Le64(r.seed) + Le64(r.delayNs) + Le32(r.id) + Le32(r.srcIp) + Le32(r.dstIp)
  }

  /** Ports, probability and the single bytes. */
  function NarrowBytes(r: ChaosRule): (s: seq<Byte>)
    ensures |s| == 12
  {
    Le16(r.srcPort) + Le16(r.dstPort) + Le16(r.probability) +
    [r.protocol, r.action, r.enabled, r.reserved.0, r.reserved.1, r.reserved.2]
  }

  function RuleBytes(r: ChaosRule): (s: seq<Byte>)
    ensures |s| == RULE_BYTES
  {
    WideBytes(r) + NarrowBytes(r)
  }

  /** A rule with the wide fields read from 28 bytes and the narrow ones from 12. */
  function FromParts(w: seq<Byte>, n: seq<Byte>): ChaosRule
    requires |w| == 28 && |n| == 12
  {
    ChaosRule(FromLe64(w[0..8]), FromLe64(w[8..16]), FromLe32(w[16..20]), FromLe32(w[20..24]), FromLe32(w[24..28]),
              FromLe16(n[0..2]), FromLe16(n[2..4]), FromLe16(n[4..6]), n[6], n[7], n[8], (n[9], n[10], n[11]))
  }

  function RuleFrom(s: seq<Byte>): ChaosRule
    requires |s| == RULE_BYTES
  {
    FromParts(s[..28], s[28..])
  }

  /** The parts of a concatenation are its slices. */
  lemma FiveParts(a: seq<Byte>, b: seq<Byte>, c: seq<Byte>, d: seq<Byte>, e: seq<Byte>, s: seq<Byte>)
    requires |a| == |b| == 8 && |c| == |d| == |e| == 4 && s == a + b + c + d + e
    ensures s[0..8] == a && s[8..16] == b && s[16..20] == c && s[20..24] == d && s[24..28] == e
  {
  }

  lemma WideRoundTrip(r: ChaosRule)
    ensures var s := WideBytes(r);
            && FromLe64(s[0..8]) == r.seed && FromLe64(s[8..16]) == r.delayNs && FromLe32(s[16..20]) == r.id
            && FromLe32(s[20..24]) == r.srcIp && FromLe32(s[24..28]) == r.dstIp
  {
    var s := WideBytes(r);
    FiveParts(Le64(r.seed), Le64(r.delayNs), Le32(r.id), Le32(r.srcIp), Le32(r.dstIp), s);
    Le64RoundTrip(r.seed, s[0..8]);
    Le64RoundTrip(r.delayNs, s[0..8]);
    Le32RoundTrip(r.id, s[16..20]);
    Le32RoundTrip(r.srcIp, s[16..20]);
    Le32RoundTrip(r.dstIp, s[16..20]);
  }

  lemma FourParts(a: seq<Byte>, b: seq<Byte>, c: seq<Byte>, d: seq<Byte>, s: seq<Byte>)
    requires |a| == |b| == |c| == 2 && |d| == 6 && s == a + b + c + d
    ensures s[0..2] == a && s[2..4] == b && s[4..6] == c && s[6..12] == d
    ensures forall k :: 0 <= k < 6 ==> s[6 + k] == d[k]
  {
  }

  lemma NarrowRoundTrip(r: ChaosRule)
    ensures var s := NarrowBytes(r);
            && FromLe16(s[0..2]) == r.srcPort && FromLe16(s[2..4]) == r.dstPort && FromLe16(s[4..6]) == r.probability
            && s[6] == r.protocol && s[7] == r.action && s[8] == r.enabled && (s[9], s[10], s[11]) == r.reserved
  {
    var s := NarrowBytes(r);
    var last := [r.protocol, r.action, r.enabled, r.reserved.0, r.reserved.1, r.reserved.2];
    FourParts(Le16(r.srcPort), Le16(r.dstPort), Le16(r.probability), last, s);
    assert s[6 + 0] == last[0] && s[6 + 1] == last[1] && s[6 + 2] == last[2];
    assert s[6 + 3] == last[3] && s[6 + 4] == last[4] && s[6 + 5] == last[5];
    Le16RoundTrip(r.srcPort, s[0..2]);
    Le16RoundTrip(r.dstPort, s[0..2]);
    Le16RoundTrip(r.probability, s[0..2]);
  }

  /** A rule survives the copy out and back. */
  lemma RuleRoundTrip(r: ChaosRule)
    ensures RuleFrom(RuleBytes(r)) == r
  {
    var s := RuleBytes(r);
    assert s[..28] == WideBytes(r) && s[28..] == NarrowBytes(r);
    WideRoundTrip(r);
    NarrowRoundTrip(r);
  }

  lemma WideBytesBack(w: seq<Byte>, n: seq<Byte>)
    requires |w| == 28 && |n| == 12
    ensures WideBytes(FromParts(w, n)) == w
  {
    Le64RoundTrip(0, w[0..8]);
    Le64RoundTrip(0, w[8..16]);
    Le32RoundTrip(0, w[16..20]);
    Le32RoundTrip(0, w[20..24]);
    Le32RoundTrip(0, w[24..28]);
    assert w == w[0..8] + w[8..16] + w[16..20] + w[20..24] + w[24..28];
  }

  lemma NarrowBytesBack(w: seq<Byte>, n: seq<Byte>)
    requires |w| == 28 && |n| == 12
    ensures NarrowBytes(FromParts(w, n)) == n
  {
    Le16RoundTrip(0, n[0..2]);
    Le16RoundTrip(0, n[2..4]);
    Le16RoundTrip(0, n[4..6]);
    assert n == n[0..2] + n[2..4] + n[4..6] + [n[6], n[7], n[8], n[9], n[10], n[11]];
  }

  /** And so does every 40-byte payload. */
  lemma BytesRoundTrip(s: seq<Byte>)
    requires |s| == RULE_BYTES
    ensures RuleBytes(RuleFrom(s)) == s
  {
    WideBytesBack(s[..28], s[28..]);
    NarrowBytesBack(s[..28], s[28..]);
    assert s == s[..28] + s[28..];
  }

  /** Items of one width, one after another. */
  function Listing<T>(items: seq<T>, bytes: T -> seq<Byte>): seq<Byte> {
    if items == [] then [] else Listing(items[..|items| - 1], bytes) + bytes(items[|items| - 1])
  }

  /** Cut a listing into `count` items of `width` bytes. */
  function Cut<T>(s: seq<Byte>, count: nat, width: nat, item: seq<Byte> -> T): seq<T>
    requires |s| == width * count
    decreases count
  {
    if count == 0 then []
    else
      assert width * count == width * (count - 1) + width;
      Cut(s[..|s| - width], count - 1, width, item) + [item(s[|s| - width..])]
  }

  lemma {:induction false} ListingLength<T(!new)>(items: seq<T>, bytes: T -> seq<Byte>, width: nat)
    requires forall x :: |bytes(x)| == width
    ensures |Listing(items, bytes)| == width * |items|
    decreases |items|
  {
    if items == [] {
    } else {
      ListingLength(items[..|items| - 1], bytes, width);
      assert width * |items| == width * (|items| - 1) + width;
    }
  }

  /** Cutting a listing gives the items back. */
  lemma {:induction false} CutOfListing<T(!new)>(items: seq<T>, bytes: T -> seq<Byte>, width: nat, item: seq<Byte> -> T)
    requires forall x :: |bytes(x)| == width && item(bytes(x)) == x
    ensures |Listing(items, bytes)| == width * |items|
    ensures Cut(Listing(items, bytes), |items|, width, item) == items
    decreases |items|
  {
    ListingLength(items, bytes, width);
    if items == [] {
    } else {
      var n := |items| - 1;
      CutOfListing(items[..n], bytes, width, item);
      var s, front := Listing(items, bytes), Listing(items[..n], bytes);
      assert s[..|s| - width] == front && s[|s| - width..] == bytes(items[n]);
    }
  }

  /** The rules as `ListRules` sends them. */
  function TableBytes(rules: seq<ChaosRule>): seq<Byte> {
    Listing(rules, RuleBytes)
  }

  function RuleOf(s: seq<Byte>): ChaosRule {
    if |s| == RULE_BYTES then RuleFrom(s) else DEFAULT_RULE
  }

  function TableFrom(s: seq<Byte>, count: nat): seq<ChaosRule>
    requires |s| == RULE_BYTES * count
  {
    Cut(s, count, RULE_BYTES, RuleOf)
  }

  lemma TableRoundTrip(rules: seq<ChaosRule>)
    ensures |TableBytes(rules)| == RULE_BYTES * |rules|
    ensures TableFrom(TableBytes(rules), |rules|) == rules
  {
    forall r: ChaosRule
      ensures |RuleBytes(r)| == RULE_BYTES && RuleOf(RuleBytes(r)) == r
    {
      RuleRoundTrip(r);
    }
    CutOfListing(rules, RuleBytes, RULE_BYTES, RuleOf);
  }
}
