/** What the checksum cannot see. The bit step is onto as well as injective, so four bytes can
    steer the register to any value: five changed bytes can pass, and so can a length field
    that shrank. */
module ErrorLimits {
  import opened Machine
  import opened Bits
  import opened Crc32
  import opened Protocol
  import opened ErrorDetection

  const TOP_BIT: U32 := 0x8000_0000

  // ---------------------------------------------------------------------------------------
  // The register can be steered
  // ---------------------------------------------------------------------------------------

  /** The register one bit step earlier. */
  function BitBack(c: U32): nat {
    if c < TOP_BIT then 2 * c else 2 * Xor(c, POLYNOMIAL) + 1
  }

  /** Two numbers with the same top bit differ only below it. */
  lemma TopBitsCancel(c: nat, d: nat, top: nat, k: nat)
    requires top == Pow2(k) && top <= c < 2 * top && top <= d < 2 * top
    ensures Xor(c, d) < top
  {
    var low, low' := c - top, d - top;
    assert Pow2(k) * 1 == top;
    XorOfParts(1, low, k);
    XorOfParts(1, low', k);
    XorSwap(top, low, top, low');
    XorSelf(top);
    XorBound(low, low', k);
    XorComm(0, Xor(low, low'));
    XorZero(Xor(low, low'));
  }

  /** Stepping back and then forward, for any polynomial whose top bit is set. */
  lemma BackAndForth(c: nat, p: nat, top: nat, k: nat)
    requires top == Pow2(k) && top <= p < 2 * top && c < 2 * top
    ensures var b := if c < top then 2 * c else 2 * Xor(c, p) + 1;
            b < 2 * top && Reduce(b / 2, b % 2 != 0, p) == c
  {
    if c < top {
      HalfOfEven(c);
    } else {
      TopBitsCancel(c, p, top, k);
      XorCancels(p, c);
      OddHalf(Xor(c, p));
    }
  }

  lemma OddHalf(x: nat)
    ensures (2 * x + 1) / 2 == x && (2 * x + 1) % 2 == 1
  {
  }

  lemma BitBackUndone(c: U32)
    ensures BitBack(c) < POW32 && BitStep(BitBack(c)) == c
  {
    Pow2Of32();
    assert Pow2(32) == 2 * Pow2(31);
    BackAndForth(c, POLYNOMIAL, TOP_BIT, 31);
  }

  /** Every register is reached from some register, in any number of steps. */
  lemma {:induction false} BitStepsOnto(c: U32, n: nat) returns (start: U32)
    ensures BitSteps(start, n) == c
    decreases n
  {
    if n == 0 {
      start := c;
    } else {
      var next := BitStepsOnto(c, n - 1);
      BitBackUndone(next);
      start := BitBack(next);
    }
  }

  lemma TopByte(x: nat, n: nat) returns (top: Byte, rest: nat)
    requires 0 < n && x < Pow2(8 * n)
    ensures rest < Pow2(8 * (n - 1)) && x == rest + Pow2(8 * (n - 1)) * top
  {
    var p := Pow2(8 * (n - 1));
    Pow2Adds(8 * (n - 1), 8);
    Pow2Of32();
    var q := x / p;
    if q >= 0x100 {
      MulLe(0x100, q, p);
    }
    top, rest := q, x % p;
  }

  lemma WordPush(front: seq<Byte>, b: Byte)
    ensures Word(front + [b]) == Word(front) + Pow2(8 * |front|) * b
  {
    assert (front + [b])[..|front|] == front;
  }

  /** The little-endian bytes of a number. */
  lemma {:induction false} WordOnto(x: nat, n: nat) returns (bytes: seq<Byte>)
    requires x < Pow2(8 * n)
    ensures |bytes| == n && Word(bytes) == x
    decreases n
  {
    if n == 0 {
      bytes := [];
    } else {
      var top, rest := TopByte(x, n);
      var front := WordOnto(rest, n - 1);
      WordPush(front, top);
      bytes := front + [top];
    }
  }

  /** From any register, four bytes lead to any register. */
  lemma FourBytesOnto(crc: U32, target: U32) returns (w: seq<Byte>)
    ensures |w| == 4 && Update(crc, w) == target
  {
    var start := BitStepsOnto(target, 32);
    XorFits32(crc, start);
    Pow2Of32();
    w := WordOnto(Xor(crc, start), 4);
    UpdateIsWord(crc, w);
    XorCancels(crc, start);
  }

  // ---------------------------------------------------------------------------------------
  // Five bytes
  // ---------------------------------------------------------------------------------------

  /** Any change of one byte can be made good by the four that follow it. */
  lemma FiveBytesSameChecksum(before: seq<Byte>, s: seq<Byte>, b: Byte, after: seq<Byte>) returns (w: seq<Byte>)
    requires |s| == 5
    ensures |w| == 4 && Checksum(before + ([b] + w) + after) == Checksum(before + s + after)
  {
    var target := Update(Update(ALL_ONES, before), s);
    var crc := Update(Update(ALL_ONES, before), [b]);
    w := FourBytesOnto(crc, target);
    UpdateConcat(Update(ALL_ONES, before), [b], w);
    UpdateConcat(ALL_ONES, before, [b] + w);
    UpdateConcat(ALL_ONES, before, s);
    UpdateConcat(ALL_ONES, before + ([b] + w), after);
    UpdateConcat(ALL_ONES, before + s, after);
  }

  /** The bound of four bytes is exact: in every message with five payload bytes to change,
      wherever they are and whatever the first becomes, some change of the five is accepted. */
  lemma FiveByteChangeAccepted(h: MessageHeader, payload: seq<Byte>, i: nat, b: Byte, tail: seq<Byte>)
    returns (w: seq<Byte>)
    requires i + 5 <= |payload| <= MAX_PAYLOAD && b != payload[i]
    ensures |w| == 4
    ensures var changed := Splice(Encoding(h, payload), HEADER_BYTES + i, [b] + w);
            changed != Encoding(h, payload) && Decode(changed + tail).status == Ok
  {
    var m, at := Encoding(h, payload), HEADER_BYTES + i;
    var c := Covered(m);
    ThreeParts(c, at, at + 5);
    w := FiveBytesSameChecksum(c[..at], c[at..at + 5], b, c[at + 5..]);
    EncodingIsWhole(h, payload);
    WholeAccepted(m, at, [b] + w, tail);
    SpliceAt(m, at, [b] + w, at);
    PayloadAt(h, payload, i);
  }

  lemma ThreeParts(s: seq<Byte>, i: nat, j: nat)
    requires i <= j <= |s|
    ensures s[..i] + s[i..j] + s[j..] == s
  {
  }

  lemma PayloadAt(h: MessageHeader, payload: seq<Byte>, i: nat)
    requires i < |payload| <= MAX_PAYLOAD
    ensures Encoding(h, payload)[HEADER_BYTES + i] == payload[i]
  {
  }

  lemma WholeAccepted(m: seq<Byte>, at: nat, w: seq<Byte>, tail: seq<Byte>)
    requires HEADER_BYTES <= at && at + |w| <= |m| && ReadU32(m, 8) == |m| - HEADER_BYTES <= MAX_PAYLOAD
    requires ReadU16(m, 0) == MAGIC && m[2] == VERSION && Checksum(Covered(m)) == ReadU32(m, 12)
    requires var c := Covered(m); Checksum(c[..at] + w + c[at + |w|..]) == Checksum(c)
    ensures Decode(Splice(m, at, w) + tail).status == Ok
  {
    var r := Splice(m, at, w);
    LengthUntouched(m, at, w);
    CoveredChange(m, at, w);
    assert Splice(Covered(m), at, w) == Covered(m)[..at] + w + Covered(m)[at + |w|..];
    assert r[0] == m[0] && r[1] == m[1] && r[2] == m[2];
    DecodeOfWhole(r, tail);
  }

  // ---------------------------------------------------------------------------------------
  // A shorter length
  // ---------------------------------------------------------------------------------------

  /** The bytes a checksum covers in an encoding of this payload. */
  function Summed(h: MessageHeader, payload: seq<Byte>): seq<Byte>
    requires |payload| <= MAX_PAYLOAD
  {
    HeaderBytes(Normalized(h, payload)) + payload
  }

  /** A header but for its length and CRC fields. */
  lemma HeaderOutside(a: MessageHeader, b: MessageHeader)
    requires a == b.(payloadLength := a.payloadLength, crc := a.crc)
    ensures HeaderBytes(a)[..8] == HeaderBytes(b)[..8] && HeaderBytes(a)[16..] == HeaderBytes(b)[16..]
    ensures HeaderBytes(a)[8..12] == U32Bytes(a.payloadLength) && HeaderBytes(a)[12..16] == U32Bytes(a.crc)
  {
    HeaderSlices(a);
    HeaderSlices(b);
  }

  lemma NormalizedBytes(h: MessageHeader, payload: seq<Byte>, header: seq<Byte>)
    requires |payload| <= MAX_PAYLOAD && |header| == HEADER_BYTES
    requires header == HeaderBytes(Normalized(h, payload))
    ensures header == header[..8] + U32Bytes(|payload|) + [0, 0, 0, 0] + header[16..]
  {
    HeaderSlices(Normalized(h, payload));
    assert header[..8] + header[8..12] + header[12..16] + header[16..] == header;
    assert U32Bytes(0) == [0, 0, 0, 0];
  }

  lemma CoveredSplice(bytes: seq<Byte>, payload: seq<Byte>, short: seq<Byte>, field: seq<Byte>, n: nat, r: seq<Byte>)
    requires |bytes| == |short| == HEADER_BYTES && |field| == 4 && n <= |payload|
    requires short == short[..8] + field + [0, 0, 0, 0] + short[16..]
    requires bytes[..8] == short[..8] && bytes[16..] == short[16..]
    requires r == Splice(bytes + payload, 8, field)
    ensures Covered(r[..HEADER_BYTES + n]) == short + payload[..n] && r[8..12] == field
  {
    assert r == bytes[..8] + field + bytes[12..] + payload;
    var front := r[..HEADER_BYTES + n];
    assert front == bytes[..8] + field + bytes[12..] + payload[..n];
    assert front[..12] == short[..8] + field && front[16..] == short[16..] + payload[..n];
  }

  /** What is covered once the length field has been overwritten. */
  lemma CoveredPrefix(h: MessageHeader, payload: seq<Byte>, length: nat, r: seq<Byte>)
    requires length <= |payload| <= MAX_PAYLOAD && r == Splice(Encoding(h, payload), 8, U32Bytes(length))
    ensures Covered(r[..HEADER_BYTES + length]) == Summed(h, payload[..length])
    ensures ReadU32(r, 8) == length
  {
    var sent, short := Sealed(h, payload), HeaderBytes(Normalized(h, payload[..length]));
    HeaderOutside(sent, Normalized(h, payload[..length]));
    NormalizedBytes(h, payload[..length], short);
    CoveredSplice(HeaderBytes(sent), payload, short, U32Bytes(length), length, r);
    ReadBackU32(r, 8, length);
  }

  /** A message whose length field was overwritten with a shorter length is accepted if and
      only if the bytes then covered happen to have the same checksum. */
  lemma ShorterLengthIff(h: MessageHeader, payload: seq<Byte>, length: nat, r: seq<Byte>)
    requires length <= |payload| <= MAX_PAYLOAD && r == Splice(Encoding(h, payload), 8, U32Bytes(length))
    ensures Decode(r).status == Ok <==> Checksum(Summed(h, payload[..length])) == Checksum(Summed(h, payload))
  {
    var front, rest := r[..HEADER_BYTES + length], r[HEADER_BYTES + length..];
    ShorterMessage(h, payload, length, r, front);
    TwoParts(r, HEADER_BYTES + length);
    AcceptedBySum(front, rest, r, Checksum(Summed(h, payload[..length])), Checksum(Summed(h, payload)));
  }

  lemma TwoParts(s: seq<Byte>, i: nat)
    requires i <= |s|
    ensures s[..i] + s[i..] == s
  {
  }

  lemma AcceptedBySum(m: seq<Byte>, tail: seq<Byte>, input: seq<Byte>, computed: U32, stored: U32)
    requires HEADER_BYTES <= |m| && ReadU32(m, 8) == |m| - HEADER_BYTES <= MAX_PAYLOAD && input == m + tail
    requires ReadU16(m, 0) == MAGIC && m[2] == VERSION
    requires computed == Checksum(Covered(m)) && stored == ReadU32(m, 12)
    ensures Decode(input).status == Ok <==> computed == stored
  {
    DecodeOfWhole(m, tail);
  }

  lemma ShorterMessage(h: MessageHeader, payload: seq<Byte>, length: nat, r: seq<Byte>, front: seq<Byte>)
    requires length <= |payload| <= MAX_PAYLOAD && r == Splice(Encoding(h, payload), 8, U32Bytes(length))
    requires front == r[..HEADER_BYTES + length]
    ensures ReadU16(front, 0) == MAGIC && front[2] == VERSION && ReadU32(front, 8) == length
    ensures ReadU32(front, 12) == Checksum(Summed(h, payload)) && Covered(front) == Summed(h, payload[..length])
  {
    var m := Encoding(h, payload);
    EncodingIsWhole(h, payload);
    CoveredPrefix(h, payload, length, r);
    assert r[..8] == m[..8] && r[12..] == m[12..];
    SameHead(m, r, HEADER_BYTES + length);
    SealedChecksum(h, payload, m);
  }

  lemma SameHead(m: seq<Byte>, r: seq<Byte>, n: nat)
    requires HEADER_BYTES <= n <= |m| == |r| && r[..8] == m[..8] && r[12..] == m[12..]
    ensures ReadU16(r[..n], 0) == ReadU16(m, 0) && r[..n][2] == m[2] && ReadU32(r[..n], 12) == ReadU32(m, 12)
    ensures ReadU32(r[..n], 8) == ReadU32(r, 8)
  {
    assert forall k :: 0 <= k < 8 ==> r[k] == r[..8][k] && m[k] == m[..8][k];
    assert forall k :: 0 <= k < 12 ==> r[12 + k] == r[12..][k] && m[12 + k] == m[12..][k];
  }

  lemma SealedChecksum(h: MessageHeader, payload: seq<Byte>, m: seq<Byte>)
    requires |payload| <= MAX_PAYLOAD && m == Encoding(h, payload)
    ensures ReadU32(m, 12) == Checksum(Summed(h, payload))
  {
    assert m[..HEADER_BYTES] == HeaderBytes(Sealed(h, payload));
    HeaderRoundTrip(Sealed(h, payload), m);
  }

  /** And for every header and every payload, four more bytes exist that make it happen: sent
      with them, the message is also accepted with the length it has without them. */
  lemma ShrunkLengthAccepted(h: MessageHeader, payload: seq<Byte>) returns (w: seq<Byte>)
    requires |payload| + 4 <= MAX_PAYLOAD
    ensures |w| == 4
    ensures Decode(Splice(Encoding(h, payload + w), 8, U32Bytes(|payload|))).status == Ok
  {
    var header := HeaderBytes(Normalized(h, payload + [0, 0, 0, 0]));
    w := FourBytesOnto(Update(ALL_ONES, header + payload), Update(ALL_ONES, Summed(h, payload)));
    SteeredSum(h, payload, header, w);
    assert (payload + w)[..|payload|] == payload;
    ShorterLengthIff(h, payload + w, |payload|, Splice(Encoding(h, payload + w), 8, U32Bytes(|payload|)));
  }

  lemma SteeredSum(h: MessageHeader, payload: seq<Byte>, header: seq<Byte>, w: seq<Byte>)
    requires |payload| + 4 <= MAX_PAYLOAD && |w| == 4 && header == HeaderBytes(Normalized(h, payload + [0, 0, 0, 0]))
    requires Update(Update(ALL_ONES, header + payload), w) == Update(ALL_ONES, Summed(h, payload))
    ensures Checksum(Summed(h, payload + w)) == Checksum(Summed(h, payload))
  {
    LongSum(h, payload, header, w);
    SameSum(header + payload, w, Summed(h, payload));
  }

  lemma LongSum(h: MessageHeader, payload: seq<Byte>, header: seq<Byte>, w: seq<Byte>)
    requires |payload| + 4 <= MAX_PAYLOAD && |w| == 4 && header == HeaderBytes(Normalized(h, payload + [0, 0, 0, 0]))
    ensures Summed(h, payload + w) == header + payload + w
  {
    assert Normalized(h, payload + w) == Normalized(h, payload + [0, 0, 0, 0]);
  }

  lemma SameSum(a: seq<Byte>, w: seq<Byte>, b: seq<Byte>)
    requires Update(Update(ALL_ONES, a), w) == Update(ALL_ONES, b)
    ensures Checksum(a + w) == Checksum(b)
  {
    UpdateConcat(ALL_ONES, a, w);
  }
}
