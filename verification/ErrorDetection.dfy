/** What corruption the decoder is certain to notice. */
module ErrorDetection {
  import opened Machine
  import opened Crc32
  import opened Protocol

  /** The windows a change may lie in: before the length field, in the CRC field, or from the
      timestamp to the end of the payload. */
  predicate Window(i: nat, n: nat) {
    i + n <= 8 || (12 <= i && i + n <= 16) || 16 <= i
  }

  /** The bytes the checksum covers: the message with its CRC field zeroed. */
  function Covered(m: seq<Byte>): (r: seq<Byte>)
    requires HEADER_BYTES <= |m|
    ensures |r| == |m|
  {
    m[..12] + [0, 0, 0, 0] + m[16..]
  }

  /** What follows a message changes nothing the decoder reads of its header. */
  lemma HeaderOfPrefix(m: seq<Byte>, tail: seq<Byte>)
    requires HEADER_BYTES <= |m|
    ensures ReadHeader(m + tail) == ReadHeader(m)
  {
    assert forall k :: 0 <= k < |m| ==> (m + tail)[k] == m[k];
  }

  lemma CoveredByDecoder(m: seq<Byte>, tail: seq<Byte>)
    requires HEADER_BYTES <= |m|
    ensures WithoutCrc(m + tail) + (m + tail)[HEADER_BYTES..|m|] == Covered(m)
  {
    var input := m + tail;
    assert input[HEADER_BYTES..|m|] == m[HEADER_BYTES..];
    assert input[..12] == m[..12] && input[16..HEADER_BYTES] == m[16..HEADER_BYTES];
    assert m[16..HEADER_BYTES] + m[HEADER_BYTES..] == m[16..];
  }

  /** The decoder's verdict on a message whose length field is right. */
  lemma DecodeOfWhole(m: seq<Byte>, tail: seq<Byte>)
    requires HEADER_BYTES <= |m| && ReadU32(m, 8) == |m| - HEADER_BYTES <= MAX_PAYLOAD
    ensures Decode(m + tail).status == Ok <==>
              ReadU16(m, 0) == MAGIC && m[2] == VERSION && Checksum(Covered(m)) == ReadU32(m, 12)
  {
    HeaderOfPrefix(m, tail);
    CoveredByDecoder(m, tail);
    SumDecides(m + tail, |m| - HEADER_BYTES, Covered(m));
  }

  /** With the length settled, magic, version and checksum decide. */
  lemma SumDecides(input: seq<Byte>, length: nat, covered: seq<Byte>)
    requires HEADER_BYTES + length <= |input| && ReadHeader(input).payloadLength == length <= MAX_PAYLOAD
    requires covered == WithoutCrc(input) + input[HEADER_BYTES..HEADER_BYTES + length]
    ensures Decode(input).status == Ok <==>
              var h := ReadHeader(input); h.magic == MAGIC && h.version == VERSION && Checksum(covered) == h.crc
  {
  }

  /** The facts DecodeOfWhole asks of an encoding, and that it is accepted. */
  lemma EncodingIsWhole(h: MessageHeader, payload: seq<Byte>)
    requires |payload| <= MAX_PAYLOAD
    ensures var m := Encoding(h, payload);
            && ReadU16(m, 0) == MAGIC && m[2] == VERSION
            && ReadU32(m, 8) == |payload| && Checksum(Covered(m)) == ReadU32(m, 12)
  {
    var m := Encoding(h, payload);
    DecodeOfEncoding(h, payload, []);
    assert m + [] == m;
    assert m[..HEADER_BYTES] == HeaderBytes(Sealed(h, payload));
    HeaderRoundTrip(Sealed(h, payload), m);
    DecodeOfWhole(m, []);
  }

  lemma LengthUntouched(m: seq<Byte>, i: nat, w: seq<Byte>)
    requires HEADER_BYTES <= |m| && i + |w| <= |m| && Window(i, |w|)
    ensures ReadU32(Splice(m, i, w), 8) == ReadU32(m, 8)
  {
    var r := Splice(m, i, w);
    assert r[8] == m[8] && r[9] == m[9] && r[10] == m[10] && r[11] == m[11];
  }

  lemma SameWordSameBytes(r: seq<Byte>, m: seq<Byte>, offset: nat)
    requires offset + 4 <= |r| && offset + 4 <= |m| && ReadU32(r, offset) == ReadU32(m, offset)
    ensures forall k :: offset <= k < offset + 4 ==> r[k] == m[k]
  {
    U32Fields(r, offset);
    U32Fields(m, offset);
    assert r[offset..offset + 4] == m[offset..offset + 4];
    forall k | offset <= k < offset + 4
      ensures r[k] == m[k]
    {
      assert r[k] == r[offset..offset + 4][k - offset];
      assert m[k] == m[offset..offset + 4][k - offset];
    }
  }

  lemma CoveredAt(m: seq<Byte>, k: nat)
    requires HEADER_BYTES <= |m| && k < |m|
    ensures Covered(m)[k] == if 12 <= k < 16 then 0 else m[k]
  {
  }

  /** Bytes outside a change are as they were. */
  lemma OutsideChange(m: seq<Byte>, i: nat, w: seq<Byte>, low: nat, high: nat)
    requires i + |w| <= |m| && low <= high <= |m| && (high <= i || i + |w| <= low)
    ensures Splice(m, i, w)[low..high] == m[low..high]
  {
    forall k | low <= k < high
      ensures Splice(m, i, w)[k] == m[k]
    {
      SpliceAt(m, i, w, k);
    }
  }

  lemma InsideChange(m: seq<Byte>, i: nat, w: seq<Byte>)
    requires i + |w| <= |m|
    ensures Splice(m, i, w)[i..i + |w|] == w
  {
    forall k | 0 <= k < |w|
      ensures Splice(m, i, w)[i + k] == w[k]
    {
      SpliceAt(m, i, w, i + k);
    }
  }

  /** A change inside the CRC field leaves the computed checksum and alters the stored one. */
  lemma CrcFieldChange(m: seq<Byte>, i: nat, w: seq<Byte>)
    requires HEADER_BYTES <= |m| && 12 <= i && i + |w| <= 16 && w != m[i..i + |w|]
    ensures Covered(Splice(m, i, w)) == Covered(m)
    ensures ReadU32(Splice(m, i, w), 12) != ReadU32(m, 12)
  {
    var r := Splice(m, i, w);
    OutsideChange(m, i, w, 0, 12);
    OutsideChange(m, i, w, 16, |m|);
    InsideChange(m, i, w);
    if ReadU32(r, 12) == ReadU32(m, 12) {
      SameWordSameWindow(r, m, 12, i, i + |w|);
    }
  }

  lemma SameWordSameWindow(r: seq<Byte>, m: seq<Byte>, offset: nat, low: nat, high: nat)
    requires offset + 4 <= |r| && offset + 4 <= |m| && ReadU32(r, offset) == ReadU32(m, offset)
    requires offset <= low <= high <= offset + 4
    ensures r[low..high] == m[low..high]
  {
    SameWordSameBytes(r, m, offset);
  }

  /** A change outside it leaves the stored checksum and changes the covered bytes in place. */
  lemma CoveredChange(m: seq<Byte>, i: nat, w: seq<Byte>)
    requires HEADER_BYTES <= |m| && i + |w| <= |m| && (i + |w| <= 8 || 16 <= i)
    ensures Covered(Splice(m, i, w)) == Splice(Covered(m), i, w)
    ensures Covered(m)[i..i + |w|] == m[i..i + |w|]
    ensures ReadU32(Splice(m, i, w), 12) == ReadU32(m, 12)
  {
    var r := Splice(m, i, w);
    forall k | 0 <= k < |m|
      ensures Covered(r)[k] == Splice(Covered(m), i, w)[k]
    {
      CoveredAt(r, k);
      CoveredAt(m, k);
      SpliceAt(m, i, w, k);
      SpliceAt(Covered(m), i, w, k);
    }
    forall k | i <= k < i + |w|
      ensures Covered(m)[k] == m[k]
    {
      CoveredAt(m, k);
    }
    OutsideChange(m, i, w, 12, 16);
    SameSlice(r, m, 12);
  }

  lemma SameSlice(r: seq<Byte>, m: seq<Byte>, offset: nat)
    requires offset + 4 <= |r| && offset + 4 <= |m| && r[offset..offset + 4] == m[offset..offset + 4]
    ensures ReadU32(r, offset) == ReadU32(m, offset)
  {
    U32Fields(m, offset);
    ReadBackU32(r, offset, ReadU32(m, offset));
  }

  lemma BurstInCovered(m: seq<Byte>, i: nat, w: seq<Byte>)
    requires HEADER_BYTES <= |m| && i + |w| <= |m| && (i + |w| <= 8 || 16 <= i)
    requires |w| <= 4 && w != m[i..i + |w|]
    ensures Checksum(Covered(Splice(m, i, w))) != Checksum(Covered(m))
  {
    CoveredChange(m, i, w);
    var c := Covered(m);
    assert c == c[..i] + c[i..i + |w|] + c[i + |w|..];
    BurstChangesChecksum(c[..i], c[i..i + |w|], w, c[i + |w|..]);
  }

  lemma BurstOnWhole(m: seq<Byte>, i: nat, w: seq<Byte>, tail: seq<Byte>)
    requires HEADER_BYTES <= |m| && ReadU32(m, 8) == |m| - HEADER_BYTES <= MAX_PAYLOAD
    requires Checksum(Covered(m)) == ReadU32(m, 12)
    requires i + |w| <= |m| && Window(i, |w|) && |w| <= 4 && w != m[i..i + |w|]
    ensures Decode(Splice(m, i, w) + tail).status != Ok
  {
    LengthUntouched(m, i, w);
    DecodeOfWhole(Splice(m, i, w), tail);
    if 12 <= i && i + |w| <= 16 {
      CrcFieldChange(m, i, w);
    } else {
      CoveredChange(m, i, w);
      BurstInCovered(m, i, w);
    }
  }

  /** Any change confined to four consecutive bytes that does not touch the length field, and
      does not straddle the edge of the CRC field, makes the decoder reject the message,
      whatever bytes follow it. */
  lemma BurstRejected(h: MessageHeader, payload: seq<Byte>, i: nat, w: seq<Byte>, tail: seq<Byte>)
    requires |payload| <= MAX_PAYLOAD && |w| <= 4
    requires i + |w| <= HEADER_BYTES + |payload| && Window(i, |w|)
    requires w != Encoding(h, payload)[i..i + |w|]
    ensures Decode(Splice(Encoding(h, payload), i, w) + tail).status != Ok
  {
    EncodingIsWhole(h, payload);
    BurstOnWhole(Encoding(h, payload), i, w, tail);
  }

  /** In particular: any single byte outside the length field. */
  lemma SingleByteRejected(h: MessageHeader, payload: seq<Byte>, i: nat, b: Byte, tail: seq<Byte>)
    requires |payload| <= MAX_PAYLOAD && i < HEADER_BYTES + |payload| && !(8 <= i < 12)
    requires b != Encoding(h, payload)[i]
    ensures Decode(Encoding(h, payload)[i := b] + tail).status != Ok
  {
    var m := Encoding(h, payload);
    SpliceOne(m, i, b);
    BurstRejected(h, payload, i, [b], tail);
  }

  lemma SpliceOne(m: seq<Byte>, i: nat, b: Byte)
    requires i < |m|
    ensures m[i..i + 1] == [m[i]] && Splice(m, i, [b]) == m[i := b]
  {
  }

  /** And the length field itself: a length that grew makes a lone message incomplete. */
  lemma LongerLengthRejected(h: MessageHeader, payload: seq<Byte>, length: U32)
    requires |payload| <= MAX_PAYLOAD && |payload| < length
    ensures Decode(Splice(Encoding(h, payload), 8, U32Bytes(length))).status in {TruncatedPayload, PayloadTooLarge}
  {
    var m := Encoding(h, payload);
    var r := Splice(m, 8, U32Bytes(length));
    assert r[8..12] == U32Bytes(length);
    ReadBackU32(r, 8, length);
    assert m[..HEADER_BYTES] == HeaderBytes(Sealed(h, payload));
    HeaderRoundTrip(Sealed(h, payload), m);
    assert r[0] == m[0] && r[1] == m[1] && r[2] == m[2];
  }
}
