/** The codec as it runs: encode in place into an output buffer, decode a received one. */
module ProtocolMethods {
  import opened Machine
  import opened Bits
  import opened Crc32
  import opened Crc32Methods
  import opened Protocol

  method WriteBytes(output: array<Byte>, offset: nat, bytes: seq<Byte>)
    requires offset + |bytes| <= output.Length
    modifies output
    ensures output[..] == Splice(old(output[..]), offset, bytes)
  {
    for k := 0 to |bytes|
      invariant forall i :: 0 <= i < output.Length ==>
                  output[i] == if offset <= i < offset + k then bytes[i - offset] else old(output[i])
    {
      output[offset + k] := bytes[k];
    }
    assert output[offset..offset + |bytes|] == bytes;
    SpliceIs(old(output[..]), output[..], offset, bytes);
  }

  /** Every header field in its place, the CRC field zero. */
  method WriteHeaderWithoutCrc(header: MessageHeader, output: array<Byte>)
    requires HEADER_BYTES <= output.Length
    modifies output
    ensures output[..] == Splice(old(output[..]), 0, HeaderBytes(header.(crc := 0)))
  {
    WriteBytes(output, 0, U16Bytes(header.magic));
    WriteBytes(output, 2, [header.version]);
    WriteBytes(output, 3, [header.opcode]);
    WriteBytes(output, 4, U32Bytes(header.sequence));
    WriteBytes(output, 8, U32Bytes(header.payloadLength));
    WriteBytes(output, 12, U32Bytes(0));
    WriteBytes(output, 16, U64Bytes(header.timestamp));
    FieldsInPlace(old(output[..]), U16Bytes(header.magic), [header.version], [header.opcode], U32Bytes(header.sequence),
                  U32Bytes(header.payloadLength), U32Bytes(0), U64Bytes(header.timestamp));
    FieldByField(header);
  }

  lemma FieldByField(header: MessageHeader)
    ensures HeaderBytes(header.(crc := 0)) ==
            U16Bytes(header.magic) + [header.version] + [header.opcode] + U32Bytes(header.sequence) +
            U32Bytes(header.payloadLength) + U32Bytes(0) + U64Bytes(header.timestamp)
  {
    assert [header.version] + [header.opcode] == [header.version, header.opcode];
    SameStart(U16Bytes(header.magic), [header.version], [header.opcode]);
  }

  lemma SameStart(a: seq<Byte>, b: seq<Byte>, c: seq<Byte>)
    ensures a + (b + c) == a + b + c
  {
  }

  /** Adjacent writes are one write. */
  lemma SpliceAdjacent(s: seq<Byte>, base: nat, p: seq<Byte>, q: seq<Byte>)
    requires base + |p| + |q| <= |s|
    ensures Splice(Splice(s, base, p), base + |p|, q) == Splice(s, base, p + q)
  {
  }

  lemma FieldsInPlace(s: seq<Byte>, a: seq<Byte>, b: seq<Byte>, c: seq<Byte>, d: seq<Byte>, e: seq<Byte>,
                      f: seq<Byte>, g: seq<Byte>)
    requires HEADER_BYTES <= |s|
    requires |a| == 2 && |b| == 1 && |c| == 1 && |d| == 4 && |e| == 4 && |f| == 4 && |g| == 8
    ensures Splice(Splice(Splice(Splice(Splice(Splice(Splice(s, 0, a), 2, b), 3, c), 4, d), 8, e), 12, f), 16, g) ==
            Splice(s, 0, a + b + c + d + e + f + g)
  {
    SpliceAdjacent(s, 0, a, b);
    SpliceAdjacent(s, 0, a + b, c);
    SpliceAdjacent(s, 0, a + b + c, d);
    SpliceAdjacent(s, 0, a + b + c + d, e);
    SpliceAdjacent(s, 0, a + b + c + d + e, f);
    SpliceAdjacent(s, 0, a + b + c + d + e + f, g);
  }

  ghost predicate IsTable(table: array<U32>)
    reads table
  {
    table.Length == 256 && forall i :: 0 <= i < 256 ==> table[i] == TableEntry(i)
  }

  method EncodeMessage(table: array<U32>, header: MessageHeader, payload: seq<Byte>, output: array<Byte>)
    returns (status: ProtocolStatus, written: nat)
    requires IsTable(table) && table as object != output
    modifies output
    ensures status == EncodeStatus(|payload|, output.Length)
    ensures status == Ok ==> written == HEADER_BYTES + |payload| &&
                             output[..] == Splice(old(output[..]), 0, Encoding(header, payload))
    ensures status != Ok ==> written == 0 && output[..] == old(output[..])
  {
    if |payload| > MAX_PAYLOAD {
      return PayloadTooLarge, 0;
    }
    var total := HEADER_BYTES + |payload|;
    if output.Length < total {
      return BufferTooSmall, 0;
    }
    var normalized := header.(magic := MAGIC, version := VERSION, payloadLength := |payload|, crc := 0);
    WriteHeaderWithoutCrc(normalized, output);
    WriteBytes(output, HEADER_BYTES, payload);
    SpliceAdjacent(old(output[..]), 0, HeaderBytes(normalized), payload);
    var crc := Crc32Update(table, ALL_ONES, output[..total]);
    XorFits32(crc, ALL_ONES);
    crc := Xor(crc, ALL_ONES);
    WriteBytes(output, 12, U32Bytes(crc));
    SealInPlace(old(output[..]), header, payload);
    return Ok, total;
  }

  /** Writing the CRC over its zeroed field turns the normalised message into the encoding. */
  lemma SealInPlace(before: seq<Byte>, h: MessageHeader, payload: seq<Byte>)
    requires |payload| <= MAX_PAYLOAD && HEADER_BYTES + |payload| <= |before|
    ensures var plain := HeaderBytes(Normalized(h, payload)) + payload;
            Splice(Splice(before, 0, plain), 12, U32Bytes(Checksum(plain))) == Splice(before, 0, Encoding(h, payload))
  {
    var n := Normalized(h, payload);
    var plain := HeaderBytes(n) + payload;
    var c := Checksum(plain);
    HeaderCrcField(n, c);
    SpliceFront(HeaderBytes(n), payload, 12, U32Bytes(c));
    SpliceInside(before, plain, 12, U32Bytes(c));
  }

  lemma SpliceFront(a: seq<Byte>, b: seq<Byte>, k: nat, q: seq<Byte>)
    requires k + |q| <= |a|
    ensures Splice(a + b, k, q) == Splice(a, k, q) + b
  {
  }

  lemma HeaderCrcField(h: MessageHeader, c: U32)
    ensures HeaderBytes(h.(crc := c)) == Splice(HeaderBytes(h), 12, U32Bytes(c))
  {
    var front := U16Bytes(h.magic) + [h.version, h.opcode] + U32Bytes(h.sequence) + U32Bytes(h.payloadLength);
    assert HeaderBytes(h)[..12] == front;
    assert HeaderBytes(h)[16..] == U64Bytes(h.timestamp);
  }

  lemma SpliceInside(s: seq<Byte>, p: seq<Byte>, k: nat, q: seq<Byte>)
    requires |p| <= |s| && k + |q| <= |p|
    ensures Splice(Splice(s, 0, p), k, q) == Splice(s, 0, Splice(p, k, q))
  {
  }

  /** The decoder computes the CRC in two chunks, the header with its CRC field zeroed and then
      the payload; the encoder computed it in one pass. */
  method DecodeMessage(table: array<U32>, input: seq<Byte>) returns (r: DecodeResult)
    requires IsTable(table)
    ensures r == Decode(input)
  {
    if |input| < HEADER_BYTES {
      return Rejected(BufferTooSmall);
    }
    var header := ReadHeader(input);
    if header.magic != MAGIC {
      return Rejected(InvalidMagic);
    }
    if header.version != VERSION {
      return Rejected(InvalidVersion);
    }
    if header.payloadLength > MAX_PAYLOAD {
      return Rejected(PayloadTooLarge);
    }
    if |input| < HEADER_BYTES + header.payloadLength {
      return Rejected(TruncatedPayload);
    }
    var payload := input[HEADER_BYTES..HEADER_BYTES + header.payloadLength];
    var crc := Crc32Update(table, ALL_ONES, WithoutCrc(input));
    if header.payloadLength > 0 {
      crc := Crc32Update(table, crc, payload);
    }
    UpdateConcat(ALL_ONES, WithoutCrc(input), payload);
    XorFits32(crc, ALL_ONES);
    if Xor(crc, ALL_ONES) != header.crc {
      return Rejected(CrcMismatch);
    }
    return DecodeResult(Ok, header, payload);
  }
}
