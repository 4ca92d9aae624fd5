/** The control protocol's codec: a 24-byte big-endian header, a payload, and a CRC-32 over
    both computed with the CRC field zero. */
module Protocol {
  import opened Machine
  import opened Crc32

  const MAGIC: U16 := 0x4358
  const VERSION: Byte := 1
  const HEADER_BYTES: nat := 24
  const MAX_PAYLOAD: nat := 64 * 1024

  datatype ProtocolStatus =
    | Ok
    | BufferTooSmall
    | PayloadTooLarge
    | InvalidMagic
    | InvalidVersion
    | TruncatedPayload
    | CrcMismatch
    | UnknownOpcode
    | InvalidPayload
    | RuleTableFull
    | RuleIndexOutOfRange

  datatype MessageHeader = MessageHeader(
    magic: U16, version: Byte, opcode: Byte, sequence: U32, payloadLength: U32, crc: U32, timestamp: U64)

  const BLANK_HEADER := MessageHeader(MAGIC, VERSION, 0x01, 0, 0, 0, 0)

  datatype DecodeResult = DecodeResult(status: ProtocolStatus, header: MessageHeader, payload: seq<Byte>)

  function Rejected(status: ProtocolStatus): DecodeResult { DecodeResult(status, BLANK_HEADER, []) }

  function HeaderBytes(h: MessageHeader): (s: seq<Byte>)
    ensures |s| == HEADER_BYTES
  {
    U16Bytes(h.magic) + [h.version, h.opcode] + U32Bytes(h.sequence) + U32Bytes(h.payloadLength) +
    U32Bytes(h.crc) + U64Bytes(h.timestamp)
  }

  /** What `encode_message` turns the caller's header into, before the CRC is known. */
  function Normalized(h: MessageHeader, payload: seq<Byte>): MessageHeader
    requires |payload| <= MAX_PAYLOAD
  {
    h.(magic := MAGIC, version := VERSION, payloadLength := |payload|, crc := 0)
  }

  /** The header as it is sent. */
  function Sealed(h: MessageHeader, payload: seq<Byte>): MessageHeader
    requires |payload| <= MAX_PAYLOAD
  {
    var n := Normalized(h, payload);
    n.(crc := Checksum(HeaderBytes(n) + payload))
  }

  function Encoding(h: MessageHeader, payload: seq<Byte>): (s: seq<Byte>)
    requires |payload| <= MAX_PAYLOAD
    ensures |s| == HEADER_BYTES + |payload|
  {
    HeaderBytes(Sealed(h, payload)) + payload
  }

  function EncodeStatus(payloadSize: nat, outputSize: nat): ProtocolStatus {
    if payloadSize > MAX_PAYLOAD then PayloadTooLarge
    else if outputSize < HEADER_BYTES + payloadSize then BufferTooSmall
    else Ok
  }

  function ReadHeader(s: seq<Byte>): MessageHeader
    requires HEADER_BYTES <= |s|
  {
    MessageHeader(ReadU16(s, 0), s[2], s[3], ReadU32(s, 4), ReadU32(s, 8), ReadU32(s, 12), ReadU64(s, 16))
  }

  /** The header bytes with the CRC field zeroed. */
  function WithoutCrc(s: seq<Byte>): (r: seq<Byte>)
    requires HEADER_BYTES <= |s|
    ensures |r| == HEADER_BYTES
  {
    s[..12] + [0, 0, 0, 0] + s[16..HEADER_BYTES]
  }

  function Decode(input: seq<Byte>): DecodeResult {
    if |input| < HEADER_BYTES then Rejected(BufferTooSmall)
    else
      var header := ReadHeader(input);
      if header.magic != MAGIC then Rejected(InvalidMagic)
      else if header.version != VERSION then Rejected(InvalidVersion)
      else if header.payloadLength > MAX_PAYLOAD then Rejected(PayloadTooLarge)
      else if |input| < HEADER_BYTES + header.payloadLength then Rejected(TruncatedPayload)
      else
        var payload := input[HEADER_BYTES..HEADER_BYTES + header.payloadLength];
        if Checksum(WithoutCrc(input) + payload) != header.crc then Rejected(CrcMismatch)
        else DecodeResult(Ok, header, payload)
  }

  // ---------------------------------------------------------------------------------------
  // Headers
  // ---------------------------------------------------------------------------------------

  lemma HeaderSlices(h: MessageHeader)
    ensures var s := HeaderBytes(h);
            && s[0..2] == U16Bytes(h.magic) && s[2] == h.version && s[3] == h.opcode
            && s[4..8] == U32Bytes(h.sequence) && s[8..12] == U32Bytes(h.payloadLength)
            && s[12..16] == U32Bytes(h.crc) && s[16..24] == U64Bytes(h.timestamp)
  {
  }

  /** Reading a header back from any message that starts with its bytes. */
  lemma HeaderRoundTrip(h: MessageHeader, s: seq<Byte>)
    requires HEADER_BYTES <= |s| && s[..HEADER_BYTES] == HeaderBytes(h)
    ensures ReadHeader(s) == h
  {
    HeaderSlices(h);
    var b := HeaderBytes(h);
    assert s[2] == b[2] && s[3] == b[3];
    assert s[0..2] == b[0..2] && s[4..8] == b[4..8] && s[8..12] == b[8..12];
    assert s[12..16] == b[12..16] && s[16..24] == b[16..24];
    ReadBackU16(s, 0, h.magic);
    ReadBackU32(s, 4, h.sequence);
    ReadBackU32(s, 8, h.payloadLength);
    ReadBackU32(s, 12, h.crc);
    ReadBackU64(s, 16, h.timestamp);
  }

  /** Every 24 bytes are the bytes of the header read from them. */
  lemma HeaderUnique(s: seq<Byte>)
    requires HEADER_BYTES <= |s|
    ensures HeaderBytes(ReadHeader(s)) == s[..HEADER_BYTES]
  {
    U16Fields(s, 0);
    U32Fields(s, 4);
    U32Fields(s, 8);
    U32Fields(s, 12);
    U64Fields(s, 16);
    assert s[..24] == s[0..2] + [s[2], s[3]] + s[4..8] + s[8..12] + s[12..16] + s[16..24];
  }

  lemma ZeroedHeader(h: MessageHeader, s: seq<Byte>)
    requires HEADER_BYTES <= |s| && s[..HEADER_BYTES] == HeaderBytes(h)
    ensures WithoutCrc(s) == HeaderBytes(h.(crc := 0))
  {
    var b := HeaderBytes(h);
    assert s[..12] == b[..12] && s[16..24] == b[16..24];
    ZeroedBytes(h);
  }

  lemma ZeroedBytes(h: MessageHeader)
    ensures HeaderBytes(h.(crc := 0)) == HeaderBytes(h)[..12] + [0, 0, 0, 0] + HeaderBytes(h)[16..24]
  {
    var front := U16Bytes(h.magic) + [h.version, h.opcode] + U32Bytes(h.sequence) + U32Bytes(h.payloadLength);
    assert U32Bytes(0) == [0, 0, 0, 0];
    assert HeaderBytes(h)[..12] == front;
  }

  // ---------------------------------------------------------------------------------------
  // Round trips
  // ---------------------------------------------------------------------------------------

  /** Decode undoes encode for every header and every payload the encoder accepts, whatever
      bytes follow the message. */
  lemma DecodeOfEncoding(h: MessageHeader, payload: seq<Byte>, tail: seq<Byte>)
    requires |payload| <= MAX_PAYLOAD
    ensures Decode(Encoding(h, payload) + tail) == DecodeResult(Ok, Sealed(h, payload), payload)
  {
    var input, sealed := Encoding(h, payload) + tail, Sealed(h, payload);
    assert input[..HEADER_BYTES] == HeaderBytes(sealed);
    HeaderRoundTrip(sealed, input);
    ZeroedHeader(sealed, input);
    assert input[HEADER_BYTES..HEADER_BYTES + |payload|] == payload;
    assert sealed.(crc := 0) == Normalized(h, payload);
  }

  /** What decodes is what was encoded: an accepted input starts with the encoding of the
      very header and payload it decodes to. */
  lemma EncodingOfDecoded(input: seq<Byte>)
    requires Decode(input).status == Ok
    ensures var r := Decode(input);
            && |r.payload| <= MAX_PAYLOAD && r.header == Sealed(r.header, r.payload)
            && Encoding(r.header, r.payload) <= input
  {
    var r := Decode(input);
    HeaderUnique(input);
    ZeroedHeader(r.header, input);
    assert r.header.(crc := 0) == Normalized(r.header, r.payload);
    assert Encoding(r.header, r.payload) == input[..HEADER_BYTES] + r.payload == input[..HEADER_BYTES + |r.payload|];
  }

  lemma EncodedIsAccepted(input: seq<Byte>, h: MessageHeader, payload: seq<Byte>)
    requires |payload| <= MAX_PAYLOAD && Encoding(h, payload) <= input
    ensures Decode(input).status == Ok
  {
    var m := Encoding(h, payload);
    DecodeOfEncoding(h, payload, input[|m|..]);
    assert input == m + input[|m|..];
  }

  /** The input starts with an encoding. */
  ghost predicate StartsEncoded(input: seq<Byte>) {
    exists h: MessageHeader, payload: seq<Byte> :: |payload| <= MAX_PAYLOAD && Encoding(h, payload) <= input
  }

  /** The decoder accepts exactly the inputs that start with some encoding. */
  lemma AcceptedIff(input: seq<Byte>)
    ensures Decode(input).status == Ok <==> StartsEncoded(input)
  {
    if Decode(input).status == Ok {
      EncodingOfDecoded(input);
    } else if StartsEncoded(input) {
      var h: MessageHeader, payload: seq<Byte> :| |payload| <= MAX_PAYLOAD && Encoding(h, payload) <= input;
      EncodedIsAccepted(input, h, payload);
    }
  }
}
