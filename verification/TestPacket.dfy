/** `build_test_packet`: the printer whose output the parser must read back. */
module TestPackets {
  import opened Machine
  import opened PacketParser

  const HEADER_BYTES: nat := 54
  const TEST_SRC_PORT: U16 := 12345

  /** The IPv4 total length is a 16-bit cast of the real one. */
  function TotalLength(payloadSize: nat): U16 {
    (IPV4_BASE_HEADER_BYTES + TCP_BASE_HEADER_BYTES + payloadSize) % POW16
  }

  /** Byte `k` of the headers, given the bytes of the total length and of the port; those not
      named are zero. */
  function HeaderByteOf(total1: Byte, total0: Byte, port1: Byte, port0: Byte, k: nat): Byte {
    match k
    case 12 => 0x08
    case 14 => 0x45
    case 16 => total1
    case 17 => total0
    case 22 => 64
    case 23 => PROTOCOL_TCP
    case 34 => 0x30
    case 35 => 0x39
    case 36 => port1
    case 37 => port0
    case 46 => 0x50
    case _ => 0
  }

  function HeaderByte(dstPort: U16, payloadSize: nat, k: nat): Byte {
    var port: int := dstPort;
    var total: int := TotalLength(payloadSize);
    HeaderByteOf(total / 0x100, total % 0x100, port / 0x100, port % 0x100, k)
  }

  function Header(dstPort: U16, payloadSize: nat): (s: seq<Byte>)
    ensures |s| == HEADER_BYTES
  {
    seq(HEADER_BYTES, k requires 0 <= k => HeaderByte(dstPort, payloadSize, k))
  }

  function TestPayload(size: nat): (s: seq<Byte>)
    ensures |s| == size
  {
    seq(size, i requires 0 <= i => (i % 0x100) as Byte)
  }

  function TestPacket(dstPort: U16, payloadSize: nat): (s: seq<Byte>)
    ensures |s| == HEADER_BYTES + payloadSize
  {
    Header(dstPort, payloadSize) + TestPayload(payloadSize)
  }

  method BuildTestPacket(frame: array<Byte>, dstPort: U16, payloadSize: nat)
    requires HEADER_BYTES + payloadSize <= frame.Length
    modifies frame
    ensures frame[..HEADER_BYTES + payloadSize] == TestPacket(dstPort, payloadSize)
    ensures frame[HEADER_BYTES + payloadSize..] == old(frame[HEADER_BYTES + payloadSize..])
  {
    WriteHeader(frame, dstPort, payloadSize);
    for i := 0 to payloadSize
      invariant frame[..HEADER_BYTES] == Header(dstPort, payloadSize)
      invariant forall k :: 0 <= k < i ==> frame[HEADER_BYTES + k] == k % 0x100
      invariant frame[HEADER_BYTES + payloadSize..] == old(frame[HEADER_BYTES + payloadSize..])
    {
      frame[HEADER_BYTES + i] := i % 0x100;
    }
    assert frame[HEADER_BYTES..HEADER_BYTES + payloadSize] == TestPayload(payloadSize);
    assert frame[..HEADER_BYTES + payloadSize] ==
           frame[..HEADER_BYTES] + frame[HEADER_BYTES..HEADER_BYTES + payloadSize];
  }

  method Clear(frame: array<Byte>, n: nat)
    requires n <= frame.Length
    modifies frame
    ensures forall k :: 0 <= k < n ==> frame[k] == 0
    ensures frame[n..] == old(frame[n..])
  {
    for i := 0 to n
      invariant forall k :: 0 <= k < i ==> frame[k] == 0
      invariant frame[n..] == old(frame[n..])
    {
      frame[i] := 0;
    }
  }

  method SetFields(frame: array<Byte>, total1: Byte, total0: Byte, port1: Byte, port0: Byte)
    requires HEADER_BYTES <= frame.Length && forall k :: 0 <= k < HEADER_BYTES ==> frame[k] == 0
    modifies frame
    ensures forall k :: 0 <= k < HEADER_BYTES ==> frame[k] == HeaderByteOf(total1, total0, port1, port0, k)
    ensures forall k :: HEADER_BYTES <= k < frame.Length ==> frame[k] == old(frame[k])
  {
    frame[12], frame[14] := 0x08, 0x45;
    frame[16], frame[17] := total1, total0;
    frame[22], frame[23] := 64, PROTOCOL_TCP;
    frame[34], frame[35] := 0x30, 0x39;
    frame[36], frame[37] := port1, port0;
    frame[46] := 0x50;
  }

  /** Clear the whole packet, then set the bytes that are not zero. */
  method WriteHeader(frame: array<Byte>, dstPort: U16, payloadSize: nat)
    requires HEADER_BYTES + payloadSize <= frame.Length
    modifies frame
    ensures frame[..HEADER_BYTES] == Header(dstPort, payloadSize)
    ensures frame[HEADER_BYTES + payloadSize..] == old(frame[HEADER_BYTES + payloadSize..])
  {
    Clear(frame, HEADER_BYTES + payloadSize);
    var total: int := TotalLength(payloadSize);
    var port: int := dstPort;
    SetFields(frame, total / 0x100, total % 0x100, port / 0x100, port % 0x100);
  }

  /** The fields the parser looks at, in a frame of `54 + payloadSize` bytes. */
  ghost predicate HasFields(f: seq<Byte>, dstPort: U16, payloadSize: nat) {
    && |f| == HEADER_BYTES + payloadSize
    && ReadU16(f, 12) == ETHER_TYPE_IPV4
    && f[14] == 0x45
    && ReadU16(f, 16) == TotalLength(payloadSize)
    && ReadU16(f, 20) == 0
    && f[23] == PROTOCOL_TCP
    && ReadU16(f, 34) == TEST_SRC_PORT
    && ReadU16(f, 36) == dstPort
    && f[46] == 0x50
  }

  lemma TestPacketHasFields(dstPort: U16, payloadSize: nat)
    ensures HasFields(TestPacket(dstPort, payloadSize), dstPort, payloadSize)
  {
    var f := TestPacket(dstPort, payloadSize);
    assert forall k :: 0 <= k < HEADER_BYTES ==> f[k] == HeaderByte(dstPort, payloadSize, k);
  }

  lemma FieldsParse(f: seq<Byte>, dstPort: U16, payloadSize: nat)
    requires HasFields(f, dstPort, payloadSize)
    ensures var v := Parse(f);
            && (v.status == Ok <==> TotalLength(payloadSize) >= 40)
            && (v.status == Ok ==>
                  && v.payloadLength == TotalLength(payloadSize) - 40
                  && v.srcPort == TEST_SRC_PORT && v.dstPort == dstPort
                  && v.payloadOffset == HEADER_BYTES && v.tcpHeaderLength == 20)
  {
  }

  /** For every port and payload size, the packet parses back to that port and a payload of
      that size if and only if the size fits the 16-bit total length: 65495 bytes at most. */
  lemma TestPacketParses(dstPort: U16, payloadSize: nat)
    ensures var v := Parse(TestPacket(dstPort, payloadSize));
            && (v.status == Ok && v.payloadLength == payloadSize <==> payloadSize <= 65495)
            && (v.status == Ok ==>
                  && v.srcPort == TEST_SRC_PORT && v.dstPort == dstPort
                  && v.payloadOffset == HEADER_BYTES && v.tcpHeaderLength == 20)
  {
    TestPacketHasFields(dstPort, payloadSize);
    FieldsParse(TestPacket(dstPort, payloadSize), dstPort, payloadSize);
  }

  /** What is recovered is the payload itself. */
  lemma TestPayloadRecovered(dstPort: U16, payloadSize: nat)
    requires payloadSize <= 65495
    ensures var frame := TestPacket(dstPort, payloadSize);
            var v := Parse(frame);
            frame[v.payloadOffset..v.payloadOffset + v.payloadLength] == TestPayload(payloadSize)
  {
    TestPacketParses(dstPort, payloadSize);
  }
}
