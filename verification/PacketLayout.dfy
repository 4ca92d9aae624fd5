/** A printer for every packet the parser is for, after section 3.1 of RFC 791, section 3.1 of
    RFC 9293 and RFC 768: any addresses, ports, IPv4 options, TCP options, payload, bytes of
    the datagram past the UDP length and padding past the datagram. Parsing what it prints
    gives every field back, and every frame that parses is one it prints. */
module PacketLayout {
  import opened Machine
  import opened PacketParser

  datatype Transport =
    | Tcp(srcPort: U16, dstPort: U16, numbers: seq<Byte>, reserved: Byte, flags: seq<Byte>,
          options: seq<Byte>)
    | Udp(srcPort: U16, dstPort: U16, checksum: seq<Byte>, surplus: seq<Byte>)

  datatype Packet = Packet(
    macs: seq<Byte>,
    service: Byte,
    identification: seq<Byte>,
    flags: Byte,
    ttl: Byte,
    checksum: seq<Byte>,
    srcIp: U32,
    dstIp: U32,
    options: seq<Byte>,
    transport: Transport,
    payload: seq<Byte>,
    padding: seq<Byte>)

  /** Lengths as the headers can express them; the three flag bits of an unfragmented packet. */
  predicate WellFormed(p: Packet) {
    && |p.macs| == 12 && |p.identification| == 2 && |p.checksum| == 2
    && p.flags % 0x20 == 0
    && |p.options| % 4 == 0 && |p.options| <= 40
    && (match p.transport
        case Tcp(_, _, numbers, reserved, flags, options) =>
          |numbers| == 8 && reserved < 16 && |flags| == 7 && |options| % 4 == 0 && |options| <= 40
        case Udp(_, _, checksum, _) => |checksum| == 2)
    && TotalLength(p) < POW16
  }

  function TransportHeaderLength(t: Transport): nat {
    match t
    case Tcp(_, _, _, _, _, options) => TCP_BASE_HEADER_BYTES + |options|
    case Udp(_, _, _, _) => UDP_HEADER_BYTES
  }

  /** Bytes the datagram carries past the end of what UDP counts. */
  function Surplus(t: Transport): seq<Byte> {
    if t.Udp? then t.surplus else []
  }

  function IPv4HeaderLength(p: Packet): nat { IPV4_BASE_HEADER_BYTES + |p.options| }

  function TotalLength(p: Packet): nat {
    IPv4HeaderLength(p) + TransportHeaderLength(p.transport) + |p.payload| + |Surplus(p.transport)|
  }

  function IPv4Bytes(p: Packet): (s: seq<Byte>)
    requires WellFormed(p)
    ensures |s| == IPv4HeaderLength(p)
  {
    [0x40 + IPv4HeaderLength(p) / 4, p.service] + U16Bytes(TotalLength(p)) + p.identification +
    [p.flags, 0, p.ttl, if p.transport.Tcp? then PROTOCOL_TCP else PROTOCOL_UDP] + p.checksum +
    U32Bytes(p.srcIp) + U32Bytes(p.dstIp) + p.options
  }

  function TransportBytes(p: Packet): (s: seq<Byte>)
    requires WellFormed(p)
    ensures |s| == TransportHeaderLength(p.transport)
  {
    match p.transport
    case Tcp(src, dst, numbers, reserved, flags, options) =>
      U16Bytes(src) + U16Bytes(dst) + numbers + [TransportHeaderLength(p.transport) / 4 * 16 + reserved] + flags + options
    case Udp(src, dst, checksum, _) =>
      U16Bytes(src) + U16Bytes(dst) + U16Bytes(UDP_HEADER_BYTES + |p.payload|) + checksum
  }

  function FrameBytes(p: Packet): (s: seq<Byte>)
    requires WellFormed(p)
    ensures |s| == ETHERNET_HEADER_BYTES + TotalLength(p) + |p.padding|
  {
    p.macs + [0x08, 0x00] + IPv4Bytes(p) + TransportBytes(p) + p.payload + Surplus(p.transport) + p.padding
  }

  /** The view the parser should come to. */
  function ExpectedView(p: Packet): PacketView
    requires WellFormed(p)
  {
    var l4 := ETHERNET_HEADER_BYTES + IPv4HeaderLength(p);
    var head := TransportHeaderLength(p.transport);
    PacketView(|FrameBytes(p)|, ParseStatus.Ok, ETHER_TYPE_IPV4,
               if p.transport.Tcp? then PROTOCOL_TCP else PROTOCOL_UDP,
               IPv4HeaderLength(p), TotalLength(p), p.srcIp, p.dstIp, ETHERNET_HEADER_BYTES, l4,
               l4 + head, |p.payload|, if p.transport.Tcp? then head else 0, p.transport.srcPort, p.transport.dstPort)
  }

  // ---------------------------------------------------------------------------------------
  // Fields in place
  // ---------------------------------------------------------------------------------------

  /** What the parser reads of the IPv4 header that starts at 14. */
  ghost predicate IPv4InPlace(f: seq<Byte>, p: Packet)
    requires WellFormed(p)
  {
    && ETHERNET_HEADER_BYTES + TotalLength(p) <= |f|
    && ReadU16(f, 12) == ETHER_TYPE_IPV4
    && f[14] == 0x40 + IPv4HeaderLength(p) / 4
    && ReadU16(f, 16) == TotalLength(p)
    && ReadU16(f, 20) % 0x2000 == 0
    && f[23] == (if p.transport.Tcp? then PROTOCOL_TCP else PROTOCOL_UDP)
    && ReadU32(f, 26) == p.srcIp && ReadU32(f, 30) == p.dstIp
  }

  ghost predicate TransportInPlace(f: seq<Byte>, p: Packet)
    requires WellFormed(p) && ETHERNET_HEADER_BYTES + TotalLength(p) <= |f|
  {
    var l4 := ETHERNET_HEADER_BYTES + IPv4HeaderLength(p);
    && ReadU16(f, l4) == p.transport.srcPort && ReadU16(f, l4 + 2) == p.transport.dstPort
    && (p.transport.Tcp? ==> f[l4 + 12] == TransportHeaderLength(p.transport) / 4 * 16 + p.transport.reserved)
    && (p.transport.Udp? ==> ReadU16(f, l4 + 4) == UDP_HEADER_BYTES + |p.payload|)
  }

  lemma IPv4Slices(p: Packet)
    requires WellFormed(p)
    ensures var s := IPv4Bytes(p);
            && s[0] == 0x40 + IPv4HeaderLength(p) / 4 && s[2..4] == U16Bytes(TotalLength(p))
            && s[6] == p.flags && s[7] == 0
            && s[9] == (if p.transport.Tcp? then PROTOCOL_TCP else PROTOCOL_UDP)
            && s[12..16] == U32Bytes(p.srcIp) && s[16..20] == U32Bytes(p.dstIp)
  {
  }

  lemma SliceOfSlice(f: seq<Byte>, base: nat, s: seq<Byte>, lo: nat, hi: nat)
    requires base + |s| <= |f| && f[base..base + |s|] == s && lo <= hi <= |s|
    ensures f[base + lo..base + hi] == s[lo..hi]
  {
    forall i | 0 <= i < |s|
      ensures f[base + i] == s[i]
    {
      assert f[base + i] == f[base..base + |s|][i];
    }
  }

  lemma FrameSlices(p: Packet)
    requires WellFormed(p)
    ensures var f, l4 := FrameBytes(p), ETHERNET_HEADER_BYTES + IPv4HeaderLength(p);
            && f[12] == 0x08 && f[13] == 0x00
            && f[14..14 + |IPv4Bytes(p)|] == IPv4Bytes(p)
            && f[l4..l4 + |TransportBytes(p)|] == TransportBytes(p)
  {
  }

  lemma IPv4Printed(p: Packet)
    requires WellFormed(p)
    ensures IPv4InPlace(FrameBytes(p), p)
  {
    var f, s := FrameBytes(p), IPv4Bytes(p);
    FrameSlices(p);
    IPv4Slices(p);
    SliceOfSlice(f, 14, s, 0, 1);
    SliceOfSlice(f, 14, s, 2, 4);
    SliceOfSlice(f, 14, s, 6, 8);
    SliceOfSlice(f, 14, s, 9, 10);
    SliceOfSlice(f, 14, s, 12, 16);
    SliceOfSlice(f, 14, s, 16, 20);
    ReadBackU16(f, 16, TotalLength(p));
    ReadBackU32(f, 26, p.srcIp);
    ReadBackU32(f, 30, p.dstIp);
    assert f[14] == f[14..15][0] && f[20] == f[20..22][0] && f[21] == f[20..22][1] && f[23] == f[23..24][0];
    FlagBits(p.flags);
  }

  lemma FlagBits(flags: Byte)
    requires flags % 0x20 == 0
    ensures (flags * 0x100) % 0x2000 == 0
  {
    var b: int := flags;
    DivUnique(b * 0x100, 0x2000, b / 0x20, 0);
  }

  lemma TransportPrinted(p: Packet)
    requires WellFormed(p)
    ensures TransportInPlace(FrameBytes(p), p)
  {
    var f, s, l4 := FrameBytes(p), TransportBytes(p), ETHERNET_HEADER_BYTES + IPv4HeaderLength(p);
    FrameSlices(p);
    SliceOfSlice(f, l4, s, 0, 2);
    SliceOfSlice(f, l4, s, 2, 4);
    assert s[0..2] == U16Bytes(p.transport.srcPort) && s[2..4] == U16Bytes(p.transport.dstPort);
    ReadBackU16(f, l4, p.transport.srcPort);
    ReadBackU16(f, l4 + 2, p.transport.dstPort);
    if p.transport.Tcp? {
      SliceOfSlice(f, l4, s, 12, 13);
      assert f[l4 + 12] == f[l4 + 12..l4 + 13][0] == s[12..13][0];
    } else {
      SliceOfSlice(f, l4, s, 4, 6);
      assert s[4..6] == U16Bytes(UDP_HEADER_BYTES + |p.payload|);
      ReadBackU16(f, l4 + 4, UDP_HEADER_BYTES + |p.payload|);
    }
  }

  /** The length nibbles spell the header lengths. */
  lemma Nibbles(words: nat, low: nat)
    requires words < 16 && low < 16
    ensures (0x40 + words) / 16 == 4 && (0x40 + words) % 16 == words && (words * 16 + low) / 16 == words
  {
  }

  lemma TransportParses(f: seq<Byte>, p: Packet, view: PacketView)
    requires WellFormed(p) && ETHERNET_HEADER_BYTES + TotalLength(p) <= |f| && TransportInPlace(f, p)
    requires view.ipv4HeaderLength == IPv4HeaderLength(p) && view.ipv4TotalLength == TotalLength(p)
    requires view.l4Offset == ETHERNET_HEADER_BYTES + IPv4HeaderLength(p)
    requires view.protocol == if p.transport.Tcp? then PROTOCOL_TCP else PROTOCOL_UDP
    ensures var head := TransportHeaderLength(p.transport);
            ParseTransport(f, view) ==
            view.(srcPort := p.transport.srcPort, dstPort := p.transport.dstPort, payloadOffset := view.l4Offset + head,
                  payloadLength := |p.payload|, status := ParseStatus.Ok,
                  tcpHeaderLength := if p.transport.Tcp? then head else view.tcpHeaderLength)
  {
    if p.transport.Tcp? {
      Nibbles(TransportHeaderLength(p.transport) / 4, p.transport.reserved);
    }
  }

  lemma IPv4Parses(f: seq<Byte>, p: Packet, view: PacketView)
    requires WellFormed(p) && IPv4InPlace(f, p) && TransportInPlace(f, p)
    requires view.l3Offset == ETHERNET_HEADER_BYTES
    ensures var l4 := ETHERNET_HEADER_BYTES + IPv4HeaderLength(p);
            ParseIPv4(f, view) ==
            ParseTransport(f, view.(ipv4HeaderLength := IPv4HeaderLength(p), ipv4TotalLength := TotalLength(p),
                                    protocol := f[23], srcIp := p.srcIp, dstIp := p.dstIp, l4Offset := l4))
  {
    Nibbles(IPv4HeaderLength(p) / 4, 0);
  }

  /** Parsing gives back every field of every well-formed TCP or UDP packet, whatever its
      options and whatever pads the frame. */
  lemma ParseOfFrame(p: Packet)
    requires WellFormed(p)
    ensures Parse(FrameBytes(p)) == ExpectedView(p)
  {
    var f := FrameBytes(p);
    IPv4Printed(p);
    TransportPrinted(p);
    var view := BlankView(|f|).(etherType := ETHER_TYPE_IPV4, l3Offset := ETHERNET_HEADER_BYTES);
    assert Parse(f) == ParseIPv4(f, view);
    IPv4Parses(f, p, view);
    var l4 := ETHERNET_HEADER_BYTES + IPv4HeaderLength(p);
    TransportParses(f, p, view.(ipv4HeaderLength := IPv4HeaderLength(p), ipv4TotalLength := TotalLength(p),
                                protocol := f[23], srcIp := p.srcIp, dstIp := p.dstIp, l4Offset := l4));
  }

  /** And the payload it points at is the payload. */
  lemma PayloadOfFrame(p: Packet)
    requires WellFormed(p)
    ensures var v := ExpectedView(p);
            FrameBytes(p)[v.payloadOffset..v.payloadOffset + v.payloadLength] == p.payload
  {
  }
}
