/** The other half of the parser's meaning: a frame that parses is the printed form of the
    packet read from it, so the parser accepts exactly the frames that can be printed. */
module PacketReprint {
  import opened Machine
  import opened PacketParser
  import opened PacketLayout

  function TransportOf(f: seq<Byte>, v: PacketView): Transport
    requires v.l4Offset + UDP_HEADER_BYTES <= v.payloadOffset
    requires v.protocol == PROTOCOL_TCP ==> v.l4Offset + TCP_BASE_HEADER_BYTES <= v.payloadOffset
    requires v.payloadOffset + v.payloadLength <= ETHERNET_HEADER_BYTES + v.ipv4TotalLength <= |f|
  {
    var l4 := v.l4Offset;
    if v.protocol == PROTOCOL_TCP then
      Tcp(v.srcPort, v.dstPort, f[l4 + 4..l4 + 12], f[l4 + 12] % 16, f[l4 + 13..l4 + 20], f[l4 + 20..v.payloadOffset])
    else
      Udp(v.srcPort, v.dstPort, f[l4 + 6..l4 + 8],
          f[v.payloadOffset + v.payloadLength..ETHERNET_HEADER_BYTES + v.ipv4TotalLength])
  }

  /** What the header fields say about a frame that parses. */
  ghost predicate Described(f: seq<Byte>, v: PacketView) {
    && 34 <= v.l4Offset && v.l4Offset + UDP_HEADER_BYTES <= v.payloadOffset
    && v.payloadOffset + v.payloadLength <= ETHERNET_HEADER_BYTES + v.ipv4TotalLength <= |f|
    && v.l4Offset == ETHERNET_HEADER_BYTES + v.ipv4HeaderLength
    && ReadU16(f, 12) == ETHER_TYPE_IPV4
    && f[14] / 16 == 4 && f[14] % 16 * 4 == v.ipv4HeaderLength
    && ReadU16(f, 16) == v.ipv4TotalLength && ReadU16(f, 20) % 0x2000 == 0
    && f[23] == v.protocol && ReadU32(f, 26) == v.srcIp && ReadU32(f, 30) == v.dstIp
    && ReadU16(f, v.l4Offset) == v.srcPort && ReadU16(f, v.l4Offset + 2) == v.dstPort
    && (if v.protocol == PROTOCOL_TCP then
          && v.l4Offset + TCP_BASE_HEADER_BYTES <= v.payloadOffset
          && f[v.l4Offset + 12] / 16 * 4 == v.payloadOffset - v.l4Offset
          && v.payloadOffset + v.payloadLength == ETHERNET_HEADER_BYTES + v.ipv4TotalLength
        else
          && v.protocol == PROTOCOL_UDP && v.payloadOffset == v.l4Offset + UDP_HEADER_BYTES
          && ReadU16(f, v.l4Offset + 4) == UDP_HEADER_BYTES + v.payloadLength)
  }

  lemma ParsedIsDescribed(f: seq<Byte>)
    requires Parse(f).status == ParseStatus.Ok
    ensures Described(f, Parse(f))
  {
  }

  /** The packet a described frame holds. */
  ghost function PacketOf(f: seq<Byte>, v: PacketView): Packet
    requires Described(f, v)
  {
    Packet(f[..12], f[15], f[18..20], f[20], f[22], f[24..26], v.srcIp, v.dstIp, f[34..v.l4Offset],
           TransportOf(f, v), f[v.payloadOffset..v.payloadOffset + v.payloadLength],
           f[ETHERNET_HEADER_BYTES + v.ipv4TotalLength..])
  }

  lemma NoFragment(high: Byte, low: Byte)
    requires (high * 0x100 + low) % 0x2000 == 0
    ensures high % 0x20 == 0 && low == 0
  {
    var h: int := high;
    var q := (h * 0x100 + low) / 0x2000;
    DivUnique(h * 0x100 + low, 0x100, h, low);
    DivUnique(h * 0x100 + low, 0x100, q * 0x20, 0);
  }

  lemma PacketLengths(f: seq<Byte>, v: PacketView)
    requires Described(f, v)
    ensures Lengths(PacketOf(f, v), v)
  {
  }

  lemma HeaderWords(b: nat, length: nat)
    requires b % 16 * 4 == length
    ensures length % 4 == 0 && length <= 60
  {
  }

  lemma OffsetWords(b: Byte, length: nat)
    requires b / 16 * 4 == length
    ensures length % 4 == 0 && length <= 60
  {
  }

  /** The parts of the packet read have the lengths the layout gives them. */
  lemma TransportIsWellFormed(f: seq<Byte>, v: PacketView, t: Transport)
    requires Described(f, v) && t == TransportOf(f, v)
    ensures match t
            case Tcp(_, _, numbers, reserved, flags, options) =>
              |numbers| == 8 && reserved < 16 && |flags| == 7 && |options| % 4 == 0 && |options| <= 40
            case Udp(_, _, checksum, _) => |checksum| == 2
  {
    if v.protocol == PROTOCOL_TCP {
      OffsetWords(f[v.l4Offset + 12], v.payloadOffset - v.l4Offset);
    }
  }

  /** The fixed fields and the options. */
  lemma HeaderIsWellFormed(f: seq<Byte>, v: PacketView, p: Packet)
    requires Described(f, v) && p == PacketOf(f, v)
    ensures |p.macs| == 12 && |p.identification| == 2 && |p.checksum| == 2 && p.flags % 0x20 == 0
    ensures |p.options| % 4 == 0 && |p.options| <= 40
  {
    NoFragment(f[20], f[21]);
    HeaderWords(f[14], v.ipv4HeaderLength);
    assert |p.options| == v.ipv4HeaderLength - 20;
  }

  lemma PacketIsWellFormed(f: seq<Byte>, v: PacketView)
    requires Described(f, v)
    ensures WellFormed(PacketOf(f, v))
    ensures Lengths(PacketOf(f, v), v)
  {
    var p := PacketOf(f, v);
    PacketLengths(f, v);
    HeaderIsWellFormed(f, v, p);
    TransportIsWellFormed(f, v, p.transport);
  }

  ghost predicate Lengths(p: Packet, v: PacketView) {
    && IPv4HeaderLength(p) == v.ipv4HeaderLength && TotalLength(p) == v.ipv4TotalLength
    && TransportHeaderLength(p.transport) == v.payloadOffset - v.l4Offset
  }

  lemma Join(f: seq<Byte>, low: nat, mid: nat, high: nat)
    requires low <= mid <= high <= |f|
    ensures f[low..mid] + f[mid..high] == f[low..high]
  {
  }

  lemma IPv4Pieces(f: seq<Byte>, l4: nat)
    requires 34 <= l4 <= |f|
    ensures [f[14], f[15]] + f[16..18] + f[18..20] + [f[20], f[21], f[22], f[23]] + f[24..26] + f[26..30] + f[30..34] +
            f[34..l4] == f[14..l4]
  {
    assert [f[14], f[15]] == f[14..16] && [f[20], f[21], f[22], f[23]] == f[20..24];
    Join(f, 14, 16, 18);
    Join(f, 14, 18, 20);
    Join(f, 14, 20, 24);
    Join(f, 14, 24, 26);
    Join(f, 14, 26, 30);
    Join(f, 14, 30, 34);
    Join(f, 14, 34, l4);
  }

  lemma IPv4Reprinted(f: seq<Byte>, v: PacketView, p: Packet)
    requires Described(f, v) && WellFormed(p) && Lengths(p, v)
    requires p.service == f[15] && p.identification == f[18..20] && p.flags == f[20] && p.ttl == f[22]
    requires p.checksum == f[24..26] && p.srcIp == v.srcIp && p.dstIp == v.dstIp && p.options == f[34..v.l4Offset]
    requires p.transport.Tcp? <==> v.protocol == PROTOCOL_TCP
    ensures IPv4Bytes(p) == f[14..v.l4Offset]
  {
    NoFragment(f[20], f[21]);
    U16Fields(f, 16);
    U32Fields(f, 26);
    U32Fields(f, 30);
    IPv4Pieces(f, v.l4Offset);
  }

  lemma TcpPieces(f: seq<Byte>, l4: nat, end: nat)
    requires l4 + 20 <= end <= |f|
    ensures f[l4..l4 + 2] + f[l4 + 2..l4 + 4] + f[l4 + 4..l4 + 12] + [f[l4 + 12]] + f[l4 + 13..l4 + 20] + f[l4 + 20..end] ==
            f[l4..end]
  {
    assert [f[l4 + 12]] == f[l4 + 12..l4 + 13];
    Join(f, l4, l4 + 2, l4 + 4);
    Join(f, l4, l4 + 4, l4 + 12);
    Join(f, l4, l4 + 12, l4 + 13);
    Join(f, l4, l4 + 13, l4 + 20);
    Join(f, l4, l4 + 20, end);
  }

  lemma TcpReprinted(f: seq<Byte>, v: PacketView, p: Packet)
    requires Described(f, v) && WellFormed(p) && Lengths(p, v) && v.protocol == PROTOCOL_TCP
    requires p.transport == TransportOf(f, v)
    ensures TransportBytes(p) == f[v.l4Offset..v.payloadOffset]
  {
    U16Fields(f, v.l4Offset);
    U16Fields(f, v.l4Offset + 2);
    TcpPieces(f, v.l4Offset, v.payloadOffset);
  }

  lemma UdpReprinted(f: seq<Byte>, v: PacketView, p: Packet)
    requires Described(f, v) && WellFormed(p) && v.protocol == PROTOCOL_UDP
    requires p.transport == TransportOf(f, v) && |p.payload| == v.payloadLength
    ensures TransportBytes(p) == f[v.l4Offset..v.payloadOffset]
  {
    var l4 := v.l4Offset;
    U16Fields(f, l4);
    U16Fields(f, l4 + 2);
    U16Fields(f, l4 + 4);
    Join(f, l4, l4 + 2, l4 + 4);
    Join(f, l4, l4 + 4, l4 + 6);
    Join(f, l4, l4 + 6, l4 + 8);
  }

  lemma FramePieces(f: seq<Byte>, l4: nat, payload: nat, end: nat, total: nat)
    requires 34 <= l4 <= payload <= end <= total <= |f|
    ensures f[..12] + f[12..14] + f[14..l4] + f[l4..payload] + f[payload..end] + f[end..total] + f[total..] == f
  {
    Join(f, 0, 12, 14);
    Join(f, 0, 14, l4);
    Join(f, 0, l4, payload);
    Join(f, 0, payload, end);
    Join(f, 0, end, total);
    Join(f, 0, total, |f|);
  }

  lemma TransportReprinted(f: seq<Byte>, v: PacketView)
    requires Described(f, v) && WellFormed(PacketOf(f, v)) && Lengths(PacketOf(f, v), v)
    ensures TransportBytes(PacketOf(f, v)) == f[v.l4Offset..v.payloadOffset]
  {
    if v.protocol == PROTOCOL_TCP {
      TcpReprinted(f, v, PacketOf(f, v));
    } else {
      UdpReprinted(f, v, PacketOf(f, v));
    }
  }

  lemma Assemble(f: seq<Byte>, p: Packet, l4: nat, payload: nat, end: nat, total: nat)
    requires 34 <= l4 <= payload <= end <= total <= |f| && WellFormed(p)
    requires p.macs == f[..12] && f[12..14] == [0x08, 0x00] && IPv4Bytes(p) == f[14..l4]
    requires TransportBytes(p) == f[l4..payload] && p.payload == f[payload..end]
    requires Surplus(p.transport) == f[end..total] && p.padding == f[total..]
    ensures FrameBytes(p) == f
  {
    FramePieces(f, l4, payload, end, total);
  }

  lemma HeaderReprinted(f: seq<Byte>, v: PacketView)
    requires Described(f, v) && WellFormed(PacketOf(f, v)) && Lengths(PacketOf(f, v), v)
    ensures IPv4Bytes(PacketOf(f, v)) == f[14..v.l4Offset]
  {
    IPv4Reprinted(f, v, PacketOf(f, v));
  }

  lemma EtherTypeBytes(f: seq<Byte>)
    requires 14 <= |f| && ReadU16(f, 12) == ETHER_TYPE_IPV4
    ensures f[12..14] == [0x08, 0x00]
  {
    U16Fields(f, 12);
  }

  lemma SurplusReprinted(f: seq<Byte>, v: PacketView)
    requires Described(f, v)
    ensures Surplus(TransportOf(f, v)) ==
            f[v.payloadOffset + v.payloadLength..ETHERNET_HEADER_BYTES + v.ipv4TotalLength]
  {
  }

  lemma DescribedReprinted(f: seq<Byte>, v: PacketView)
    requires Described(f, v) && WellFormed(PacketOf(f, v)) && Lengths(PacketOf(f, v), v)
    ensures FrameBytes(PacketOf(f, v)) == f
  {
    HeaderReprinted(f, v);
    TransportReprinted(f, v);
    EtherTypeBytes(f);
    SurplusReprinted(f, v);
    Assemble(f, PacketOf(f, v), v.l4Offset, v.payloadOffset, v.payloadOffset + v.payloadLength,
             ETHERNET_HEADER_BYTES + v.ipv4TotalLength);
  }

  /** Printing undoes parsing, byte for byte. */
  lemma FrameOfParsed(f: seq<Byte>)
    requires Parse(f).status == ParseStatus.Ok
    ensures Described(f, Parse(f)) && WellFormed(PacketOf(f, Parse(f)))
    ensures FrameBytes(PacketOf(f, Parse(f))) == f
  {
    ParsedIsDescribed(f);
    PacketIsWellFormed(f, Parse(f));
    DescribedReprinted(f, Parse(f));
  }

  /** The parser accepts a frame if and only if it is the printed form of some packet. */
  lemma ParsesIff(f: seq<Byte>)
    ensures Parse(f).status == ParseStatus.Ok <==> exists p: Packet :: WellFormed(p) && FrameBytes(p) == f
  {
    if Parse(f).status == ParseStatus.Ok {
      FrameOfParsed(f);
    }
    forall p: Packet | WellFormed(p) && FrameBytes(p) == f
      ensures Parse(f).status == ParseStatus.Ok
    {
      ParseOfFrame(p);
    }
  }
}
