/** `parse_packet`: Ethernet, IPv4 and TCP or UDP headers of one frame.

    That every read stays inside the frame is what makes the function well-formed: each
    index below is checked against the frame's length. */
module PacketParser {
  import opened Machine

  const ETHERNET_HEADER_BYTES: nat := 14
  const IPV4_BASE_HEADER_BYTES: nat := 20
  const TCP_BASE_HEADER_BYTES: nat := 20
  const UDP_HEADER_BYTES: nat := 8
  const ETHER_TYPE_IPV4: U16 := 0x0800
  const PROTOCOL_TCP: Byte := 6
  const PROTOCOL_UDP: Byte := 17

  datatype ParseStatus =
    | Ok
    | NullData
    | TooShortForEthernet
    | NonIPv4
    | TooShortForIPv4
    | InvalidIPv4Version
    | InvalidIPv4HeaderLength
    | TruncatedIPv4Header
    | IPv4TotalLengthTooSmall
    | IPv4TotalLengthExceedsFrame
    | IPv4FragmentWithoutL4
    | UnsupportedTransport
    | TooShortForTCP
    | InvalidTCPHeaderLength
    | TruncatedTCPHeader
    | TooShortForUDP
    | InvalidUDPLength
    | TruncatedUDPPayload

  datatype PacketView = PacketView(
    frameLength: nat,
    status: ParseStatus,
    etherType: U16,
    protocol: Byte,
    ipv4HeaderLength: nat,
    ipv4TotalLength: nat,
    srcIp: U32,
    dstIp: U32,
    l3Offset: nat,
    l4Offset: nat,
    payloadOffset: nat,
    payloadLength: nat,
    tcpHeaderLength: nat,
    srcPort: U16,
    dstPort: U16)

  function BlankView(length: nat): PacketView {
    PacketView(length, TooShortForEthernet, 0, 0, 0, 0, 0, 0, 0, 0, 0, 0, 0, 0, 0)
  }

  /** `data` is `None` for a null pointer; otherwise it is the `length` bytes of the frame. */
  function ParsePacket(data: Option<seq<Byte>>, length: nat): PacketView
    requires data.Some? ==> |data.value| == length
  {
    var view := BlankView(length);
    if data.None? then
      view.(status := if length == 0 then TooShortForEthernet else NullData)
    else if length < ETHERNET_HEADER_BYTES then
      view
    else
      var etherType := ReadU16(data.value, 12);
      if etherType != ETHER_TYPE_IPV4 then
        view.(status := NonIPv4, etherType := etherType)
      else
        ParseIPv4(data.value, view.(etherType := etherType, l3Offset := ETHERNET_HEADER_BYTES))
  }

  function ParseIPv4(data: seq<Byte>, view: PacketView): PacketView
    requires view.l3Offset == ETHERNET_HEADER_BYTES <= |data|
  {
    var l3 := view.l3Offset;
    if |data| < l3 + IPV4_BASE_HEADER_BYTES then
      view.(status := TooShortForIPv4)
    else
      var version := data[l3] / 16;
      var ihlWords := data[l3] % 16;
      if version != 4 then
        view.(status := InvalidIPv4Version)
      else if ihlWords < 5 then
        view.(status := InvalidIPv4HeaderLength)
      else
        var headed := view.(ipv4HeaderLength := ihlWords * 4);
        if |data| < l3 + headed.ipv4HeaderLength then
          headed.(status := TruncatedIPv4Header)
        else
          var sized := headed.(ipv4TotalLength := ReadU16(data, l3 + 2));
          if sized.ipv4TotalLength < sized.ipv4HeaderLength then
            sized.(status := IPv4TotalLengthTooSmall)
          else if |data| < l3 + sized.ipv4TotalLength then
            sized.(status := IPv4TotalLengthExceedsFrame)
          else if ReadU16(data, l3 + 6) % 0x2000 != 0 then
            sized.(status := IPv4FragmentWithoutL4)
          else
            ParseTransport(data,
              sized.(protocol := data[l3 + 9],
                     srcIp := ReadU32(data, l3 + 12),
                     dstIp := ReadU32(data, l3 + 16),
                     l4Offset := l3 + sized.ipv4HeaderLength))
  }

  function ParseTransport(data: seq<Byte>, view: PacketView): PacketView
    requires view.ipv4HeaderLength <= view.ipv4TotalLength
    requires view.l4Offset + (view.ipv4TotalLength - view.ipv4HeaderLength) <= |data|
  {
    var transportLength := view.ipv4TotalLength - view.ipv4HeaderLength;
    if view.protocol == PROTOCOL_TCP then ParseTcp(data, view, transportLength)
    else if view.protocol == PROTOCOL_UDP then ParseUdp(data, view, transportLength)
    else view.(status := UnsupportedTransport)
  }

  function ParseTcp(data: seq<Byte>, view: PacketView, transportLength: nat): PacketView
    requires view.l4Offset + transportLength <= |data|
  {
    if transportLength < TCP_BASE_HEADER_BYTES then
      view.(status := TooShortForTCP)
    else
      var dataOffsetWords := data[view.l4Offset + 12] / 16;
      if dataOffsetWords < 5 then
        view.(status := InvalidTCPHeaderLength)
      else
        var headed := view.(tcpHeaderLength := dataOffsetWords * 4);
        if transportLength < headed.tcpHeaderLength then
          headed.(status := TruncatedTCPHeader)
        else
          headed.(srcPort := ReadU16(data, view.l4Offset),
                  dstPort := ReadU16(data, view.l4Offset + 2),
                  payloadOffset := view.l4Offset + headed.tcpHeaderLength,
                  payloadLength := transportLength - headed.tcpHeaderLength,
                  status := Ok)
  }

  function ParseUdp(data: seq<Byte>, view: PacketView, transportLength: nat): PacketView
    requires view.l4Offset + transportLength <= |data|
  {
    if transportLength < UDP_HEADER_BYTES then
      view.(status := TooShortForUDP)
    else
      var udpLength := ReadU16(data, view.l4Offset + 4);
      if udpLength < UDP_HEADER_BYTES then
        view.(status := InvalidUDPLength)
      else if udpLength > transportLength then
        view.(status := TruncatedUDPPayload)
      else
        view.(srcPort := ReadU16(data, view.l4Offset),
              dstPort := ReadU16(data, view.l4Offset + 2),
              payloadOffset := view.l4Offset + UDP_HEADER_BYTES,
              payloadLength := udpLength - UDP_HEADER_BYTES,
              status := Ok)
  }

  function Parse(frame: seq<Byte>): PacketView {
    ParsePacket(Some(frame), |frame|)
  }

  /** A packet that parses lies, payload and all, inside its IPv4 datagram, and the datagram
      inside the frame; the payload starts after all the headers. */
  lemma ParsedPacketFits(frame: seq<Byte>)
    requires Parse(frame).status == Ok
    ensures var v := Parse(frame);
            && v.payloadOffset + v.payloadLength <= ETHERNET_HEADER_BYTES + v.ipv4TotalLength <= |frame|
            && v.l4Offset + UDP_HEADER_BYTES <= v.payloadOffset
            && ETHERNET_HEADER_BYTES + IPV4_BASE_HEADER_BYTES <= v.l4Offset
            && (v.protocol == PROTOCOL_TCP || v.protocol == PROTOCOL_UDP)
  {
  }

  /** The two byte strings agree from `low` up to `high`. */
  ghost predicate Agree(f: seq<Byte>, g: seq<Byte>, low: nat, high: nat) {
    && high <= |f| && high <= |g|
    && forall i :: low <= i < high ==> f[i] == g[i]
  }

  lemma TransportAgrees(f: seq<Byte>, g: seq<Byte>, view: PacketView)
    requires view.ipv4HeaderLength <= view.ipv4TotalLength
    requires view.l4Offset + (view.ipv4TotalLength - view.ipv4HeaderLength) <= Min(|f|, |g|)
    requires ParseTransport(f, view).status == Ok
    requires Agree(f, g, view.l4Offset, ParseTransport(f, view).payloadOffset)
    ensures ParseTransport(g, view.(frameLength := |g|)) == ParseTransport(f, view).(frameLength := |g|)
  {
  }

  lemma HeaderReadsAgree(f: seq<Byte>, g: seq<Byte>)
    requires Agree(f, g, 14, 34)
    ensures f[14] == g[14] && f[23] == g[23]
    ensures ReadU16(f, 16) == ReadU16(g, 16) && ReadU16(f, 20) == ReadU16(g, 20)
    ensures ReadU32(f, 26) == ReadU32(g, 26) && ReadU32(f, 30) == ReadU32(g, 30)
  {
  }

  lemma IPv4Agrees(f: seq<Byte>, g: seq<Byte>, view: PacketView)
    requires view.l3Offset == ETHERNET_HEADER_BYTES <= Min(|f|, |g|)
    requires ParseIPv4(f, view).status == Ok
    requires ETHERNET_HEADER_BYTES + ParseIPv4(f, view).ipv4TotalLength <= |g|
    requires Agree(f, g, view.l3Offset, ParseIPv4(f, view).payloadOffset)
    ensures ParseIPv4(g, view.(frameLength := |g|)) == ParseIPv4(f, view).(frameLength := |g|)
  {
    var v := ParseIPv4(f, view);
    assert v.l3Offset == ETHERNET_HEADER_BYTES && v.l3Offset + 20 <= v.l4Offset;
    HeaderReadsAgree(f, g);
    var at := view.(ipv4HeaderLength := v.ipv4HeaderLength, ipv4TotalLength := v.ipv4TotalLength,
                    protocol := v.protocol, srcIp := v.srcIp, dstIp := v.dstIp, l4Offset := v.l4Offset);
    TransportAgrees(f, g, at);
  }

  /** The parse is decided by the bytes from the EtherType up to the payload: MAC addresses,
      payload bytes and anything past the datagram are free to change, and so is the length
      of what follows the datagram. */
  lemma ParseReadsOnlyHeaders(f: seq<Byte>, g: seq<Byte>)
    requires Parse(f).status == Ok
    requires ETHERNET_HEADER_BYTES + Parse(f).ipv4TotalLength <= |g|
    requires Agree(f, g, 12, Parse(f).payloadOffset)
    ensures Parse(g) == Parse(f).(frameLength := |g|)
  {
    ParsedPacketFits(f);
    var view := BlankView(|f|).(etherType := ETHER_TYPE_IPV4, l3Offset := ETHERNET_HEADER_BYTES);
    assert Parse(f) == ParseIPv4(f, view);
    IPv4Agrees(f, g, view);
  }

  /** Bytes past the IPv4 total length never change a parsed field. */
  lemma TailIsIgnored(f: seq<Byte>, tail: seq<Byte>)
    requires Parse(f).status == Ok
    ensures var datagram := f[..ETHERNET_HEADER_BYTES + Parse(f).ipv4TotalLength];
            Parse(datagram + tail) == Parse(f).(frameLength := |datagram| + |tail|)
  {
    ParsedPacketFits(f);
    ParseReadsOnlyHeaders(f, f[..ETHERNET_HEADER_BYTES + Parse(f).ipv4TotalLength] + tail);
  }
}
