/**
 * `parse_udp_packet` of the traffic monitor: a captured Ethernet frame is
 * either turned into (source socket address, destination socket address,
 * UDP payload) or silently rejected.
 *
 * The parser walks three layers at fixed offsets: the 14-byte Ethernet MAC
 * header (clause 3 of IEEE 802.3), the IPv4 header (section 3.1 of RFC 791)
 * and the UDP header (RFC 768). It checks only what the source checks: the
 * frame is long enough for the Ethernet header and a 20-byte IPv4 header,
 * the IPv4 protocol field is 17, the frame holds IHL * 4 header bytes plus an
 * 8-byte UDP header, and the UDP length field lies between 8 and the bytes
 * left. It does NOT look at the EtherType, the IP version, whether IHL >= 5,
 * the IPv4 total length, fragmentation or either checksum.
 */
module UdpPacket {

  import opened Wrappers
  import opened Bytes

  /** Length of the Ethernet MAC header that is skipped. */
  const EthernetHeaderLen := 14
  /** Length of an IPv4 header without options. */
  const MinIpv4HeaderLen := 20
  /** Length of the UDP header (ports, length, checksum). */
  const UdpHeaderLen := 8
  /** IPv4 protocol number of UDP. */
  const UdpProtocol: byte := 17

  /** `Ipv4Addr::new(a, b, c, d)`: the four octets in wire order. */
  datatype Ipv4Addr = Ipv4Addr(a: byte, b: byte, c: byte, d: byte)

  /** `SocketAddr::new(IpAddr::V4(ip), port)`; the parser only builds IPv4 ones. */
  datatype SocketAddr = SocketAddr(ip: Ipv4Addr, port: uint16)

  /** The parser's successful result: the payload is a slice of the captured frame. */
  datatype Datagram = Datagram(src: SocketAddr, dst: SocketAddr, payload: seq<byte>)

  /**
   * `((ip_packet[0] & 0x0F) * 4) as usize`: the IHL nibble counts 32-bit
   * words. The product is taken in `u8`, so it is written here modulo 256;
   * the contract shows it never wraps and the header length is at most 60.
   */
  function IpHeaderLen(versionIhl: byte): (h: nat)
    ensures h == 4 * (versionIhl as int % 16)
    ensures h <= 60 && h % 4 == 0
  {
    ((versionIhl as int % 16) * 4) % 0x100
  }

  // ---------------------------------------------------------------------
  // The frame seen from outside: every field by its offset in the frame.
  // ---------------------------------------------------------------------

  /** Frame offset of the UDP header: after the MAC header and IHL * 4 IPv4 header bytes. */
  function UdpStart(frame: seq<byte>): (u: nat)
    requires |frame| > EthernetHeaderLen
    ensures EthernetHeaderLen <= u <= EthernetHeaderLen + 60
  {
    EthernetHeaderLen + IpHeaderLen(frame[EthernetHeaderLen])
  }

  /** The UDP length field, the 16-bit word at offset 4 of the UDP header. */
  function DeclaredUdpLen(frame: seq<byte>): uint16
    requires |frame| > EthernetHeaderLen && UdpStart(frame) + 6 <= |frame|
  {
    var u := UdpStart(frame);
    Be16(frame[u + 4], frame[u + 5])
  }

  /**
   * The frames `parse_udp_packet` accepts, stated on frame offsets: at least
   * 34 bytes, protocol byte (frame offset 23) equal to 17, a whole UDP header
   * after the IHL-sized IPv4 header, and a UDP length between 8 and the bytes
   * left from the start of the UDP header.
   */
  ghost predicate Accepted(frame: seq<byte>) {
    && |frame| >= EthernetHeaderLen + MinIpv4HeaderLen
    && frame[EthernetHeaderLen + 9] == UdpProtocol
    && UdpStart(frame) + UdpHeaderLen <= |frame|
    && UdpHeaderLen <= DeclaredUdpLen(frame) <= |frame| - UdpStart(frame)
  }

  /** What an accepted frame yields: the addresses at frame offsets 26..34, the ports and the payload slice. */
  ghost predicate Extracted(frame: seq<byte>, d: Datagram)
    requires Accepted(frame)
  {
    var u := UdpStart(frame);
    var len := DeclaredUdpLen(frame);
    && d.src == SocketAddr(Ipv4Addr(frame[26], frame[27], frame[28], frame[29]), Be16(frame[u], frame[u + 1]))
    && d.dst == SocketAddr(Ipv4Addr(frame[30], frame[31], frame[32], frame[33]), Be16(frame[u + 2], frame[u + 3]))
    && |d.payload| == len - UdpHeaderLen
    && d.payload == frame[u + UdpHeaderLen .. u + len]
  }

  // ---------------------------------------------------------------------
  // The parser, layer by layer as the source slices it.
  // ---------------------------------------------------------------------

  /**
   * `parse_udp_packet`. It has no precondition: every index and slice it
   * takes is justified by an earlier length check, so it is total and never
   * panics.
   */
  function ParseUdpPacket(data: seq<byte>): (r: Option<Datagram>)
    ensures r.Some? <==> Accepted(data)
    ensures r.Some? ==> Extracted(data, r.value)
  {
    if |data| < EthernetHeaderLen then None
    else
      var ipPacket := data[EthernetHeaderLen..];
      if |ipPacket| < MinIpv4HeaderLen then None
      else if ipPacket[9] != UdpProtocol then None
      else
        var srcIp := Ipv4Addr(ipPacket[12], ipPacket[13], ipPacket[14], ipPacket[15]);
        var dstIp := Ipv4Addr(ipPacket[16], ipPacket[17], ipPacket[18], ipPacket[19]);
        var ipHeaderLen := IpHeaderLen(ipPacket[0]);
        if |ipPacket| < ipHeaderLen + UdpHeaderLen then None
        else
          var udpPacket := ipPacket[ipHeaderLen..];
          var srcPort := Be16(udpPacket[0], udpPacket[1]);
          var dstPort := Be16(udpPacket[2], udpPacket[3]);
          var udpLen := Be16(udpPacket[4], udpPacket[5]);
          if udpLen < UdpHeaderLen || |udpPacket| < udpLen then None
          else
            var srcAddr := SocketAddr(srcIp, srcPort);
            var dstAddr := SocketAddr(dstIp, dstPort);
            Some(Datagram(srcAddr, dstAddr, udpPacket[UdpHeaderLen..udpLen]))
  }

  // ---------------------------------------------------------------------
  // Rejections.
  // ---------------------------------------------------------------------

  /** Fewer than 14 + 20 bytes: no room for the MAC header and a minimal IPv4 header. */
  lemma ShortFrameRejected(data: seq<byte>)
    requires |data| < EthernetHeaderLen + MinIpv4HeaderLen
    ensures ParseUdpPacket(data) == None
  {
  }

  /** A protocol byte other than 17 rejects the frame, whatever the other bytes are. */
  lemma NonUdpRejected(data: seq<byte>)
    requires |data| >= EthernetHeaderLen + MinIpv4HeaderLen
    requires data[EthernetHeaderLen + 9] != UdpProtocol
    ensures ParseUdpPacket(data) == None
  {
  }

  /** A frame too short for the IHL-sized IPv4 header plus an 8-byte UDP header is rejected. */
  lemma TruncatedUdpHeaderRejected(data: seq<byte>)
    requires |data| >= EthernetHeaderLen + MinIpv4HeaderLen
    requires |data| - EthernetHeaderLen < IpHeaderLen(data[EthernetHeaderLen]) + UdpHeaderLen
    ensures ParseUdpPacket(data) == None
  {
  }

  /** A UDP length below 8 or past the end of the frame is rejected. */
  lemma BadUdpLengthRejected(data: seq<byte>)
    requires |data| >= EthernetHeaderLen + MinIpv4HeaderLen
    requires UdpStart(data) + UdpHeaderLen <= |data|
    requires DeclaredUdpLen(data) < UdpHeaderLen || DeclaredUdpLen(data) > |data| - UdpStart(data)
    ensures ParseUdpPacket(data) == None
  {
  }

  // ---------------------------------------------------------------------
  // Acceptance.
  // ---------------------------------------------------------------------

  /**
   * With a standard header (IHL >= 5) an accepted frame is at least
   * 14 + 20 + 8 bytes long and the payload ends inside the frame.
   */
  lemma AcceptedStandardFrameLength(data: seq<byte>)
    requires ParseUdpPacket(data).Some?
    requires data[EthernetHeaderLen] as int % 16 >= 5
    ensures |data| >= EthernetHeaderLen + MinIpv4HeaderLen + UdpHeaderLen
    ensures EthernetHeaderLen + MinIpv4HeaderLen + UdpHeaderLen + |ParseUdpPacket(data).value.payload| <= |data|
  {
  }

  /**
   * IHL is not checked to be at least 5: this 34-byte frame has IHL 0, so its
   * "UDP header" is the first 8 bytes of the IPv4 header, and it is accepted.
   */
  lemma OverlappingHeaderAccepted()
    ensures exists frame: seq<byte> ::
      |frame| == EthernetHeaderLen + MinIpv4HeaderLen && IpHeaderLen(frame[EthernetHeaderLen]) == 0 &&
      ParseUdpPacket(frame).Some?
  {
    var link: seq<byte> := seq(14, _ => 0);
    // version 4, IHL 0; the total-length field (read as the UDP ports) and the
    // identification field (read as the UDP length, 20) follow.
    var ip: seq<byte> := [0x40, 0, 0, 0, 0, 20, 0, 0, 64, 17, 0, 0, 10, 0, 0, 1, 10, 0, 0, 2];
    var frame := link + ip;
    assert frame[EthernetHeaderLen] == 0x40 && frame[23] == 17;
    assert DeclaredUdpLen(frame) == 20;
    assert Accepted(frame);
  }

  // ---------------------------------------------------------------------
  // Bytes the parser does not look at.
  // ---------------------------------------------------------------------

  /** The MAC addresses and the EtherType (frame bytes 0..14) are never read. */
  lemma LinkHeaderIgnored(data: seq<byte>, link: seq<byte>)
    requires |data| >= EthernetHeaderLen && |link| == EthernetHeaderLen
    ensures ParseUdpPacket(link + data[EthernetHeaderLen..]) == ParseUdpPacket(data)
  {
  }

  /** Bytes after the declared end of the UDP datagram, such as Ethernet padding, are ignored. */
  lemma TrailingBytesIgnored(data: seq<byte>, extra: seq<byte>)
    requires ParseUdpPacket(data).Some?
    ensures ParseUdpPacket(data + extra) == ParseUdpPacket(data)
  {
    var other := data + extra;
    assert Accepted(data);
    var u := UdpStart(data);
    var len := DeclaredUdpLen(data);
    assert u + len <= |data|;
    assert other[..|data|] == data;
    assert other[EthernetHeaderLen] == data[EthernetHeaderLen];
    assert UdpStart(other) == u && DeclaredUdpLen(other) == len;
    assert other[u + UdpHeaderLen .. u + len] == data[u + UdpHeaderLen .. u + len];
  }

  /**
   * The version nibble is not checked: as long as IHL >= 1 (so the UDP header
   * does not start on that byte), replacing it leaves the result unchanged.
   */
  lemma VersionIgnored(data: seq<byte>, version: byte)
    requires |data| > EthernetHeaderLen && version < 16
    requires data[EthernetHeaderLen] as int % 16 >= 1
    ensures var versionIhl := (version as int * 16 + data[EthernetHeaderLen] as int % 16) as byte;
            ParseUdpPacket(data[EthernetHeaderLen := versionIhl]) == ParseUdpPacket(data)
  {
    var versionIhl := (version as int * 16 + data[EthernetHeaderLen] as int % 16) as byte;
    var other := data[EthernetHeaderLen := versionIhl];
    assert versionIhl as int % 16 == data[EthernetHeaderLen] as int % 16 by {
      var n := data[EthernetHeaderLen] as int % 16;
      assert versionIhl as int == version as int * 16 + n;
    }
    assert UdpStart(other) == UdpStart(data);
    if Accepted(data) {
      var u := UdpStart(data);
      var len := DeclaredUdpLen(data);
      assert other[u + UdpHeaderLen .. u + len] == data[u + UdpHeaderLen .. u + len];
    }
  }

  /**
   * Frame offsets of an IHL >= 5 frame that the parser never reads: type of
   * service, total length, identification, flags and fragment offset, TTL,
   * the IPv4 header checksum, the IPv4 options and the UDP checksum.
   */
  predicate Unread(data: seq<byte>, i: nat)
    requires |data| > EthernetHeaderLen
  {
    var u := UdpStart(data);
    || (EthernetHeaderLen + 1 <= i < EthernetHeaderLen + 9)
    || i == EthernetHeaderLen + 10 || i == EthernetHeaderLen + 11
    || (EthernetHeaderLen + MinIpv4HeaderLen <= i < u)
    || i == u + 6 || i == u + 7
  }

  /** Changing any unread header byte of an IHL >= 5 frame does not change the result. */
  lemma UnreadFieldIgnored(data: seq<byte>, i: nat, x: byte)
    requires i < |data| && |data| > EthernetHeaderLen
    requires data[EthernetHeaderLen] as int % 16 >= 5
    requires Unread(data, i)
    ensures ParseUdpPacket(data[i := x]) == ParseUdpPacket(data)
  {
  }
}
