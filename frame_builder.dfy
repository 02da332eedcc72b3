/**
 * The inverse of `parse_udp_packet`: laying out an Ethernet frame that
 * carries one UDP datagram over IPv4 (section 3.1 of RFC 791, RFC 768), and
 * the round trip between the two in both directions.
 *
 * The builder writes every header field the parser leaves unchecked from the
 * caller's values (MAC header, IP version, total length, identification,
 * fragmentation, TTL, checksums, options, trailing padding), so the round
 * trip shows the parser's result does not depend on any of them.
 */
module FrameBuilder {

  import opened Wrappers
  import opened Bytes
  import opened UdpPacket

  /** The IPv4 header fields besides IHL and protocol, which the builder fixes. */
  datatype Ipv4Header = Ipv4Header(
    version: byte,
    typeOfService: byte,
    totalLength: uint16,
    identification: uint16,
    flagsFragment: uint16,
    ttl: byte,
    checksum: uint16,
    src: Ipv4Addr,
    dst: Ipv4Addr)

  /** The UDP header fields besides the length, which the builder computes. */
  datatype UdpHeader = UdpHeader(srcPort: uint16, dstPort: uint16, checksum: uint16)

  /** A frame in parts: MAC header, IPv4 header and options, UDP header, payload, padding. */
  datatype Frame = Frame(
    link: seq<byte>,
    ip: Ipv4Header,
    options: seq<byte>,
    udp: UdpHeader,
    payload: seq<byte>,
    padding: seq<byte>)

  /** Largest payload whose UDP length (payload plus 8 header bytes) fits the 16-bit length field. */
  const MaxPayloadLen := 0xFFFF - UdpHeaderLen

  /**
   * A frame the builder can lay out: a 14-byte MAC header, a version that fits
   * a nibble, options in whole 32-bit words (at most 40 bytes, so IHL <= 15)
   * and a payload whose UDP length fits 16 bits.
   */
  predicate WellFormed(f: Frame) {
    && |f.link| == EthernetHeaderLen
    && f.ip.version < 16
    && |f.options| % 4 == 0 && |f.options| <= 40
    && |f.payload| <= MaxPayloadLen
  }

  /** A 16-bit field in network byte order. */
  function Word(v: uint16): (w: seq<byte>)
    ensures |w| == 2 && Be16(w[0], w[1]) == v
  {
    var (hi, lo) := ToBe16(v);
    [hi, lo]
  }

  /** An IPv4 address as its four octets in wire order. */
  function Octets(a: Ipv4Addr): (w: seq<byte>)
    ensures |w| == 4 && Ipv4Addr(w[0], w[1], w[2], w[3]) == a
  {
    [a.a, a.b, a.c, a.d]
  }

  /** The IPv4 header with protocol 17 and an IHL that covers the options. */
  function EncodeIpv4Header(h: Ipv4Header, options: seq<byte>): (bs: seq<byte>)
    requires h.version < 16 && |options| % 4 == 0 && |options| <= 40
    ensures |bs| == MinIpv4HeaderLen + |options|
    ensures IpHeaderLen(bs[0]) == |bs|
    ensures bs[0] as int / 16 == h.version as int
    ensures bs[9] == UdpProtocol
    ensures bs[12..16] == Octets(h.src) && bs[16..20] == Octets(h.dst)
    ensures bs[MinIpv4HeaderLen..] == options
  {
    var ihl := 5 + |options| / 4;
    var versionIhl := PackNibbles(h.version, ihl);
    var fixed := [versionIhl, h.typeOfService] + Word(h.totalLength) + Word(h.identification)
      + Word(h.flagsFragment) + [h.ttl, UdpProtocol] + Word(h.checksum)
      + Octets(h.src) + Octets(h.dst);
    assert |fixed| == MinIpv4HeaderLen && fixed[0] == versionIhl && fixed[9] == UdpProtocol;
    assert fixed[12..16] == Octets(h.src) && fixed[16..20] == Octets(h.dst);
    fixed + options
  }

  /** The first IPv4 octet: the version in the high nibble, IHL in the low one. */
  function PackNibbles(version: byte, ihl: nat): (b: byte)
    requires version < 16 && ihl < 16
    ensures b as int / 16 == version as int && b as int % 16 == ihl
  {
    (version as int * 16 + ihl) as byte
  }

  /** The UDP header, whose length field counts the header and the payload, then the payload. */
  function EncodeUdp(u: UdpHeader, payload: seq<byte>): (bs: seq<byte>)
    requires |payload| <= MaxPayloadLen
    ensures |bs| == UdpHeaderLen + |payload|
    ensures Be16(bs[0], bs[1]) == u.srcPort && Be16(bs[2], bs[3]) == u.dstPort
    ensures Be16(bs[4], bs[5]) == |bs|
    ensures Be16(bs[6], bs[7]) == u.checksum
    ensures bs[UdpHeaderLen..] == payload
  {
    Word(u.srcPort) + Word(u.dstPort) + Word(UdpHeaderLen + |payload|) + Word(u.checksum) + payload
  }

  /** The whole frame, in wire order. */
  function BuildFrame(f: Frame): (frame: seq<byte>)
    requires WellFormed(f)
    ensures |frame| == EthernetHeaderLen + MinIpv4HeaderLen + |f.options| + UdpHeaderLen + |f.payload| + |f.padding|
  {
    f.link + EncodeIpv4Header(f.ip, f.options) + EncodeUdp(f.udp, f.payload) + f.padding
  }

  /** What the parser should report for a built frame. */
  function Expected(f: Frame): Datagram {
    Datagram(SocketAddr(f.ip.src, f.udp.srcPort), SocketAddr(f.ip.dst, f.udp.dstPort), f.payload)
  }

  /**
   * Round trip: parsing a built frame gives back exactly its addresses, ports
   * and payload, whatever the MAC header, the unchecked IPv4 fields, the
   * options, the UDP checksum and the padding are.
   */
  lemma {:induction false} ParseBuildFrame(f: Frame)
    requires WellFormed(f)
    ensures ParseUdpPacket(BuildFrame(f)) == Some(Expected(f))
  {
    var frame := BuildFrame(f);
    var ip := EncodeIpv4Header(f.ip, f.options);
    var udp := EncodeUdp(f.udp, f.payload);
    var u := EthernetHeaderLen + |ip|;
    assert frame[EthernetHeaderLen..u] == ip;
    assert frame[u..u + |udp|] == udp;
    assert frame[EthernetHeaderLen] == ip[0];
    assert UdpStart(frame) == u;
    assert frame[EthernetHeaderLen + 9] == ip[9];
    assert frame[26..30] == ip[12..16] && frame[30..34] == ip[16..20];
    assert frame[u..u + 6] == udp[..6];
    assert DeclaredUdpLen(frame) == |udp|;
    assert frame[u + UdpHeaderLen .. u + |udp|] == udp[UdpHeaderLen..];
    assert Accepted(frame);
  }

  /** The header fields of an accepted frame with IHL >= 5, read back at their offsets. */
  function HeaderOf(data: seq<byte>): (h: Ipv4Header)
    requires |data| >= EthernetHeaderLen + MinIpv4HeaderLen
    ensures h.version < 16
  {
    var ip := data[EthernetHeaderLen..];
    Ipv4Header(
      (ip[0] as int / 16) as byte, ip[1],
      Be16(ip[2], ip[3]), Be16(ip[4], ip[5]), Be16(ip[6], ip[7]),
      ip[8], Be16(ip[10], ip[11]),
      Ipv4Addr(ip[12], ip[13], ip[14], ip[15]), Ipv4Addr(ip[16], ip[17], ip[18], ip[19]))
  }

  /** An accepted frame with IHL >= 5 split into the builder's parts. */
  function FrameOf(data: seq<byte>): (f: Frame)
    requires Accepted(data) && data[EthernetHeaderLen] as int % 16 >= 5
    ensures WellFormed(f)
  {
    var u := UdpStart(data);
    var len := DeclaredUdpLen(data);
    Frame(
      data[..EthernetHeaderLen],
      HeaderOf(data),
      data[EthernetHeaderLen + MinIpv4HeaderLen .. u],
      UdpHeader(Be16(data[u], data[u + 1]), Be16(data[u + 2], data[u + 3]), Be16(data[u + 6], data[u + 7])),
      data[u + UdpHeaderLen .. u + len],
      data[u + len..])
  }

  /** Writing back a 16-bit field read from two octets gives those octets. */
  lemma {:induction false} WordOfBe16(hi: byte, lo: byte)
    ensures Word(Be16(hi, lo)) == [hi, lo]
  {
  }

  /** Re-encoding the IPv4 header read from a frame reproduces the frame's header bytes. */
  lemma {:induction false} EncodeHeaderOf(data: seq<byte>)
    requires |data| >= EthernetHeaderLen + MinIpv4HeaderLen
    requires data[EthernetHeaderLen + 9] == UdpProtocol
    requires 5 <= data[EthernetHeaderLen] as int % 16
    requires EthernetHeaderLen + IpHeaderLen(data[EthernetHeaderLen]) <= |data|
    ensures var u := UdpStart(data);
            EncodeIpv4Header(HeaderOf(data), data[EthernetHeaderLen + MinIpv4HeaderLen .. u])
              == data[EthernetHeaderLen .. u]
  {
  }

  /**
   * The converse of the round trip: every frame the parser accepts with a
   * standard header (IHL >= 5) is a built frame, and the parser's result is
   * that frame's addresses, ports and payload.
   */
  lemma {:induction false} AcceptedIsBuilt(data: seq<byte>)
    requires ParseUdpPacket(data).Some?
    requires data[EthernetHeaderLen] as int % 16 >= 5
    ensures BuildFrame(FrameOf(data)) == data
    ensures ParseUdpPacket(data) == Some(Expected(FrameOf(data)))
  {
    var f := FrameOf(data);
    var u := UdpStart(data);
    var len := DeclaredUdpLen(data);
    EncodeHeaderOf(data);
    WordOfBe16(data[u], data[u + 1]);
    WordOfBe16(data[u + 2], data[u + 3]);
    WordOfBe16(data[u + 4], data[u + 5]);
    WordOfBe16(data[u + 6], data[u + 7]);
    assert EncodeUdp(f.udp, f.payload) == data[u .. u + len];
    assert data == data[..EthernetHeaderLen] + data[EthernetHeaderLen .. u] + data[u .. u + len] + data[u + len..];
  }
}
