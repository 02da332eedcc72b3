# UDP datagram extraction of a QUIC traffic monitor, in Dafny

The monitor captures link-layer frames on an interface and passes the UDP
datagrams it finds to a QUIC protocol engine acting as a passive
pseudo-server. This project models the one piece of that pipeline with logic
of its own: `parse_udp_packet`. It turns a raw captured Ethernet frame into
(source socket address, destination socket address, payload slice), or
rejects the frame silently with `None`.

The parser walks three header layers at fixed offsets:

- it skips the 14-byte MAC header (clause 3 of IEEE 802.3);
- it reads the IPv4 header (section 3.1 of RFC 791): the protocol must be 17,
  the addresses sit at header offsets 12..20, and the header length is the
  IHL nibble times 4;
- it reads the UDP header (RFC 768): big-endian ports, then a length field
  that must lie between 8 and the bytes left. The payload is the rest of the
  datagram up to that length.

Modules, one per concern:

- `Wrappers` (`wrappers.dfy`): the `Option` result.
- `Bytes` (`bytes.dfy`): `u8`, `u16` and `u16::from_be_bytes` / `to_be_bytes`.
- `UdpPacket` (`udp_packet.dfy`): the parser, written slice by slice as the
  source does it. Its contract restates acceptance and every output field in
  absolute frame offsets. The lemmas beside it cover each rejection, the bytes
  it never reads, and the overlap case IHL < 5.
- `FrameBuilder` (`frame_builder.dfy`): the parser's inverse. It lays out a
  frame from a MAC header, IPv4 header fields, options, UDP ports and checksum,
  payload and padding. It carries the round trip in both directions: parsing a
  built frame returns its addresses, ports and payload, and every accepted
  frame with IHL >= 5 is exactly a built frame.

Bytes are integers in 0..255. The `& 0x0F` mask on the version/IHL byte is
written as the remainder modulo 16. The `* 4` is done in `u8` in the source,
so the model reduces it modulo 256 and proves it never wraps (at most 60).

The code and the system's design description disagree on one point, and the
model follows the code. The description says every buffer shorter than
14 + 20 + 8 = 42 bytes is rejected. The code never checks IHL >= 5, so with
IHL 0 to 3 the "UDP header" overlaps the IPv4 header, and a 34-byte frame can
be accepted (`UdpPacket.OverlappingHeaderAccepted`). The 42-byte bound holds
only for IHL >= 5 (`UdpPacket.AcceptedStandardFrameLength`).

## Model

| member | source | states |
|---|---|---|
| `Bytes.Be16` | src/main.rs:31-35 | big-endian read: the high octet is the value divided by 256, the low octet the remainder, so the result fits 16 bits |
| `Bytes.ToBe16` | src/main.rs:31-35 | the octets it produces read back through `Be16` as the same 16-bit value (inverse of `from_be_bytes`) |
| `Bytes.ToBe16OfBe16` | src/main.rs:31-35 | the other direction: splitting a value read from two octets gives back those octets |
| `UdpPacket.IpHeaderLen` | src/main.rs:25 | the `u8` product of the IHL nibble and 4 never wraps: it equals 4 * IHL, a multiple of 4 of at most 60 |
| `UdpPacket.ParseUdpPacket` | src/main.rs:11-45 | total, with no precondition, so no index or slice is out of bounds. It returns `Some` exactly when the frame is at least 34 bytes long, frame byte 23 is 17, the frame holds the IHL-sized header plus 8 UDP bytes, and 8 <= UDP length <= the bytes left. On success: source = frame bytes 26..30 and the big-endian UDP word 0, destination = bytes 30..34 and word 1, payload = exactly the frame bytes from UDP start + 8 to UDP start + length, of length length - 8 |
| `UdpPacket.ShortFrameRejected` | src/main.rs:12-15 | any frame shorter than 14 + 20 bytes yields `None` |
| `UdpPacket.NonUdpRejected` | src/main.rs:18 | any frame whose protocol byte (frame offset 23) is not 17 yields `None`, whatever the other bytes are |
| `UdpPacket.TruncatedUdpHeaderRejected` | src/main.rs:25-26 | a frame with fewer than IHL * 4 + 8 bytes after the MAC header yields `None` |
| `UdpPacket.BadUdpLengthRejected` | src/main.rs:35-36 | a UDP length below 8, or above the bytes left from the UDP header start, yields `None` |
| `UdpPacket.AcceptedStandardFrameLength` | src/main.rs:25-42 | with IHL >= 5 an accepted frame is at least 42 bytes long, and header plus payload end inside the frame |
| `UdpPacket.OverlappingHeaderAccepted` | src/main.rs:25-28 | IHL is not checked to be >= 5: some 34-byte frame with IHL 0 is accepted, its UDP header read from inside the IPv4 header |
| `UdpPacket.LinkHeaderIgnored` | src/main.rs:12-14 | replacing the 14 MAC-header bytes, EtherType included, never changes the result |
| `UdpPacket.TrailingBytesIgnored` | src/main.rs:36-42 | appending bytes after an accepted frame (e.g. Ethernet padding) leaves the result unchanged |
| `UdpPacket.VersionIgnored` | src/main.rs:25 | the version nibble is not checked: changing it leaves the result unchanged whenever IHL >= 1 |
| `UdpPacket.UnreadFieldIgnored` | src/main.rs:18-35 | with IHL >= 5, changing one byte among type of service, total length, identification, flags/fragment offset, TTL, IPv4 checksum, options or the UDP checksum leaves the result unchanged |
| `FrameBuilder.ParseBuildFrame` | src/main.rs:11-45 | round trip: a frame built from any MAC header, any unchecked IPv4 field values, IHL = 5 + options/4, protocol 17, any addresses, ports, UDP checksum and padding, and UDP length = 8 + payload length <= 65535, parses to exactly those addresses, ports and payload |
| `FrameBuilder.AcceptedIsBuilt` | src/main.rs:11-45 | converse round trip: every frame accepted with IHL >= 5 is the built frame of its own parts, and the parser's result is that frame's addresses, ports and payload |

## Left out

- Packet capture in `main` (src/main.rs:48-56, 65): opening the device, immediate mode, the filter (whose result the source discards) and the blocking read loop. This is I/O through a foreign capture library.
- The QUIC endpoint and its dispatch (src/main.rs:58-100): `Endpoint::new` and `handle` call an opaque protocol engine, and `Instant::now()` reads a clock. The `todo!` at src/main.rs:60 panics unconditionally, so nothing after it runs. The match arms only print.
- The connection registry and the admit/refuse logic: they exist only as commented-out code (src/main.rs:73-90), so nothing is modelled for them.
- src/monitorconfig.rs: loading the two-field configuration file is file I/O and deserialisation by foreign crates, with no logic of its own.
- `IpAddr::V6`: the parser only ever builds IPv4 socket addresses, so `SocketAddr` holds an IPv4 address only.
- Slice borrowing: the payload is modelled as a sequence equal to the subrange of the frame, not as a borrowed view. The equality to the frame's subrange is proved, but aliasing is not modelled.
