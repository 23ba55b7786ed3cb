/** The raw datagram `encodeFullPacket` builds: a 20-byte IPv4 header
    (RFC 791, section 3.1), an 8-byte UDP header (RFC 768) and the DNS query
    message, with both checksums filled in. */
module PacketAssembler {
  import opened Bytes
  import opened Checksum
  import opened DnsMessage

  const IpHeaderLen := 20
  const UdpHeaderLen := 8
  const PseudoHeaderLen := 12
  /** Size of the packet and checksum buffers. */
  const PacketCapacity := 1024
  const IpVersion: uint4 := 4
  const IpIhl: uint4 := 5
  const IpId: uint16 := 54321
  const IpTtl: uint8 := 255
  const IpProtoUdp: uint8 := 17
  /** Offsets of the two checksum fields in the packet. */
  const IpCheckOffset := 10
  const UdpCheckOffset := 26

  // ---- Headers ---------------------------------------------------------------

  datatype IpHeader = IpHeader(
    version: uint4, ihl: uint4, tos: uint8, totLen: uint16, id: uint16, fragOff: uint16,
    ttl: uint8, protocol: uint8, check: uint16, saddr: uint32, daddr: uint32)

  datatype UdpHeader = UdpHeader(source: uint16, dest: uint16, len: uint16, check: uint16)

  /** The header as it lies in memory: version and IHL share the first byte, every
      multi-byte field in network order. */
  function IpHeaderBytes(h: IpHeader): (b: seq<uint8>)
    ensures |b| == IpHeaderLen
  {
    [h.version as int * 0x10 + h.ihl, h.tos] + U16(h.totLen) + U16(h.id) + U16(h.fragOff)
    + [h.ttl, h.protocol] + U16(h.check) + U32(h.saddr) + U32(h.daddr)
  }

  function ParseIpHeader(b: seq<uint8>): IpHeader
    requires IpHeaderLen <= |b|
  {
    IpHeader(b[0] / 0x10, b[0] % 0x10, b[1], ReadU16(b, 2), ReadU16(b, 4), ReadU16(b, 6),
             b[8], b[9], ReadU16(b, 10), ReadU32(b, 12), ReadU32(b, 16))
  }

  function UdpHeaderBytes(h: UdpHeader): (b: seq<uint8>)
    ensures |b| == UdpHeaderLen
  {
    U16(h.source) + U16(h.dest) + U16(h.len) + U16(h.check)
  }

  function ParseUdpHeader(b: seq<uint8>): UdpHeader
    requires UdpHeaderLen <= |b|
  {
    UdpHeader(ReadU16(b, 0), ReadU16(b, 2), ReadU16(b, 4), ReadU16(b, 6))
  }

  /** The pseudo-header the UDP checksum covers: both addresses, a zero byte, the
      protocol and the UDP length. */
  function PseudoHeaderBytes(saddr: uint32, daddr: uint32, udpLen: uint16): (b: seq<uint8>)
    ensures |b| == PseudoHeaderLen
  {
    U32(saddr) + U32(daddr) + [0, IpProtoUdp] + U16(udpLen)
  }

  lemma IpHeaderRoundTrip(h: IpHeader)
    ensures ParseIpHeader(IpHeaderBytes(h)) == h
  {
    var b := IpHeaderBytes(h);
    assert b[12..16] == U32(h.saddr) && b[16..] == U32(h.daddr);
    ReadU32Slice(b, 12);
    ReadU32Slice(b, 16);
  }

  lemma IpHeaderOfParse(b: seq<uint8>)
    requires |b| == IpHeaderLen
    ensures IpHeaderBytes(ParseIpHeader(b)) == b
  {
    var h := ParseIpHeader(b);
    U16OfRead(b[2..4]);
    U16OfRead(b[4..6]);
    U16OfRead(b[6..8]);
    U16OfRead(b[10..12]);
    ReadU32Slice(b, 12);
    ReadU32Slice(b, 16);
    U32OfRead(b[12..16]);
    U32OfRead(b[16..]);
    assert b[0] == h.version as int * 0x10 + h.ihl;
  }

  lemma UdpHeaderRoundTrip(h: UdpHeader)
    ensures ParseUdpHeader(UdpHeaderBytes(h)) == h
  {
  }

  lemma UdpHeaderOfParse(b: seq<uint8>)
    requires |b| == UdpHeaderLen
    ensures UdpHeaderBytes(ParseUdpHeader(b)) == b
  {
    U16OfRead(b[..2]);
    U16OfRead(b[2..4]);
    U16OfRead(b[4..6]);
    U16OfRead(b[6..]);
  }

  lemma ReadU32Slice(b: seq<uint8>, off: nat)
    requires off + 4 <= |b|
    ensures ReadU32(b, off) == ReadU32(b[off..off + 4], 0)
  {
  }

  // ---- Writing headers through the struct overlays ---------------------------

  /** The field stores through `struct iphdr *iph` at offset 0 of the packet. */
  method WriteIpHeader(a: array<uint8>, h: IpHeader)
    requires IpHeaderLen <= a.Length
    modifies a
    ensures a[..IpHeaderLen] == IpHeaderBytes(h)
    ensures a[IpHeaderLen..] == old(a[IpHeaderLen..])
  {
    a[0] := h.version as int * 0x10 + h.ihl;
    a[1] := h.tos;
    PutU16(a, 2, h.totLen);
    PutU16(a, 4, h.id);
    PutU16(a, 6, h.fragOff);
    a[8] := h.ttl;
    a[9] := h.protocol;
    PutU16(a, 10, h.check);
    PutU32(a, 12, h.saddr);
    PutU32(a, 16, h.daddr);
    IpHeaderLayout(h, a[..IpHeaderLen]);
  }

  /** The 20 bytes of the header, one by one. */
  lemma IpHeaderLayout(h: IpHeader, s: seq<uint8>)
    requires |s| == IpHeaderLen
    requires s[0] == h.version as int * 0x10 + h.ihl && s[1] == h.tos
    requires s[2] == h.totLen / 0x100 && s[3] == h.totLen % 0x100
    requires s[4] == h.id / 0x100 && s[5] == h.id % 0x100
    requires s[6] == h.fragOff / 0x100 && s[7] == h.fragOff % 0x100
    requires s[8] == h.ttl && s[9] == h.protocol
    requires s[10] == h.check / 0x100 && s[11] == h.check % 0x100
    requires s[12] == h.saddr / 0x1_0000 / 0x100 && s[13] == h.saddr / 0x1_0000 % 0x100
    requires s[14] == h.saddr % 0x1_0000 / 0x100 && s[15] == h.saddr % 0x1_0000 % 0x100
    requires s[16] == h.daddr / 0x1_0000 / 0x100 && s[17] == h.daddr / 0x1_0000 % 0x100
    requires s[18] == h.daddr % 0x1_0000 / 0x100 && s[19] == h.daddr % 0x1_0000 % 0x100
    ensures s == IpHeaderBytes(h)
  {
  }

  /** The field stores through `struct udphdr *udph` at offset `off`. */
  method WriteUdpHeader(a: array<uint8>, off: nat, h: UdpHeader)
    requires off + UdpHeaderLen <= a.Length
    modifies a
    ensures a[off..off + UdpHeaderLen] == UdpHeaderBytes(h)
    ensures a[..off] == old(a[..off]) && a[off + UdpHeaderLen..] == old(a[off + UdpHeaderLen..])
  {
    PutU16(a, off, h.source);
    PutU16(a, off + 2, h.dest);
    PutU16(a, off + 4, h.len);
    PutU16(a, off + 6, h.check);
  }

  /** The pseudo-header's fields, stored at the start of the checksum buffer. */
  method WritePseudoHeader(a: array<uint8>, saddr: uint32, daddr: uint32, udpLen: uint16)
    requires PseudoHeaderLen <= a.Length
    modifies a
    ensures a[..PseudoHeaderLen] == PseudoHeaderBytes(saddr, daddr, udpLen)
    ensures a[PseudoHeaderLen..] == old(a[PseudoHeaderLen..])
  {
    PutU32(a, 0, saddr);
    PutU32(a, 4, daddr);
    a[8] := 0;
    a[9] := IpProtoUdp;
    PutU16(a, 10, udpLen);
  }

  // ---- The packet the builder produces ----------------------------------------

  /** The IPv4 header for a DNS message of `dnsLen` bytes: version 4, five words of
      header, TOS 0, total length, identifier 54321, no fragmentation, TTL 255,
      protocol UDP. */
  function QueryIpHeader(saddr: uint32, daddr: uint32, dnsLen: nat, check: uint16): IpHeader
    requires dnsLen <= DnsCapacity
  {
    IpHeader(IpVersion, IpIhl, 0, IpHeaderLen + UdpHeaderLen + dnsLen, IpId, 0, IpTtl,
             IpProtoUdp, check, saddr, daddr)
  }

  function QueryUdpHeader(sport: uint16, dport: uint16, dnsLen: nat, check: uint16): UdpHeader
    requires dnsLen <= DnsCapacity
  {
    UdpHeader(sport, dport, UdpHeaderLen + dnsLen, check)
  }

  /** The IP checksum: over the header with its check field zero. */
  function IpCheck(saddr: uint32, daddr: uint32, dnsLen: nat): uint16
    requires dnsLen <= DnsCapacity
  {
    InternetChecksum(IpHeaderBytes(QueryIpHeader(saddr, daddr, dnsLen, 0)))
  }

  /** What the UDP checksum covers: pseudo-header, UDP header with its check field
      zero, and the payload. */
  function UdpCheckInput(saddr: uint32, sport: uint16, daddr: uint32, dport: uint16, msg: seq<uint8>): seq<uint8>
    requires |msg| <= DnsCapacity
  {
    PseudoHeaderBytes(saddr, daddr, UdpHeaderLen + |msg|)
    + UdpHeaderBytes(QueryUdpHeader(sport, dport, |msg|, 0)) + msg
  }

  function UdpCheck(saddr: uint32, sport: uint16, daddr: uint32, dport: uint16, msg: seq<uint8>): uint16
    requires |msg| <= DnsCapacity
  {
    InternetChecksum(UdpCheckInput(saddr, sport, daddr, dport, msg))
  }

  /** The datagram carrying `msg`, both checksums filled in. */
  function Datagram(saddr: uint32, sport: uint16, daddr: uint32, dport: uint16, msg: seq<uint8>): seq<uint8>
    requires |msg| <= DnsCapacity
  {
    IpHeaderBytes(QueryIpHeader(saddr, daddr, |msg|, IpCheck(saddr, daddr, |msg|)))
    + UdpHeaderBytes(QueryUdpHeader(sport, dport, |msg|, UdpCheck(saddr, sport, daddr, dport, msg)))
    + msg
  }

  /** The packet for a query. */
  function PacketBytes(q: DnsQuery, saddr: uint32, sport: uint16, daddr: uint32, dport: uint16): seq<uint8>
    requires |q.hostname| + 18 <= DnsCapacity
  {
    QueryMessageLength(q);
    Datagram(saddr, sport, daddr, dport, QueryMessage(q))
  }

  // ---- The builder ---------------------------------------------------------------

  /** `encodeFullPacket`: the DNS message is built in its own 512-byte buffer, then
      the IP and UDP headers are stored with zero checksums in a zeroed 1024-byte
      packet, the message is copied after them, the IP checksum is computed over the
      20 header bytes, and the UDP checksum over a second zeroed buffer holding the
      pseudo-header followed by a copy of the UDP header and payload. `size` is the
      final `pos`, the number of bytes that make up the packet. */
  method EncodeFullPacket(q: DnsQuery, saddr: uint32, sport: uint16, daddr: uint32, dport: uint16)
    returns (packet: array<uint8>, size: nat)
    requires |q.hostname| + 18 <= DnsCapacity
    ensures fresh(packet) && packet.Length == PacketCapacity
    ensures size == IpHeaderLen + UdpHeaderLen + |q.hostname| + 18
    ensures packet[..size] == PacketBytes(q, saddr, sport, daddr, dport)
    ensures packet[size..] == Zeros(PacketCapacity - size)
  {
    packet := new uint8[PacketCapacity](_ => 0);
    ghost var zeroed := packet[..];
    assert zeroed == Zeros(PacketCapacity);
    var dnsBuffer := new uint8[DnsCapacity](_ => 0);
    var dnsLen := EncodeQuery(q, dnsBuffer);
    ghost var msg := QueryMessage(q);
    var ip0 := QueryIpHeader(saddr, daddr, dnsLen, 0);
    var udp0 := QueryUdpHeader(sport, dport, dnsLen, 0);
    size := WriteDatagram(packet, ip0, udp0, dnsBuffer, dnsLen);
    ghost var unchecked := packet[..];
    assert unchecked[size..] == zeroed[size..];

    var ipCheck, udpCheck := StoreChecksums(packet, saddr, daddr, size);
    DatagramOfChecks(saddr, sport, daddr, dport, msg, unchecked, ipCheck, udpCheck);
    UpdatesKeepTail(unchecked, size, ipCheck, udpCheck);
    ZerosTail(PacketCapacity, size);
  }

  /** The two checksum computations and the stores into `iph->check` and
      `udph->check`. */
  method StoreChecksums(packet: array<uint8>, saddr: uint32, daddr: uint32, size: nat)
    returns (ipCheck: uint16, udpCheck: uint16)
    requires IpHeaderLen + UdpHeaderLen <= size <= packet.Length
    requires size - IpHeaderLen < 0x1_0000 && PseudoHeaderLen + size - IpHeaderLen <= MaxLen
    modifies packet
    ensures ipCheck == InternetChecksum(old(packet[..IpHeaderLen]))
    ensures udpCheck == InternetChecksum(PseudoHeaderBytes(saddr, daddr, size - IpHeaderLen) + old(packet[IpHeaderLen..size]))
    ensures packet[..] == old(packet[..])[10 := ipCheck / 0x100][11 := ipCheck % 0x100]
                                         [26 := udpCheck / 0x100][27 := udpCheck % 0x100]
  {
    ipCheck := Checksum.Checksum(packet, IpHeaderLen);
    PutU16(packet, IpCheckOffset, ipCheck);
    assert packet[IpHeaderLen..size] == old(packet[IpHeaderLen..size]);
    udpCheck := UdpChecksum(packet, saddr, daddr, size - IpHeaderLen);
    PutU16(packet, UdpCheckOffset, udpCheck);
  }

  /** n zero bytes, as `memset` or a zero-initialised buffer holds them. */
  function Zeros(n: nat): (z: seq<uint8>)
    ensures |z| == n && forall j :: 0 <= j < n ==> z[j] == 0
  {
    seq(n, _ => 0)
  }

  lemma ZerosTail(n: nat, k: nat)
    requires k <= n
    ensures Zeros(n)[k..] == Zeros(n - k)
  {
  }

  lemma UpdatesKeepTail(s: seq<uint8>, n: nat, ic: uint16, uc: uint16)
    requires 28 <= n <= |s|
    ensures s[10 := ic / 0x100][11 := ic % 0x100][26 := uc / 0x100][27 := uc % 0x100][n..] == s[n..]
  {
  }

  /** The stores through `iph` and `udph` with zero checksums, then the `memcpy` of
      the DNS message after them; returns the advanced `pos`. */
  method WriteDatagram(packet: array<uint8>, ip: IpHeader, udp: UdpHeader, dns: array<uint8>, dnsLen: nat)
    returns (pos: nat)
    requires packet != dns && dnsLen <= dns.Length
    requires IpHeaderLen + UdpHeaderLen + dnsLen <= packet.Length
    modifies packet
    ensures pos == IpHeaderLen + UdpHeaderLen + dnsLen
    ensures packet[..pos] == IpHeaderBytes(ip) + UdpHeaderBytes(udp) + dns[..dnsLen]
    ensures packet[pos..] == old(packet[pos..])
  {
    ghost var end := IpHeaderLen + UdpHeaderLen + dnsLen;
    pos := 0;
    WriteIpHeader(packet, ip);
    assert packet[end..] == old(packet[end..]);
    pos := pos + IpHeaderLen;
    WriteUdpHeader(packet, pos, udp);
    assert packet[..IpHeaderLen] == IpHeaderBytes(ip);
    assert packet[end..] == old(packet[end..]);
    pos := pos + UdpHeaderLen;
    ghost var headers := packet[..pos];
    CopyBytes(packet, pos, dns, 0, dnsLen);
    assert packet[..pos] == headers;
    pos := pos + dnsLen;
    UncheckedLayout(packet[..], IpHeaderBytes(ip), UdpHeaderBytes(udp), dns[..dnsLen]);
  }

  /** The UDP checksum computation: the pseudo-header and a copy of the UDP header
      and payload in a zeroed 1024-byte buffer, summed over their length. */
  method UdpChecksum(packet: array<uint8>, saddr: uint32, daddr: uint32, udpLen: uint16) returns (c: uint16)
    requires IpHeaderLen + udpLen <= packet.Length && PseudoHeaderLen + udpLen <= MaxLen
    ensures c == InternetChecksum(PseudoHeaderBytes(saddr, daddr, udpLen) + packet[IpHeaderLen..IpHeaderLen + udpLen])
  {
    var checkBuf := new uint8[PacketCapacity](_ => 0);
    WritePseudoHeader(checkBuf, saddr, daddr, udpLen);
    CopyBytes(checkBuf, PseudoHeaderLen, packet, IpHeaderLen, udpLen);
    assert checkBuf[..PseudoHeaderLen + udpLen] == checkBuf[..PseudoHeaderLen] + checkBuf[PseudoHeaderLen..PseudoHeaderLen + udpLen];
    c := Checksum.Checksum(checkBuf, PseudoHeaderLen + udpLen);
  }

  /** After the stores and the copy, the packet holds the headers with zero
      checksums, then the message, then the zeros it started with. */
  lemma UncheckedLayout(s: seq<uint8>, ip: seq<uint8>, udp: seq<uint8>, msg: seq<uint8>)
    requires |ip| == IpHeaderLen && |udp| == UdpHeaderLen
    requires IpHeaderLen + UdpHeaderLen + |msg| <= |s|
    requires s[..IpHeaderLen] == ip && s[IpHeaderLen..IpHeaderLen + UdpHeaderLen] == udp
    requires s[IpHeaderLen + UdpHeaderLen..IpHeaderLen + UdpHeaderLen + |msg|] == msg
    ensures s[..IpHeaderLen + UdpHeaderLen + |msg|] == ip + udp + msg
    ensures s[IpHeaderLen..IpHeaderLen + UdpHeaderLen + |msg|] == udp + msg
  {
    assert s[..IpHeaderLen + UdpHeaderLen + |msg|]
        == s[..IpHeaderLen] + s[IpHeaderLen..IpHeaderLen + UdpHeaderLen] + s[IpHeaderLen + UdpHeaderLen..IpHeaderLen + UdpHeaderLen + |msg|];
  }

  /** Storing the two checksums computed over the packet built with zero checksums
      gives the datagram carrying the message. */
  lemma DatagramOfChecks(saddr: uint32, sport: uint16, daddr: uint32, dport: uint16, msg: seq<uint8>,
                         s: seq<uint8>, ic: uint16, uc: uint16)
    requires |msg| <= DnsCapacity && IpHeaderLen + UdpHeaderLen + |msg| <= |s|
    requires s[..IpHeaderLen + UdpHeaderLen + |msg|]
             == IpHeaderBytes(QueryIpHeader(saddr, daddr, |msg|, 0))
                + UdpHeaderBytes(QueryUdpHeader(sport, dport, |msg|, 0)) + msg
    requires ic == InternetChecksum(s[..IpHeaderLen])
    requires uc == InternetChecksum(PseudoHeaderBytes(saddr, daddr, UdpHeaderLen + |msg|)
                                    + s[IpHeaderLen..IpHeaderLen + UdpHeaderLen + |msg|])
    ensures s[10 := ic / 0x100][11 := ic % 0x100][26 := uc / 0x100][27 := uc % 0x100][..IpHeaderLen + UdpHeaderLen + |msg|]
            == Datagram(saddr, sport, daddr, dport, msg)
  {
    var n := IpHeaderLen + UdpHeaderLen + |msg|;
    var ip0 := QueryIpHeader(saddr, daddr, |msg|, 0);
    var udp0 := QueryUdpHeader(sport, dport, |msg|, 0);
    PrefixParts(s, n, IpHeaderBytes(ip0), UdpHeaderBytes(udp0), msg);
    AppendAssoc(PseudoHeaderBytes(saddr, daddr, UdpHeaderLen + |msg|), UdpHeaderBytes(udp0), msg);
    assert ic == IpCheck(saddr, daddr, |msg|);
    assert uc == UdpCheck(saddr, sport, daddr, dport, msg);
    StoreChecks(s, n, ip0, udp0, msg, ic, uc);
  }

  lemma PrefixParts(s: seq<uint8>, n: nat, ip: seq<uint8>, udp: seq<uint8>, msg: seq<uint8>)
    requires |ip| == IpHeaderLen && n == IpHeaderLen + |udp| + |msg| <= |s|
    requires s[..n] == ip + udp + msg
    ensures s[..IpHeaderLen] == ip && s[IpHeaderLen..n] == udp + msg
  {
    assert s[..IpHeaderLen] == s[..n][..IpHeaderLen];
    assert s[IpHeaderLen..n] == s[..n][IpHeaderLen..];
  }

  /** Storing both checksums into the packet built with zero checksums gives the
      headers that carry them. */
  lemma StoreChecks(s: seq<uint8>, n: nat, ip: IpHeader, udp: UdpHeader, msg: seq<uint8>, ic: uint16, uc: uint16)
    requires n == IpHeaderLen + UdpHeaderLen + |msg| && n <= |s|
    requires s[..n] == IpHeaderBytes(ip) + UdpHeaderBytes(udp) + msg
    ensures s[10 := ic / 0x100][11 := ic % 0x100][26 := uc / 0x100][27 := uc % 0x100][..n]
            == IpHeaderBytes(ip.(check := ic)) + UdpHeaderBytes(udp.(check := uc)) + msg
  {
    SetIpCheck(ip, ic);
    SetUdpCheck(IpHeaderBytes(ip.(check := ic)), udp, msg, uc);
  }

  // ---- The receiving side ------------------------------------------------------

  /** What a receiver takes from a packet: addresses, ports and UDP payload. */
  datatype Delivery = Delivery(saddr: uint32, sport: uint16, daddr: uint32, dport: uint16, payload: seq<uint8>)

  /** A receiver's checks on an IPv4/UDP packet without options: version and header
      length, total length, protocol, the IP checksum, the UDP length, and the UDP
      checksum unless it is zero (RFC 768: zero means none was computed). */
  function ParsePacket(p: seq<uint8>): (r: Option<Delivery>)
    ensures r.Some? ==> |p| >= IpHeaderLen + UdpHeaderLen && r.value.payload == p[IpHeaderLen + UdpHeaderLen..]
  {
    if |p| < IpHeaderLen + UdpHeaderLen then None
    else
      var ip := ParseIpHeader(p);
      var udp := ParseUdpHeader(p[IpHeaderLen..]);
      if ip.version != IpVersion || ip.ihl != IpIhl || ip.totLen != |p| || ip.protocol != IpProtoUdp
         || InternetChecksum(p[..IpHeaderLen]) != 0 || udp.len != |p| - IpHeaderLen
         || (udp.check != 0 && InternetChecksum(PseudoHeaderBytes(ip.saddr, ip.daddr, udp.len) + p[IpHeaderLen..]) != 0)
      then None
      else Some(Delivery(ip.saddr, udp.source, ip.daddr, udp.dest, p[IpHeaderLen + UdpHeaderLen..]))
  }

  // ---- Properties --------------------------------------------------------------

  /** Storing a checksum in the IP header writes the two bytes at offset 10. */
  lemma SetIpCheck(h: IpHeader, c: uint16)
    ensures IpHeaderBytes(h.(check := c)) == IpHeaderBytes(h)[10 := c / 0x100][11 := c % 0x100]
  {
  }

  /** Storing a checksum in the UDP header writes the two bytes at offset 6 of it. */
  lemma SetUdpCheck(pre: seq<uint8>, h: UdpHeader, msg: seq<uint8>, c: uint16)
    ensures pre + UdpHeaderBytes(h.(check := c)) + msg
            == (pre + UdpHeaderBytes(h) + msg)[|pre| + 6 := c / 0x100][|pre| + 7 := c % 0x100]
  {
  }

  /** The IP header of the packet checks: its checksum over all 20 bytes is 0. */
  lemma IpChecksumVerifies(saddr: uint32, daddr: uint32, dnsLen: nat)
    requires dnsLen <= DnsCapacity
    ensures InternetChecksum(IpHeaderBytes(QueryIpHeader(saddr, daddr, dnsLen, IpCheck(saddr, daddr, dnsLen)))) == 0
  {
    var h := QueryIpHeader(saddr, daddr, dnsLen, 0);
    SetIpCheck(h, IpCheck(saddr, daddr, dnsLen));
    assert h.(check := IpCheck(saddr, daddr, dnsLen)) == QueryIpHeader(saddr, daddr, dnsLen, IpCheck(saddr, daddr, dnsLen));
    ChecksumVerifies(IpHeaderBytes(h), 10);
  }

  /** The UDP part of the packet checks: the checksum over pseudo-header, UDP header
      and payload, with the stored checksum in place, is 0. */
  lemma UdpChecksumVerifies(saddr: uint32, sport: uint16, daddr: uint32, dport: uint16, msg: seq<uint8>)
    requires |msg| <= DnsCapacity
    ensures var c := UdpCheck(saddr, sport, daddr, dport, msg);
            InternetChecksum(PseudoHeaderBytes(saddr, daddr, UdpHeaderLen + |msg|)
                             + UdpHeaderBytes(QueryUdpHeader(sport, dport, |msg|, c)) + msg) == 0
  {
    var c := UdpCheck(saddr, sport, daddr, dport, msg);
    var pseudo := PseudoHeaderBytes(saddr, daddr, UdpHeaderLen + |msg|);
    var h := QueryUdpHeader(sport, dport, |msg|, 0);
    SetUdpCheck(pseudo, h, msg, c);
    assert h.(check := c) == QueryUdpHeader(sport, dport, |msg|, c);
    ChecksumVerifies(UdpCheckInput(saddr, sport, daddr, dport, msg), 18);
  }

  /** On a big-endian host the source's UDP checksum of a query whose hostname has
      odd length is not `UdpCheck`: the bytes it covers are odd in number and end
      in QCLASS's low byte 1, which the source adds unshifted. */
  lemma UdpCheckOnBigEndianHost(q: DnsQuery, saddr: uint32, sport: uint16, daddr: uint32, dport: uint16)
    requires |q.hostname| + 18 <= DnsCapacity && |q.hostname| % 2 == 1
    ensures var msg := QueryMessage(q);
            |msg| <= DnsCapacity
            && BigEndianHostChecksum(UdpCheckInput(saddr, sport, daddr, dport, msg))
               != UdpCheck(saddr, sport, daddr, dport, msg)
  {
    QueryMessageLength(q);
    var msg := QueryMessage(q);
    var s := UdpCheckInput(saddr, sport, daddr, dport, msg);
    assert msg[|msg| - 1] == U16(QClassIn)[1] == 1;
    assert s[|s| - 1] == msg[|msg| - 1];
    OddByteUnshifted(s);
  }

  /** A receiver accepts the packet and hands the DNS message to the destination
      port, with the addresses and ports the packet was built with. */
  lemma DatagramDelivered(saddr: uint32, sport: uint16, daddr: uint32, dport: uint16, msg: seq<uint8>)
    requires |msg| <= DnsCapacity
    ensures ParsePacket(Datagram(saddr, sport, daddr, dport, msg)) == Some(Delivery(saddr, sport, daddr, dport, msg))
  {
    var p := Datagram(saddr, sport, daddr, dport, msg);
    var iph := QueryIpHeader(saddr, daddr, |msg|, IpCheck(saddr, daddr, |msg|));
    var udph := QueryUdpHeader(sport, dport, |msg|, UdpCheck(saddr, sport, daddr, dport, msg));
    var pseudo := PseudoHeaderBytes(saddr, daddr, UdpHeaderLen + |msg|);
    DatagramParts(IpHeaderBytes(iph), UdpHeaderBytes(udph), msg, pseudo);
    IpHeaderRoundTrip(iph);
    UdpHeaderRoundTrip(udph);
    IpChecksumVerifies(saddr, daddr, |msg|);
    UdpChecksumVerifies(saddr, sport, daddr, dport, msg);
  }

  /** Where the parts of a datagram lie, and what the receiver's header reads see. */
  lemma DatagramParts(ip: seq<uint8>, udp: seq<uint8>, msg: seq<uint8>, pseudo: seq<uint8>)
    requires |ip| == IpHeaderLen && |udp| == UdpHeaderLen
    ensures var p := ip + udp + msg;
            p[..IpHeaderLen] == ip && p[IpHeaderLen + UdpHeaderLen..] == msg
            && ParseIpHeader(p) == ParseIpHeader(ip)
            && ParseUdpHeader(p[IpHeaderLen..]) == ParseUdpHeader(udp)
            && pseudo + p[IpHeaderLen..] == pseudo + udp + msg
  {
    var p := ip + udp + msg;
    assert p[..IpHeaderLen] == ip;
    assert p[IpHeaderLen..] == udp + msg;
    assert p[IpHeaderLen + UdpHeaderLen..] == msg;
  }

  /** The packet carries the query: what the receiver delivers reads back as the
      query, for every query whose hostname the encoder can represent. */
  lemma PacketCarriesQuery(q: DnsQuery, saddr: uint32, sport: uint16, daddr: uint32, dport: uint16)
    requires |q.hostname| + 18 <= DnsCapacity
    requires q.qtype == "A" && ValidHostname(q.hostname)
    ensures ParsePacket(PacketBytes(q, saddr, sport, daddr, dport)).Some?
    ensures var d := ParsePacket(PacketBytes(q, saddr, sport, daddr, dport)).value;
            d.saddr == saddr && d.sport == sport && d.daddr == daddr && d.dport == dport
            && DecodeQuery(d.payload) == Some(q)
  {
    QueryMessageLength(q);
    DatagramDelivered(saddr, sport, daddr, dport, QueryMessage(q));
    DecodeQueryMessage(q);
  }

  /** The header fields of the packet, read back: the constants of the builder and
      lengths that agree with the packet's size. */
  lemma PacketFields(q: DnsQuery, saddr: uint32, sport: uint16, daddr: uint32, dport: uint16)
    requires |q.hostname| + 18 <= DnsCapacity
    ensures var p := PacketBytes(q, saddr, sport, daddr, dport);
            |p| == IpHeaderLen + UdpHeaderLen + |q.hostname| + 18
            && var ip := ParseIpHeader(p);
            && ip.version == 4 && ip.ihl == 5 && ip.tos == 0 && ip.totLen == |p| && ip.id == 54321
            && ip.fragOff == 0 && ip.ttl == 255 && ip.protocol == 17 && ip.saddr == saddr && ip.daddr == daddr
            && var udp := ParseUdpHeader(p[IpHeaderLen..]);
            && udp.source == sport && udp.dest == dport && udp.len == |p| - IpHeaderLen
            && p[IpHeaderLen + UdpHeaderLen..] == QueryMessage(q)
  {
    QueryMessageLength(q);
    var msg := QueryMessage(q);
    var p := Datagram(saddr, sport, daddr, dport, msg);
    var iph := QueryIpHeader(saddr, daddr, |msg|, IpCheck(saddr, daddr, |msg|));
    var udph := QueryUdpHeader(sport, dport, |msg|, UdpCheck(saddr, sport, daddr, dport, msg));
    DatagramParts(IpHeaderBytes(iph), UdpHeaderBytes(udph), msg, []);
    IpHeaderRoundTrip(iph);
    UdpHeaderRoundTrip(udph);
  }
}
