/** The raw IP/UDP packets of module3/cross1/server.c and client.c: how
    build_packet lays them out, and how both ends parse them. */
module Packets {
  import opened Bytes
  import opened Checksum

  const PORT: U16 := 7000
  const BUF_SIZE := 2048
  const IP_HEADER := 20
  const UDP_HEADER := 8
  const MAX_DATA := 0xFFFF - IP_HEADER - UDP_HEADER  // what the 16-bit lengths allow
  const ROOM := BUF_SIZE - IP_HEADER - UDP_HEADER    // what a packet buffer of the programs holds
  const UDP: Byte := 17

  /** An IPv4 address as its four bytes in memory, which are in network order. */
  type Addr = a: seq<Byte> | |a| == 4 witness [0, 0, 0, 0]

  // ----- Layout -----

  function PseudoHeader(src: Addr, dst: Addr, udpLen: U16): (h: seq<Byte>)
    ensures |h| == 12
  {
    src + dst + [0, UDP] + NetBytes(udpLen)
  }

  function UdpHeader(srcPort: U16, dstPort: U16, udpLen: U16, check: U16): (h: seq<Byte>)
    ensures |h| == UDP_HEADER
  {
    NetBytes(srcPort) + NetBytes(dstPort) + NetBytes(udpLen) + HostBytes(check)
  }

  /** Version 4, header of 5 words, total length, TTL 64, protocol UDP; the
      fields the compound literal leaves out are zero. */
  function IpHeader(src: Addr, dst: Addr, totalLen: U16, check: U16): (h: seq<Byte>)
    ensures |h| == IP_HEADER
  {
    [0x45, 0] + NetBytes(totalLen) + [0, 0, 0, 0, 64, UDP] + HostBytes(check) + src + dst
  }

  function UdpCheck(src: Addr, dst: Addr, srcPort: U16, dstPort: U16, payload: seq<Byte>): U16
    requires |payload| <= MAX_DATA
  {
    var udpLen := UDP_HEADER + |payload|;
    var sum := HostSum(PseudoHeader(src, dst, udpLen)) + HostSum(UdpHeader(srcPort, dstPort, udpLen, 0) + payload);
    FoldFits(sum);
    0xFFFF - Fold(sum)
  }

  function IpCheck(src: Addr, dst: Addr, totalLen: U16): U16 {
    var sum := HostSum(IpHeader(src, dst, totalLen, 0));
    FoldFits(sum);
    0xFFFF - Fold(sum)
  }

  function UdpPart(src: Addr, srcPort: U16, dst: Addr, dstPort: U16, payload: seq<Byte>): seq<Byte>
    requires |payload| <= MAX_DATA
  {
    UdpHeader(srcPort, dstPort, UDP_HEADER + |payload|, UdpCheck(src, dst, srcPort, dstPort, payload)) + payload
  }

  function Packet(src: Addr, srcPort: U16, dst: Addr, dstPort: U16, payload: seq<Byte>): (p: seq<Byte>)
    requires |payload| <= MAX_DATA
    ensures |p| == IP_HEADER + UDP_HEADER + |payload|
  {
    var totalLen := IP_HEADER + UDP_HEADER + |payload|;
    IpHeader(src, dst, totalLen, IpCheck(src, dst, totalLen)) + UdpPart(src, srcPort, dst, dstPort, payload)
  }

  // ----- build_packet -----

  method Store(buf: array<Byte>, at: nat, data: seq<Byte>)
    requires at + |data| <= buf.Length
    modifies buf
    ensures forall k :: at <= k < at + |data| ==> buf[k] == data[k - at]
    ensures forall k :: 0 <= k < buf.Length && !(at <= k < at + |data|) ==> buf[k] == old(buf[k])
  {
    var i := 0;
    while i < |data|
      invariant 0 <= i <= |data|
      invariant forall k :: at <= k < at + i ==> buf[k] == data[k - at]
      invariant forall k :: 0 <= k < buf.Length && !(at <= k < at + i) ==> buf[k] == old(buf[k])
    {
      buf[at + i] := data[i];
      i := i + 1;
    }
  }

  /** A check field is two bytes of its header. */
  lemma UdpHeaderPatched(srcPort: U16, dstPort: U16, udpLen: U16, check: U16)
    ensures UdpHeader(srcPort, dstPort, udpLen, 0)[..6] + HostBytes(check) == UdpHeader(srcPort, dstPort, udpLen, check)
  {
  }

  lemma IpHeaderPatched(src: Addr, dst: Addr, totalLen: U16, check: U16)
    ensures IpHeader(src, dst, totalLen, 0)[..10] + HostBytes(check) + IpHeader(src, dst, totalLen, 0)[12..]
      == IpHeader(src, dst, totalLen, check)
  {
  }

  /** The datagram before its check is known: first the payload is copied, then
      the header is filled in. */
  method StoreDatagram(buf: array<Byte>, header: seq<Byte>, payload: seq<Byte>)
    requires |header| == UDP_HEADER && IP_HEADER + UDP_HEADER + |payload| <= buf.Length
    modifies buf
    ensures buf[IP_HEADER..IP_HEADER + UDP_HEADER + |payload|] == header + payload
    ensures forall k :: IP_HEADER + UDP_HEADER + |payload| <= k < buf.Length ==> buf[k] == old(buf[k])
  {
    Store(buf, IP_HEADER + UDP_HEADER, payload);
    Store(buf, IP_HEADER, header);
  }

  /** udp->check = check */
  method StoreUdpCheck(buf: array<Byte>, ghost header: seq<Byte>, ghost payload: seq<Byte>, check: U16)
    requires |header| == UDP_HEADER && IP_HEADER + UDP_HEADER + |payload| <= buf.Length
    requires buf[IP_HEADER..IP_HEADER + UDP_HEADER + |payload|] == header + payload
    modifies buf
    ensures buf[IP_HEADER..IP_HEADER + UDP_HEADER + |payload|] == header[..6] + HostBytes(check) + payload
    ensures forall k :: IP_HEADER + UDP_HEADER + |payload| <= k < buf.Length ==> buf[k] == old(buf[k])
  {
    ghost var was := buf[IP_HEADER..IP_HEADER + UDP_HEADER + |payload|];
    Store(buf, IP_HEADER + 6, HostBytes(check));
    ghost var now := buf[IP_HEADER..IP_HEADER + UDP_HEADER + |payload|];
    assert forall k :: 0 <= k < |now| && k != 6 && k != 7 ==> now[k] == was[k];
  }

  /** The sum over the pseudo-header and the datagram does not overflow. */
  method SumBoth(pseudo: seq<Byte>, datagram: seq<Byte>) returns (sum: int)
    requires |pseudo| + |datagram| <= 12 + 0xFFFF
    ensures 0 <= sum == HostSum(pseudo) + HostSum(datagram) < U32_SIZE
  {
    HostSumBound(pseudo);
    HostSumBound(datagram);
    sum := Add(0, pseudo);
    sum := Add(sum, datagram);
  }

  /** The UDP half of build_packet. */
  method BuildUdp(buf: array<Byte>, src: Addr, srcPort: U16, dst: Addr, dstPort: U16, payload: seq<Byte>)
    requires IP_HEADER + UDP_HEADER + |payload| <= buf.Length && |payload| <= MAX_DATA
    modifies buf
    ensures buf[IP_HEADER..IP_HEADER + UDP_HEADER + |payload|] == UdpPart(src, srcPort, dst, dstPort, payload)
    ensures forall k :: IP_HEADER + UDP_HEADER + |payload| <= k < buf.Length ==> buf[k] == old(buf[k])
  {
    var udpLen := UDP_HEADER + |payload|;
    var header, pseudo := UdpHeader(srcPort, dstPort, udpLen, 0), PseudoHeader(src, dst, udpLen);
    StoreDatagram(buf, header, payload);
    var sum := SumBoth(pseudo, buf[IP_HEADER..IP_HEADER + udpLen]);
    var check := Done(sum);
    assert check == UdpCheck(src, dst, srcPort, dstPort, payload);
    StoreUdpCheck(buf, header, payload, check);
    UdpHeaderPatched(srcPort, dstPort, udpLen, check);
  }

  /** ip->check = check */
  method StoreIpCheck(buf: array<Byte>, ghost header: seq<Byte>, check: U16)
    requires |header| == IP_HEADER <= buf.Length && buf[..IP_HEADER] == header
    modifies buf
    ensures buf[..] == header[..10] + HostBytes(check) + header[12..] + old(buf[IP_HEADER..])
  {
    ghost var was := buf[..];
    assert was[..IP_HEADER] == header && was[IP_HEADER..] == buf[IP_HEADER..];
    Store(buf, 10, HostBytes(check));
    assert buf[..] == was[..10] + HostBytes(check) + was[12..];
    assert was[..10] == header[..10] && was[12..] == header[12..] + was[IP_HEADER..];
  }

  /** The IP half of build_packet. */
  method BuildIp(buf: array<Byte>, src: Addr, dst: Addr, totalLen: U16)
    requires buf.Length >= IP_HEADER
    modifies buf
    ensures buf[..] == IpHeader(src, dst, totalLen, IpCheck(src, dst, totalLen)) + old(buf[IP_HEADER..])
  {
    var header := IpHeader(src, dst, totalLen, 0);
    Store(buf, 0, header);
    assert buf[..IP_HEADER] == header && buf[IP_HEADER..] == old(buf[IP_HEADER..]);
    HostSumBound(header);
    var sum := Add(0, buf[..IP_HEADER]);
    var check := Done(sum);
    assert check == IpCheck(src, dst, totalLen);
    StoreIpCheck(buf, header, check);
    IpHeaderPatched(src, dst, totalLen, check);
  }

  /** build_packet, into a buffer of any earlier contents that is long enough. */
  method BuildPacket(buf: array<Byte>, src: Addr, srcPort: U16, dst: Addr, dstPort: U16, payload: seq<Byte>) returns (n: nat)
    requires IP_HEADER + UDP_HEADER + |payload| <= buf.Length && |payload| <= MAX_DATA
    modifies buf
    ensures n == IP_HEADER + UDP_HEADER + |payload|
    ensures buf[..n] == Packet(src, srcPort, dst, dstPort, payload)
    ensures buf[n..] == old(buf[n..])
  {
    n := IP_HEADER + UDP_HEADER + |payload|;
    BuildUdp(buf, src, srcPort, dst, dstPort, payload);
    ghost var udp := buf[IP_HEADER..];
    BuildIp(buf, src, dst, n);
    assert buf[..n] == buf[..IP_HEADER] + buf[IP_HEADER..n] && buf[IP_HEADER..] == udp;
    assert buf[IP_HEADER..n] == udp[..n - IP_HEADER];
  }

  // ----- What is in a packet -----

  /** ntohs of the field at an offset */
  function NetWord(buf: seq<Byte>, at: nat): U16
    requires at + 1 < |buf|
  {
    buf[at] as int * 0x100 + buf[at + 1] as int
  }

  lemma NetWordIsBigEndian(buf: seq<Byte>, at: nat)
    requires at + 1 < |buf|
    ensures NetWord(buf, at) == BigEndian(buf[at..at + 2])
  {
    BigEndianOfTwo(buf[at..at + 2]);
  }

  /** The IP header of a packet: version 4 with 5 words, no options, not a
      fragment, 64 hops to live, UDP, the whole length, from src to dst. */
  lemma PacketHeader(src: Addr, srcPort: U16, dst: Addr, dstPort: U16, payload: seq<Byte>)
    requires |payload| <= MAX_DATA
    ensures var p := Packet(src, srcPort, dst, dstPort, payload);
      && p[0] == 0x45 && p[1] == 0 && NetWord(p, 2) == |p| && p[4..8] == [0, 0, 0, 0]
      && p[8] == 64 && p[9] == 17 && p[12..16] == src && p[16..20] == dst
  {
    var p, totalLen := Packet(src, srcPort, dst, dstPort, payload), IP_HEADER + UDP_HEADER + |payload|;
    var ip := IpHeader(src, dst, totalLen, IpCheck(src, dst, totalLen));
    assert p[..20] == ip && ip[12..16] == src && ip[16..20] == dst && ip[4..8] == [0, 0, 0, 0];
    assert forall k :: 0 <= k < 20 ==> p[k] == ip[k];
    assert p[12..16] == p[..20][12..16] && p[16..20] == p[..20][16..20] && p[4..8] == p[..20][4..8];
  }

  /** Behind it the UDP header and the payload. */
  lemma PacketFields(src: Addr, srcPort: U16, dst: Addr, dstPort: U16, payload: seq<Byte>)
    requires |payload| <= MAX_DATA
    ensures var p := Packet(src, srcPort, dst, dstPort, payload);
      && NetWord(p, 20) == srcPort && NetWord(p, 22) == dstPort && NetWord(p, 24) == UDP_HEADER + |payload|
      && p[28..] == payload
  {
    var p := Packet(src, srcPort, dst, dstPort, payload);
    var udp := UdpHeader(srcPort, dstPort, UDP_HEADER + |payload|, UdpCheck(src, dst, srcPort, dstPort, payload));
    assert p[20..28] == udp;
    assert forall k :: 0 <= k < 8 ==> p[20 + k] == udp[k];
  }

  /** The pseudo-header of RFC 768, from the bytes of a packet: both addresses, a
      zero, the protocol and the UDP length. */
  function PseudoOf(p: seq<Byte>): seq<Byte>
    requires |p| >= IP_HEADER + UDP_HEADER
  {
    p[12..20] + [0, p[9]] + p[24..26]
  }

  lemma PseudoIsOwn(src: Addr, srcPort: U16, dst: Addr, dstPort: U16, payload: seq<Byte>)
    requires |payload| <= MAX_DATA
    ensures PseudoOf(Packet(src, srcPort, dst, dstPort, payload)) == PseudoHeader(src, dst, UDP_HEADER + |payload|)
  {
    var p, udpLen := Packet(src, srcPort, dst, dstPort, payload), UDP_HEADER + |payload|;
    PacketHeader(src, srcPort, dst, dstPort, payload);
    var udp := UdpHeader(srcPort, dstPort, udpLen, UdpCheck(src, dst, srcPort, dstPort, payload));
    assert p[12..20] == p[12..16] + p[16..20];
    assert p[20..28] == udp && p[24..26] == p[20..28][4..6] && udp[4..6] == NetBytes(udpLen);
  }

  // ----- Verification by the receiver -----

  /** Summed again with the checks in place, the IP header (section 3.1 of RFC
      791) and the pseudo-header with the UDP datagram both fold to 0xFFFF, all
      taken from the bytes of the packet. */
  lemma PacketVerifies(src: Addr, srcPort: U16, dst: Addr, dstPort: U16, payload: seq<Byte>)
    requires |payload| <= MAX_DATA
    ensures var p := Packet(src, srcPort, dst, dstPort, payload);
      && Fold(HostSum(p[..20])) == 0xFFFF
      && Fold(HostSum(p[12..20] + [0, p[9]] + p[24..26]) + HostSum(p[20..])) == 0xFFFF
  {
    var p, totalLen := Packet(src, srcPort, dst, dstPort, payload), IP_HEADER + UDP_HEADER + |payload|;
    IpHeaderSum(src, dst, totalLen, IpCheck(src, dst, totalLen));
    CheckVerifies(HostSum(IpHeader(src, dst, totalLen, 0)));
    assert p[..20] == IpHeader(src, dst, totalLen, IpCheck(src, dst, totalLen));

    PseudoIsOwn(src, srcPort, dst, dstPort, payload);
    DatagramVerifies(src, srcPort, dst, dstPort, payload);
    assert p[20..] == UdpPart(src, srcPort, dst, dstPort, payload);
  }

  lemma DatagramVerifies(src: Addr, srcPort: U16, dst: Addr, dstPort: U16, payload: seq<Byte>)
    requires |payload| <= MAX_DATA
    ensures Fold(HostSum(PseudoHeader(src, dst, UDP_HEADER + |payload|))
      + HostSum(UdpPart(src, srcPort, dst, dstPort, payload))) == 0xFFFF
  {
    var udpLen, check := UDP_HEADER + |payload|, UdpCheck(src, dst, srcPort, dstPort, payload);
    HostSumConcat(UdpHeader(srcPort, dstPort, udpLen, 0), payload);
    HostSumConcat(UdpHeader(srcPort, dstPort, udpLen, check), payload);
    UdpHeaderSum(srcPort, dstPort, udpLen, check);
    CheckVerifies(HostSum(PseudoHeader(src, dst, udpLen)) + HostSum(UdpHeader(srcPort, dstPort, udpLen, 0) + payload));
  }

  /** The check bytes in the packet are those RFC 768 and RFC 791 ask for: taken
      over its own bytes as words in network order, the check itself as zero. */
  lemma PacketChecksAreNetworkOrder(src: Addr, srcPort: U16, dst: Addr, dstPort: U16, payload: seq<Byte>)
    requires |payload| <= MAX_DATA
    ensures var p := Packet(src, srcPort, dst, dstPort, payload);
      var udp := p[12..20] + [0, p[9]] + p[24..26] + (p[20..26] + [0, 0] + p[28..]);
      var ip := p[..10] + [0, 0] + p[12..20];
      && Fold(NetSum(udp)) < 0x1_0000 && p[26..28] == NetBytes(0xFFFF - Fold(NetSum(udp)))
      && Fold(NetSum(ip)) < 0x1_0000 && p[10..12] == NetBytes(0xFFFF - Fold(NetSum(ip)))
  {
    var p, udpLen := Packet(src, srcPort, dst, dstPort, payload), UDP_HEADER + |payload|;
    UdpCheckIsNetworkOrder(src, srcPort, dst, dstPort, payload);
    IpCheckIsNetworkOrder(src, dst, IP_HEADER + udpLen);
    PseudoIsOwn(src, srcPort, dst, dstPort, payload);
    UnpatchedUdp(src, srcPort, dst, dstPort, payload);
    UnpatchedIp(src, srcPort, dst, dstPort, payload);
  }

  lemma UdpCheckIsNetworkOrder(src: Addr, srcPort: U16, dst: Addr, dstPort: U16, payload: seq<Byte>)
    requires |payload| <= MAX_DATA
    ensures var udpLen := UDP_HEADER + |payload|;
      var udp := PseudoHeader(src, dst, udpLen) + (UdpHeader(srcPort, dstPort, udpLen, 0) + payload);
      && Fold(NetSum(udp)) < 0x1_0000
      && HostBytes(UdpCheck(src, dst, srcPort, dstPort, payload)) == NetBytes(0xFFFF - Fold(NetSum(udp)))
  {
    var udpLen := UDP_HEADER + |payload|;
    var pseudo, udp := PseudoHeader(src, dst, udpLen), UdpHeader(srcPort, dstPort, udpLen, 0) + payload;
    HostSumConcat(pseudo, udp);
    StoredBytesAreNetworkOrder(pseudo + udp);
  }

  lemma IpCheckIsNetworkOrder(src: Addr, dst: Addr, totalLen: U16)
    ensures var ip := IpHeader(src, dst, totalLen, 0);
      Fold(NetSum(ip)) < 0x1_0000 && HostBytes(IpCheck(src, dst, totalLen)) == NetBytes(0xFFFF - Fold(NetSum(ip)))
  {
    StoredBytesAreNetworkOrder(IpHeader(src, dst, totalLen, 0));
  }

  /** The datagram of a packet with its check taken out again. */
  lemma UnpatchedUdp(src: Addr, srcPort: U16, dst: Addr, dstPort: U16, payload: seq<Byte>)
    requires |payload| <= MAX_DATA
    ensures var p := Packet(src, srcPort, dst, dstPort, payload);
      && p[26..28] == HostBytes(UdpCheck(src, dst, srcPort, dstPort, payload))
      && p[20..26] + [0, 0] + p[28..] == UdpHeader(srcPort, dstPort, UDP_HEADER + |payload|, 0) + payload
  {
    var p, udpLen := Packet(src, srcPort, dst, dstPort, payload), UDP_HEADER + |payload|;
    var header := UdpHeader(srcPort, dstPort, udpLen, UdpCheck(src, dst, srcPort, dstPort, payload));
    assert p[20..28] == header && p[28..] == payload;
    assert p[20..26] == p[20..28][..6] && p[26..28] == p[20..28][6..];
    assert header[6..] == HostBytes(UdpCheck(src, dst, srcPort, dstPort, payload));
    assert header[..6] + [0, 0] == UdpHeader(srcPort, dstPort, udpLen, 0);
  }

  /** The IP header of a packet with its check taken out again. */
  lemma UnpatchedIp(src: Addr, srcPort: U16, dst: Addr, dstPort: U16, payload: seq<Byte>)
    requires |payload| <= MAX_DATA
    ensures var p, totalLen := Packet(src, srcPort, dst, dstPort, payload), IP_HEADER + UDP_HEADER + |payload|;
      && p[10..12] == HostBytes(IpCheck(src, dst, totalLen))
      && p[..10] + [0, 0] + p[12..20] == IpHeader(src, dst, totalLen, 0)
  {
    var p, totalLen := Packet(src, srcPort, dst, dstPort, payload), IP_HEADER + UDP_HEADER + |payload|;
    var header := IpHeader(src, dst, totalLen, IpCheck(src, dst, totalLen));
    assert p[..20] == header;
    assert p[..10] == p[..20][..10] && p[10..12] == p[..20][10..12] && p[12..20] == p[..20][12..20];
    assert header[10..12] == HostBytes(IpCheck(src, dst, totalLen));
    assert header[..10] + [0, 0] + header[12..20] == IpHeader(src, dst, totalLen, 0);
  }

  lemma HostBytesSum(check: U16)
    ensures HostSum(HostBytes(check)) == check
  {
    assert HostBytes(check)[2..] == [];
  }

  lemma UdpHeaderSum(srcPort: U16, dstPort: U16, udpLen: U16, check: U16)
    ensures HostSum(UdpHeader(srcPort, dstPort, udpLen, check)) == HostSum(UdpHeader(srcPort, dstPort, udpLen, 0)) + check
  {
    var front := NetBytes(srcPort) + NetBytes(dstPort) + NetBytes(udpLen);
    HostSumConcat(front, HostBytes(check));
    HostSumConcat(front, HostBytes(0));
    HostBytesSum(check);
    HostBytesSum(0);
  }

  lemma IpHeaderSum(src: Addr, dst: Addr, totalLen: U16, check: U16)
    ensures HostSum(IpHeader(src, dst, totalLen, check)) == HostSum(IpHeader(src, dst, totalLen, 0)) + check
  {
    var front: seq<Byte>, back := [0x45, 0] + NetBytes(totalLen) + [0, 0, 0, 0, 64, UDP], src + dst;
    forall c: U16 | c == check || c == 0 ensures HostSum(IpHeader(src, dst, totalLen, c)) == HostSum(front) + c + HostSum(back) {
      assert IpHeader(src, dst, totalLen, c) == front + (HostBytes(c) + back);
      HostSumConcat(front, HostBytes(c) + back);
      HostSumConcat(HostBytes(c), back);
      HostBytesSum(c);
    }
  }

  // ----- Parsing -----

  /** What the server makes of n received bytes. */
  datatype Received = Ignored | Message(kind: Byte, text: seq<Byte>, ip: Addr, port: U16)

  /** The tests and the parsing at the head of the server's receive loop. */
  function ParseRequest(buf: seq<Byte>): Received {
    if |buf| < IP_HEADER then Ignored else
    var ipLen := buf[0] % 16 * 4;
    if |buf| < ipLen + UDP_HEADER || NetWord(buf, ipLen + 2) != PORT then Ignored else
    var udpLen := NetWord(buf, ipLen + 4);
    if udpLen - UDP_HEADER < 1 || ipLen + udpLen > |buf| then Ignored
    else Message(buf[ipLen + UDP_HEADER], buf[ipLen + UDP_HEADER + 1..ipLen + udpLen], buf[12..16], NetWord(buf, ipLen))
  }

  /** The same in the client's receive loop; the payload is what it prints. */
  function ParseReply(buf: seq<Byte>, ownPort: U16, serverIp: Addr): seq<Byte> {
    if |buf| < IP_HEADER then [] else
    var ipLen := buf[0] % 16 * 4;
    if |buf| < ipLen + UDP_HEADER || NetWord(buf, ipLen + 2) != ownPort || buf[12..16] != serverIp then [] else
    var udpLen := NetWord(buf, ipLen + 4);
    if udpLen - UDP_HEADER <= 0 || ipLen + udpLen > |buf| then []
    else buf[ipLen + UDP_HEADER..ipLen + udpLen]
  }

  /** What the server reads off a packet with these fields. */
  lemma ParsesAs(p: seq<Byte>, src: Addr, srcPort: U16, kind: Byte, text: seq<Byte>)
    requires |p| == IP_HEADER + UDP_HEADER + 1 + |text| && p[0] == 0x45 && p[12..16] == src
    requires NetWord(p, 20) == srcPort && NetWord(p, 22) == PORT && NetWord(p, 24) == UDP_HEADER + 1 + |text|
    requires p[28..] == [kind] + text
    ensures ParseRequest(p) == Message(kind, text, src, srcPort)
  {
    assert p[28] == p[28..][0] && p[29..] == p[28..][1..];
  }

  /** A packet of send_payload is parsed by the server to the same type, text,
      address and port. */
  lemma RequestRoundTrip(ownIp: Addr, ownPort: U16, serverIp: Addr, kind: Byte, text: seq<Byte>)
    requires 1 + |text| <= MAX_DATA
    ensures ParseRequest(Packet(ownIp, ownPort, serverIp, PORT, [kind] + text)) == Message(kind, text, ownIp, ownPort)
  {
    PacketHeader(ownIp, ownPort, serverIp, PORT, [kind] + text);
    PacketFields(ownIp, ownPort, serverIp, PORT, [kind] + text);
    ParsesAs(Packet(ownIp, ownPort, serverIp, PORT, [kind] + text), ownIp, ownPort, kind, text);
  }

  /** A UDP datagram behind an IP header of any length, with anything behind it. */
  function Datagram(ip: seq<Byte>, srcPort: U16, dstPort: U16, check: U16, payload: seq<Byte>, rest: seq<Byte>): seq<Byte>
    requires UDP_HEADER + |payload| <= 0xFFFF
  {
    ip + (NetBytes(srcPort) + NetBytes(dstPort) + NetBytes(UDP_HEADER + |payload|) + HostBytes(check) + payload + rest)
  }

  /** The server takes a datagram, with whatever IP options, exactly if it is for
      port 7000 and holds at least the type byte, and takes from it the type, the
      text and the sender. */
  lemma RequestOfAnyHeader(ip: seq<Byte>, srcPort: U16, dstPort: U16, check: U16, payload: seq<Byte>, rest: seq<Byte>)
    requires 20 <= |ip| && |ip| == ip[0] % 16 * 4 && UDP_HEADER + |payload| <= 0xFFFF
    ensures ParseRequest(Datagram(ip, srcPort, dstPort, check, payload, rest)) ==
      if dstPort == 7000 && payload != [] then Message(payload[0], payload[1..], ip[12..16], srcPort) else Ignored
  {
    var buf, n := Datagram(ip, srcPort, dstPort, check, payload, rest), |ip|;
    DatagramFields(ip, srcPort, dstPort, check, payload, rest);
    if payload != [] {
      assert buf[n + 8] == buf[n + 8..n + 8 + |payload|][0];
      assert buf[n + 9..n + 8 + |payload|] == buf[n + 8..n + 8 + |payload|][1..];
    }
  }

  lemma DatagramFields(ip: seq<Byte>, srcPort: U16, dstPort: U16, check: U16, payload: seq<Byte>, rest: seq<Byte>)
    requires 20 <= |ip| && UDP_HEADER + |payload| <= 0xFFFF
    ensures var buf, n := Datagram(ip, srcPort, dstPort, check, payload, rest), |ip|;
      && |buf| == n + 8 + |payload| + |rest| && buf[0] == ip[0] && buf[12..16] == ip[12..16]
      && NetWord(buf, n) == srcPort && NetWord(buf, n + 2) == dstPort && NetWord(buf, n + 4) == 8 + |payload|
      && buf[n + 8..n + 8 + |payload|] == payload
  {
    var buf, n := Datagram(ip, srcPort, dstPort, check, payload, rest), |ip|;
    var header := NetBytes(srcPort) + NetBytes(dstPort) + NetBytes(UDP_HEADER + |payload|) + HostBytes(check);
    assert buf == ip + (header + payload + rest);
    assert buf[n..n + 8] == header;
    assert forall k :: 0 <= k < 8 ==> buf[n + k] == header[k];
  }

  /** A client takes it exactly if it is for its port and from its server. */
  lemma ReplyOfAnyHeader(ip: seq<Byte>, srcPort: U16, dstPort: U16, check: U16, payload: seq<Byte>, rest: seq<Byte>,
                         ownPort: U16, serverIp: Addr)
    requires 20 <= |ip| && |ip| == ip[0] % 16 * 4 && UDP_HEADER + |payload| <= 0xFFFF
    ensures ParseReply(Datagram(ip, srcPort, dstPort, check, payload, rest), ownPort, serverIp) ==
      if dstPort == ownPort && ip[12..16] == serverIp then payload else []
  {
    DatagramFields(ip, srcPort, dstPort, check, payload, rest);
  }

  /** Of a datagram that is cut short nothing is taken. */
  lemma CutRequestIsIgnored(ip: seq<Byte>, srcPort: U16, dstPort: U16, check: U16, payload: seq<Byte>, n: nat)
    requires 20 <= |ip| && |ip| == ip[0] % 16 * 4 && UDP_HEADER + |payload| <= 0xFFFF
    requires n < |ip| + UDP_HEADER + |payload|
    ensures var buf := Datagram(ip, srcPort, dstPort, check, payload, []); n < |buf| && ParseRequest(buf[..n]) == Ignored
  {
    DatagramFields(ip, srcPort, dstPort, check, payload, []);
  }

  /** A packet of the server is taken by exactly the client it is for, which
      prints the payload. */
  lemma ReplyRoundTrip(serverIp: Addr, clientIp: Addr, port: U16, payload: seq<Byte>, ownPort: U16, fromIp: Addr)
    requires 1 <= |payload| <= MAX_DATA
    ensures ParseReply(Packet(serverIp, PORT, clientIp, port, payload), ownPort, fromIp)
      == if ownPort == port && fromIp == serverIp then payload else []
  {
    PacketHeader(serverIp, PORT, clientIp, port, payload);
    PacketFields(serverIp, PORT, clientIp, port, payload);
  }

  /** send_payload, whose buffers have BUF_SIZE bytes: text is what follows the
      type byte. */
  method SendPayload(ownIp: Addr, ownPort: U16, serverIp: Addr, kind: Byte, text: seq<Byte>) returns (sent: seq<Byte>)
    requires 1 + |text| <= ROOM
    ensures ParseRequest(sent) == Message(kind, text, ownIp, ownPort)
    ensures |sent| >= 20 && sent[16..20] == serverIp
  {
    var packet := new Byte[BUF_SIZE];
    var n := BuildPacket(packet, ownIp, ownPort, serverIp, PORT, [kind] + text);
    RequestRoundTrip(ownIp, ownPort, serverIp, kind, text);
    PacketHeader(ownIp, ownPort, serverIp, PORT, [kind] + text);
    sent := packet[..n];
  }
}
