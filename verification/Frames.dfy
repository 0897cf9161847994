/** The frames the stack puts on the wire, as byte sequences, and how a receiver reads them.
  *
  * The builders of core.hpp and protocols.hpp fill zeroed buffers field by field; each function
  * here is the content such a buffer ends up with. `Verifies` is what a receiver that checks every
  * length and checksum would accept, written from the raw bytes. */
module Frames {
  import opened Words
  import opened NetMath
  import opened DhcpOptions
  import Dns

  const ETHERTYPE_IPV4: u16 := 0x0800
  const ETHERTYPE_ARP: u16 := 0x0806
  const PROTO_ICMP: byte := 1
  const PROTO_TCP: byte := 6
  const PROTO_UDP: byte := 17
  const ARP_REQUEST: u16 := 1
  const ARP_REPLY: u16 := 2
  const ECHO_REPLY: byte := 0
  const ECHO_REQUEST: byte := 8
  const PORT_DNS: u16 := 53
  const PORT_DHCP_CLIENT: u16 := 68
  const PORT_DHCP_SERVER: u16 := 67
  const DHCP_MAGIC: u32 := 0x63825363
  const MAX_PKT_SIZE := 1500
  const PAGE_SIZE := 4096
  const BROADCAST_MAC: Mac := [0xFF, 0xFF, 0xFF, 0xFF, 0xFF, 0xFF]
  const BROADCAST_IP: u32 := 0xFFFF_FFFF

  // ---------- headers ----------

  function EthHeader(dst: Mac, src: Mac, etherType: u16): (r: Bytes)
    ensures |r| == 14
  {
    dst + src + BE16(etherType)
  }

  /** The IPv4 header up to its checksum. */
  function IpFirst(totLen: u16, id: u16, proto: byte): (r: Bytes)
    ensures |r| == 10
  {
    [0x45, 0] + BE16(totLen) + BE16(id) + [0, 0, 64, proto]
  }

  function Addresses(saddr: u32, daddr: u32): (r: Bytes)
    ensures |r| == 8
  {
    LE32(saddr) + LE32(daddr)
  }

  /** `a` and `b` with their checksum stored between them. */
  function Sealed(a: Bytes, b: Bytes): (r: Bytes)
    ensures |r| == |a| + 2 + |b|
  {
    a + LE16(Cksum(a + [0, 0] + b)) + b
  }

  function Ipv4Header(totLen: u16, id: u16, proto: byte, saddr: u32, daddr: u32): (r: Bytes)
    ensures |r| == 20
  {
    Sealed(IpFirst(totLen, id, proto), Addresses(saddr, daddr))
  }

  predicate FitsIp(body: Bytes) {
    |body| + 20 < 0x1_0000
  }

  function Ipv4Frame(dst: Mac, src: Mac, id: u16, proto: byte, saddr: u32, daddr: u32, body: Bytes): (r: Bytes)
    requires FitsIp(body)
    ensures |r| == 34 + |body|
  {
    EthHeader(dst, src, ETHERTYPE_IPV4) + Ipv4Header(20 + |body|, id, proto, saddr, daddr) + body
  }

  function ArpFrame(dst: Mac, oper: u16, sha: Mac, spa: u32, tha: Mac, tpa: u32): (r: Bytes)
    ensures |r| == 42
  {
    EthHeader(dst, sha, ETHERTYPE_ARP) + ArpPacket(oper, sha, spa, tha, tpa)
  }

  function ArpPacket(oper: u16, sha: Mac, spa: u32, tha: Mac, tpa: u32): (r: Bytes)
    ensures |r| == 28
  {
    [0, 1, 8, 0, 6, 4] + BE16(oper) + sha + LE32(spa) + tha + LE32(tpa)
  }

  // ---------- bodies ----------

  /** `rest` is everything behind the checksum: identifier, sequence number and payload. */
  function IcmpMessage(kind: byte, code: byte, rest: Bytes): (r: Bytes)
    ensures |r| == 4 + |rest|
  {
    Sealed([kind, code], rest)
  }

  /** The reply to an echo request whose ICMP part is `msg`: the message copied, type and checksum
    * rewritten, and as much of it as there was, even if that is less than a header. */
  function EchoReplyBody(msg: Bytes): (r: Bytes)
    ensures |r| == |msg|
  {
    var rest := msg[Min(4, |msg|)..];
    ([ECHO_REPLY, 0] + LE16(Cksum(([ECHO_REPLY, 0, 0, 0] + rest)[..|msg|])) + rest)[..|msg|]
  }

  function PingRest(id: u16, seqNo: u16): (r: Bytes)
    ensures |r| == 36
  {
    BE16(id) + BE16(seqNo) + PingPattern()
  }

  function PingPattern(): (r: Bytes)
    ensures |r| == 32
  {
    seq(32, i requires 0 <= i < 32 => i)
  }

  function UdpFirst(sport: u16, dport: u16, len: u16): (r: Bytes)
    ensures |r| == 6
  {
    BE16(sport) + BE16(dport) + BE16(len)
  }

  predicate FitsUdp(data: Bytes) {
    |data| + 28 < 0x1_0000
  }

  /** The UDP checksum; a computed zero is sent as 0xFFFF (RFC 768). */
  function UdpCheck(saddr: u32, daddr: u32, first: Bytes, data: Bytes): u16
    requires |first| == 6 && FitsUdp(data)
  {
    var c := Cksum(PseudoHeader(saddr, daddr, PROTO_UDP, 8 + |data|) + (first + [0, 0] + data));
    if c == 0 then 0xFFFF else c
  }

  function UdpDatagram(saddr: u32, daddr: u32, sport: u16, dport: u16, data: Bytes): (r: Bytes)
    requires FitsUdp(data)
    ensures |r| == 8 + |data|
  {
    var first := UdpFirst(sport, dport, 8 + |data|);
    first + LE16(UdpCheck(saddr, daddr, first, data)) + data
  }

  /** The TCP header up to its checksum: data offset 5, window 8192. */
  function TcpFirst(sport: u16, dport: u16, flags: byte, seqNo: u32, ack: u32): (r: Bytes)
    requires flags < 64
    ensures |r| == 16
  {
    BE16(sport) + BE16(dport) + BE32(seqNo) + BE32(ack) + BE16(0x5000 + flags) + BE16(0x2000)
  }

  predicate FitsTcp(data: Bytes) {
    |data| + 40 < 0x1_0000
  }

  function TcpCheck(saddr: u32, daddr: u32, first: Bytes, data: Bytes): u16
    requires |first| == 16 && FitsTcp(data)
  {
    Cksum(PseudoHeader(saddr, daddr, PROTO_TCP, 20 + |data|) + (first + [0, 0] + ([0, 0] + data)))
  }

  function TcpBytes(saddr: u32, daddr: u32, sport: u16, dport: u16, flags: byte, seqNo: u32, ack: u32,
    data: Bytes): (r: Bytes)
    requires flags < 64 && FitsTcp(data)
    ensures |r| == 20 + |data|
  {
    var first := TcpFirst(sport, dport, flags, seqNo, ack);
    first + LE16(TcpCheck(saddr, daddr, first, data)) + ([0, 0] + data)
  }

  /** The fixed part of a DHCP message, from `op` to the magic cookie. */
  function DhcpFixed(xid: u32, mac: Mac): (r: Bytes)
    ensures |r| == 240
  {
    [1, 1, 6, 0] + BE32(xid) + [0, 0] + BE16(0x8000) + Zeros(16) + mac + Zeros(202) + BE32(DHCP_MAGIC)
  }

  function DhcpMessage(kind: byte, xid: u32, mac: Mac, ip: u32, server: u32): (r: Bytes)
    ensures |r| == 540
  {
    DhcpFixed(xid, mac) + OptionField(kind, ip, server) + Zeros(300 - |OptionField(kind, ip, server)|)
  }

  /** A DHCP datagram carries no UDP checksum. */
  function DhcpDatagram(kind: byte, xid: u32, mac: Mac, ip: u32, server: u32): (r: Bytes)
    ensures |r| == 548
  {
    UdpFirst(PORT_DHCP_CLIENT, PORT_DHCP_SERVER, 548) + [0, 0] + DhcpMessage(kind, xid, mac, ip, server)
  }

  function DhcpFrame(kind: byte, xid: u32, mac: Mac, ip: u32, server: u32): (r: Bytes)
    ensures |r| == 582
  {
    Ipv4Frame(BROADCAST_MAC, mac, 1, PROTO_UDP, 0, BROADCAST_IP, DhcpDatagram(kind, xid, mac, ip, server))
  }

  function DnsQuery(id: u16, host: Bytes): (r: Bytes)
    ensures |r| == |host| + 18
  {
    Dns.QNameLength(host);
    BE16(id) + [1, 0, 0, 1, 0, 0, 0, 0, 0, 0] + Dns.QName(host) + BE16(Dns.TYPE_A) + BE16(Dns.CLASS_IN)
  }

  // ---------- what a checking receiver accepts ----------

  predicate BodyVerifies(proto: byte, saddr: u32, daddr: u32, body: Bytes) {
    && FitsIp(body) && |body| >= 8
    && match proto
       case 1 => Cksum(body) == 0
       case 6 => |body| >= 20 && body[12] / 16 == 5 && Cksum(PseudoHeader(saddr, daddr, proto, |body|) + body) == 0
       case 17 =>
         && Be16At(body, 4) == |body|
         && if Le16At(body, 6) == 0 then Be16At(body, 0) == PORT_DHCP_CLIENT
            else Cksum(PseudoHeader(saddr, daddr, proto, |body|) + body) == 0
       case _ => false
  }

  /** An ARP packet for IPv4 over Ethernet (RFC 826): the types and lengths of both protocols, a known
    * operation, and a sender that is the one in the Ethernet header. */
  predicate ArpPacketVerifies(f: Bytes)
    requires |f| >= 34
  {
    && |f| == 42
    && Be16At(f, 14) == 1 && Be16At(f, 16) == ETHERTYPE_IPV4 && f[18] == 6 && f[19] == 4
    && (Be16At(f, 20) == ARP_REQUEST || Be16At(f, 20) == ARP_REPLY)
    && f[22..28] == f[6..12]
  }

  /** Frame length, inner lengths and every checksum agree. */
  predicate Verifies(f: Bytes) {
    && |f| >= 34
    && if Be16At(f, 12) == ETHERTYPE_ARP then ArpPacketVerifies(f)
       else
         && Be16At(f, 12) == ETHERTYPE_IPV4 && f[14] == 0x45
         && |f| == 14 + Be16At(f, 16)
         && Cksum(f[14..34]) == 0
         && BodyVerifies(f[23], Le32At(f, 26), Le32At(f, 30), f[34..])
  }

  /** An ICMP frame cut short: right in its IPv4 header and lengths, but with less than an ICMP header. */
  predicate IsRunt(f: Bytes) {
    && 34 <= |f| < 42
    && Be16At(f, 12) == ETHERTYPE_IPV4 && f[14] == 0x45 && f[23] == PROTO_ICMP
    && |f| == 14 + Be16At(f, 16)
    && Cksum(f[14..34]) == 0
  }

  // ---------- reading a frame ----------

  /** The fields of an IPv4 frame found at the start of a buffer. */
  lemma Ipv4Fields(b: Bytes, dst: Mac, src: Mac, id: u16, proto: byte, saddr: u32, daddr: u32, body: Bytes)
    requires FitsIp(body) && At(b, 0, Ipv4Frame(dst, src, id, proto, saddr, daddr, body))
    ensures |b| >= 34 + |body|
    ensures Be16At(b, 12) == ETHERTYPE_IPV4 && b[14] == 0x45 && Be16At(b, 16) == 20 + |body| && b[23] == proto
    ensures Le32At(b, 26) == saddr && Le32At(b, 30) == daddr
    ensures At(b, 14, Ipv4Header(20 + |body|, id, proto, saddr, daddr)) && At(b, 34, body)
  {
    var eth, head := EthHeader(dst, src, ETHERTYPE_IPV4), Ipv4Header(20 + |body|, id, proto, saddr, daddr);
    AtSplit(b, 0, eth + head, body);
    AtSplit(b, 0, eth, head);
    AtWord(b, 0, eth, 12);
    AtWord(b, 14, head, 0);
    AtWord(b, 14, head, 2);
    AtWord(b, 14, head, 9);
    AtWord(b, 14, head, 12);
    AtWord(b, 14, head, 16);
    HeaderFields(20 + |body|, id, proto, saddr, daddr);
  }

  lemma HeaderFields(totLen: u16, id: u16, proto: byte, saddr: u32, daddr: u32)
    ensures var h := Ipv4Header(totLen, id, proto, saddr, daddr);
      h[0] == 0x45 && Be16At(h, 2) == totLen && h[9] == proto && Le32At(h, 12) == saddr && Le32At(h, 16) == daddr
  {
    SwapWord(totLen);
    SwapDouble(saddr);
    SwapDouble(daddr);
  }

  // ---------- every frame verifies ----------

  lemma Ipv4FrameVerifies(dst: Mac, src: Mac, id: u16, proto: byte, saddr: u32, daddr: u32, body: Bytes)
    requires FitsIp(body) && BodyVerifies(proto, saddr, daddr, body)
    ensures Verifies(Ipv4Frame(dst, src, id, proto, saddr, daddr, body))
  {
    hide BodyVerifies, Cksum;
    var f := Ipv4Frame(dst, src, id, proto, saddr, daddr, body);
    Ipv4Fields(f, dst, src, id, proto, saddr, daddr, body);
    var head := Ipv4Header(20 + |body|, id, proto, saddr, daddr);
    assert f[14..34] == head && f[34..] == body;
    StoredChecksumVerifies(IpFirst(20 + |body|, id, proto), Addresses(saddr, daddr));
  }

  lemma IcmpVerifies(kind: byte, code: byte, rest: Bytes, saddr: u32, daddr: u32)
    requires 4 <= |rest| && FitsIp(IcmpMessage(kind, code, rest))
    ensures BodyVerifies(PROTO_ICMP, saddr, daddr, IcmpMessage(kind, code, rest))
  {
    StoredChecksumVerifies([kind, code], rest);
  }

  /** A reply with at least the four bytes up to the checksum is a sealed ICMP message. */
  lemma FullEchoReply(msg: Bytes)
    requires |msg| >= 4
    ensures EchoReplyBody(msg) == IcmpMessage(ECHO_REPLY, 0, msg[4..])
  {
    hide Cksum;
    var rest := msg[4..];
    var cleared := [ECHO_REPLY, 0, 0, 0] + rest;
    assert cleared[..|msg|] == [ECHO_REPLY, 0] + [0, 0] + rest;
    var reply := [ECHO_REPLY, 0] + LE16(Cksum(cleared[..|msg|])) + rest;
    assert reply[..|msg|] == reply;
  }

  /** The checksum of a shorter one is cut off or wrong: it verifies if and only if the request had at
    * least four bytes. */
  lemma EchoReplyChecksum(msg: Bytes)
    ensures Cksum(EchoReplyBody(msg)) == 0 <==> |msg| >= 4
  {
    if |msg| >= 4 {
      FullEchoReply(msg);
      hide Cksum;
      StoredChecksumVerifies([ECHO_REPLY, 0], msg[4..]);
    } else {
      ShortEchoReply(msg);
    }
  }

  lemma ShortEchoReply(msg: Bytes)
    requires |msg| < 4
    ensures EchoReplyBody(msg) == [0, 0, 0xFF][..|msg|] && Cksum(EchoReplyBody(msg)) != 0
  {
    var cleared := ([ECHO_REPLY, 0, 0, 0] + [])[..|msg|];
    assert cleared == Zeros(|msg|);
    ZeroSum(|msg|);
    assert msg[Min(4, |msg|)..] == [];
    assert LE16(0xFFFF) == [0xFF, 0xFF];
    assert EchoReplyBody(msg) == ([ECHO_REPLY, 0] + [0xFF, 0xFF] + [])[..|msg|];
    assert EchoReplyBody(msg) == [0, 0, 0xFF][..|msg|];
    if |msg| == 3 {
      var body: Bytes := [0, 0, 0xFF];
      assert body[..3] == body && body[2..] == [0xFF];
      assert WordSum(body[2..]) == 0xFF;
      assert WordSum(body) == 0xFF;
    } else {
      assert [0, 0, 0xFF][..|msg|] == Zeros(|msg|);
    }
  }

  lemma {:induction false} ZeroSum(n: nat)
    ensures WordSum(Zeros(n)) == 0
  {
    if n >= 2 {
      assert Zeros(n)[2..] == Zeros(n - 2);
      ZeroSum(n - 2);
    }
  }

  /** A reply is accepted by a checking receiver if and only if the request held a whole ICMP header;
    * otherwise it is cut short like the request. */
  lemma EchoReplyVerifiesIff(dst: Mac, src: Mac, id: u16, saddr: u32, daddr: u32, msg: Bytes)
    requires FitsIp(msg)
    ensures var f := Ipv4Frame(dst, src, id, PROTO_ICMP, saddr, daddr, EchoReplyBody(msg));
      (Verifies(f) <==> |msg| >= 8) && (|msg| < 8 ==> IsRunt(f))
  {
    hide Cksum, EchoReplyBody;
    var body := EchoReplyBody(msg);
    if |msg| >= 8 {
      FullEchoReply(msg);
      IcmpVerifies(ECHO_REPLY, 0, msg[4..], saddr, daddr);
      Ipv4FrameVerifies(dst, src, id, PROTO_ICMP, saddr, daddr, body);
    } else {
      var f := Ipv4Frame(dst, src, id, PROTO_ICMP, saddr, daddr, body);
      Ipv4Fields(f, dst, src, id, PROTO_ICMP, saddr, daddr, body);
      var head := Ipv4Header(20 + |body|, id, PROTO_ICMP, saddr, daddr);
      assert f[14..34] == head;
      StoredChecksumVerifies(IpFirst(20 + |body|, id, PROTO_ICMP), Addresses(saddr, daddr));
    }
  }

  lemma PseudoSplit(ph: Bytes, first: Bytes, field: Bytes, rest: Bytes)
    ensures ph + (first + field + rest) == ph + first + field + rest
  {
  }

  lemma UdpVerifies(saddr: u32, daddr: u32, sport: u16, dport: u16, data: Bytes)
    requires FitsUdp(data)
    ensures var body := UdpDatagram(saddr, daddr, sport, dport, data);
      BodyVerifies(PROTO_UDP, saddr, daddr, body) && Le16At(body, 6) != 0
  {
    hide Cksum, PseudoHeader;
    var len: u16 := 8 + |data|;
    var first, ph := UdpFirst(sport, dport, len), PseudoHeader(saddr, daddr, PROTO_UDP, len);
    var check := UdpCheck(saddr, daddr, first, data);
    StoredChecksumVerifies(ph + first, data);
    PseudoSplit(ph, first, [0, 0], data);
    PseudoSplit(ph, first, LE16(check), data);
    SwapWord(len);
    SwapWord(check);
    var body := UdpDatagram(saddr, daddr, sport, dport, data);
    assert body == first + LE16(check) + data;
    assert Be16At(body, 4) == Be16At(BE16(len), 0) && Le16At(body, 6) == Le16At(LE16(check), 0);
  }

  lemma TcpVerifies(saddr: u32, daddr: u32, sport: u16, dport: u16, flags: byte, seqNo: u32, ack: u32,
    data: Bytes)
    requires flags < 64 && FitsTcp(data)
    ensures BodyVerifies(PROTO_TCP, saddr, daddr, TcpBytes(saddr, daddr, sport, dport, flags, seqNo, ack, data))
  {
    var first, ph := TcpFirst(sport, dport, flags, seqNo, ack), PseudoHeader(saddr, daddr, PROTO_TCP, 20 + |data|);
    StoredChecksumVerifies(ph + first, [0, 0] + data);
    PseudoSplit(ph, first, [0, 0], [0, 0] + data);
    PseudoSplit(ph, first, LE16(TcpCheck(saddr, daddr, first, data)), [0, 0] + data);
    assert first[12] == 0x50 + flags / 0x100;
  }

  lemma DhcpVerifies(kind: byte, xid: u32, mac: Mac, ip: u32, server: u32)
    ensures Verifies(DhcpFrame(kind, xid, mac, ip, server))
  {
    var body := DhcpDatagram(kind, xid, mac, ip, server);
    assert Be16At(body, 4) == 548 && Le16At(body, 6) == 0 && Be16At(body, 0) == PORT_DHCP_CLIENT;
    Ipv4FrameVerifies(BROADCAST_MAC, mac, 1, PROTO_UDP, 0, BROADCAST_IP, body);
  }

  lemma ArpVerifies(dst: Mac, oper: u16, sha: Mac, spa: u32, tha: Mac, tpa: u32)
    requires oper == ARP_REQUEST || oper == ARP_REPLY
    ensures Verifies(ArpFrame(dst, oper, sha, spa, tha, tpa))
  {
    var f, eth, packet := ArpFrame(dst, oper, sha, spa, tha, tpa), EthHeader(dst, sha, ETHERTYPE_ARP),
                          ArpPacket(oper, sha, spa, tha, tpa);
    assert f[6..12] == eth[6..12] == sha;
    assert f[22..28] == packet[8..14] == sha;
    assert Be16At(f, 12) == Be16At(eth, 12) && Be16At(f, 20) == Be16At(packet, 6) == oper;
  }
}
