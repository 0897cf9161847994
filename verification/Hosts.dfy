/** The state of one stack as a value (globals.hpp and the ARP table), and what one received frame
  * does to it (core.hpp). A frame arrives as the whole content of the receive page, so whatever an
  * earlier frame left behind a short one is covered. */
module Hosts {
  import opened Words
  import opened ArpFifo
  import opened Tcp
  import opened Frames
  import Dns

  datatype UdpState = UdpState(localPort: u16, rx: Option<Posted>, done: bool)

  datatype DnsState = DnsState(id: u16, port: u16, ip: u32, resolved: bool)

  datatype PingState = PingState(id: u16, seqNo: u16, replied: bool)

  datatype ArpState = ArpState(cache: Queue, target: u32, targetMac: Mac, resolved: bool)

  datatype Host = Host(
    mac: Mac, ip: u32, mask: u32, router: u32, dhcpServer: u32, dnsServer: u32, lease: u32, routerMac: Mac,
    arp: ArpState, dns: DnsState, tcp: Session, udp: UdpState, ping: PingState,
    seed: u32,
    sent: seq<Bytes>)

  /** The state before any initialisation. */
  function Initial(mac: Mac, seed: u32): Host {
    var none := [0, 0, 0, 0, 0, 0];
    Host(mac, 0, 0, 0, 0, 0, 0, none, ArpState([], 0, none, false), DnsState(0, 0, 0, false),
         Session(0, 0, 0, 0, 0, Closed, None, false), UdpState(0, None, false), PingState(0, 0, false), seed, [])
  }

  // ---------- random numbers ----------

  function NextSeed(s: u32): u32 {
    (s * 0x41C6_4E6D + 0x3039) % TWO32 % 0x7FFF_FFFF
  }

  function EphemeralPort(s: u32): (p: u16)
    ensures p >= EPHEMERAL_PORT_BASE
  {
    EPHEMERAL_PORT_BASE + s % 0x4000
  }

  /** Ports are drawn from 49152 up, and every one of them can be. */
  lemma EphemeralPorts(p: u16)
    ensures p >= 49152 <==> exists s: u32 :: EphemeralPort(s) == p
  {
    if p >= 49152 {
      assert EphemeralPort(p - 49152) == p;
    }
  }

  // ---------- sending ----------

  function Transmit(h: Host, f: Bytes): Host {
    h.(sent := h.sent + [f])
  }

  /** Sends an IPv4 frame to the gateway with a fresh identification. */
  function SendIpv4(h: Host, proto: byte, daddr: u32, body: Bytes): Host
    requires FitsIp(body)
  {
    var s := NextSeed(h.seed);
    Transmit(h.(seed := s), Ipv4Frame(h.routerMac, h.mac, s % 0x1_0000, proto, h.ip, daddr, body))
  }

  function SendTcp(h: Host, flags: byte, seqNo: u32, ack: u32, data: Bytes): Host
    requires flags < 64 && FitsTcp(data)
  {
    var t := h.tcp;
    SendIpv4(h, PROTO_TCP, t.remoteIp, TcpBytes(h.ip, t.remoteIp, t.localPort, t.remotePort, flags, seqNo, ack, data))
  }

  function SendUdp(h: Host, daddr: u32, dport: u16, sport: u16, data: Bytes): Host
    requires FitsUdp(data)
  {
    SendIpv4(h, PROTO_UDP, daddr, UdpDatagram(h.ip, daddr, sport, dport, data))
  }

  function SendEcho(h: Host, daddr: u32, id: u16, seqNo: u16): Host {
    SendIpv4(h, PROTO_ICMP, daddr, IcmpMessage(ECHO_REQUEST, 0, PingRest(id, seqNo)))
  }

  function SendReplies(h: Host, replies: seq<Reply>): Host
    requires forall i :: 0 <= i < |replies| ==> replies[i].flags < 64
    decreases |replies|
  {
    if |replies| == 0 then h
    else SendReplies(SendTcp(h, replies[0].flags, replies[0].seqNo, replies[0].ack, []), replies[1..])
  }

  // ---------- received pages ----------

  type PageBytes = b: Bytes | |b| == PAGE_SIZE witness Zeros(PAGE_SIZE)

  /** Header length, never taken below 20. */
  function IpHeaderLen(b: PageBytes): (n: nat)
    ensures 20 <= n <= 60
  {
    if b[14] % 16 < 5 then 20 else b[14] % 16 * 4
  }

  function Layer4(b: PageBytes): (o: nat)
    ensures 34 <= o <= 74
  {
    14 + IpHeaderLen(b)
  }

  function TcpHeaderLen(b: PageBytes): nat {
    Be16At(b, Layer4(b) + 12) / 0x1000 * 4
  }

  /** Payload length as `handle_tcp` computes it, from the unclamped header length. */
  function TcpPayloadLen(b: PageBytes): int {
    Be16At(b, 16) - b[14] % 16 * 4 - TcpHeaderLen(b)
  }

  predicate IsIpv4(b: PageBytes, proto: byte) {
    Be16At(b, 12) == ETHERTYPE_IPV4 && b[23] == proto
  }

  /** Bytes of the page behind the TCP header. */
  function SegmentRoom(b: PageBytes): (n: nat)
    ensures n <= PAGE_SIZE - 34
  {
    PAGE_SIZE - Layer4(b) - TcpHeaderLen(b)
  }

  /** The lengths of a segment do not underflow and its payload lies inside the page. */
  predicate SegmentFits(b: PageBytes) {
    0 <= TcpPayloadLen(b) <= SegmentRoom(b)
  }

  /** The payload, as long as the lengths say modulo 2^32, which is all that the acknowledgement number
    * depends on when they underflow. What would lie behind the page counts as zeros; no handling that
    * stays inside the page looks at it. */
  function PayloadAt(b: PageBytes): (d: Bytes)
    ensures |d| == TcpPayloadLen(b) % TWO32
  {
    var n, start := TcpPayloadLen(b) % TWO32, PAGE_SIZE - SegmentRoom(b);
    if n <= SegmentRoom(b) then b[start..start + n] else b[start..] + Zeros(n - SegmentRoom(b))
  }

  function SegmentAt(b: PageBytes): Segment {
    var o := Layer4(b);
    Segment(Be16At(b, o + 2), Be16At(b, o + 12) % 64, Be32At(b, o + 4), Be32At(b, o + 8), PayloadAt(b))
  }

  predicate DatagramFits(b: PageBytes) {
    8 <= Be16At(b, Layer4(b) + 4) <= PAGE_SIZE - Layer4(b)
  }

  /** The data of the datagram in a page, as far as the page has it. A length of less than the UDP
    * header underflows to more than any page has. */
  function DatagramAt(b: PageBytes): Bytes {
    var o, len := Layer4(b), Be16At(b, Layer4(b) + 4);
    if len < 8 then b[o + 8..] else b[o + 8..Min(o + len, PAGE_SIZE)]
  }

  function IcmpLen(b: PageBytes): int {
    Be16At(b, 16) - IpHeaderLen(b)
  }

  predicate IsEchoRequest(b: PageBytes) {
    b[Layer4(b)] == ECHO_REQUEST && b[Layer4(b) + 1] == 0
  }

  /** The DNS message at `o` is a response with answers to the pending query. */
  predicate IsResponse(d: DnsState, b: PageBytes, o: nat)
    requires o <= 74
  {
    Be16At(b, o + 8) == d.id && Be16At(b, o + 10) >= 0x8000 && Be16At(b, o + 14) != 0
  }

  predicate ForDns(d: DnsState, b: PageBytes) {
    Be16At(b, Layer4(b) + 2) == d.port && d.port != 0 && Be16At(b, Layer4(b)) == PORT_DNS
  }

  predicate ForUser(u: UdpState, b: PageBytes) {
    Be16At(b, Layer4(b) + 2) == u.localPort && u.localPort != 0
  }

  /** Handling the page takes the code outside it: it copies a message whose length has underflowed, or
    * more payload than the page has behind the headers, or the walk over a DNS response leaves it.
    * (When the length of an echo request underflows by more than 34, the total length does not wrap
    * back and the request is dropped as too long.) Every other page, however malformed, is handled
    * inside it. */
  predicate Strays(h: Host, b: PageBytes) {
    var o := Layer4(b);
    || (IsIpv4(b, PROTO_ICMP) && IsEchoRequest(b) && -34 <= IcmpLen(b) < 0)
    || (IsIpv4(b, PROTO_UDP) && ForUser(h.udp, b) && h.udp.rx.Some? && !DatagramFits(b)
        && h.udp.rx.value.max > |DatagramAt(b)|)
    || (IsIpv4(b, PROTO_UDP) && ForDns(h.dns, b) && IsResponse(h.dns, b, o)
        && Dns.WalkMessage(b, o + 20, Be16At(b, o + 12), Be16At(b, o + 14)) == Dns.OutOfBounds)
    || (IsIpv4(b, PROTO_TCP) && Addressed(h.tcp, SegmentAt(b)) && !SegmentAt(b).Has(RST) && Open(h.tcp.phase)
        && h.tcp.rx.Some? && Min(|PayloadAt(b)|, h.tcp.rx.value.Room()) > SegmentRoom(b))
  }

  // ---------- handlers ----------

  function OnArp(h: Host, b: PageBytes): Host {
    var sha, spa := b[22..28], Le32At(b, 28);
    if Be16At(b, 20) == ARP_REPLY then
      h.(arp := ArpState(Learn(h.arp.cache, spa, sha), h.arp.target,
                         if spa == h.arp.target then sha else h.arp.targetMac,
                         h.arp.resolved || spa == h.arp.target),
         routerMac := if spa == h.router then sha else h.routerMac)
    else if Be16At(b, 20) == ARP_REQUEST && Le32At(b, 38) == h.ip && h.ip != 0 then
      Transmit(h, ArpFrame(sha, ARP_REPLY, h.mac, h.ip, sha, spa))
    else h
  }

  function OnIcmp(h: Host, b: PageBytes): Host {
    var o, len := Layer4(b), IcmpLen(b);
    if IsEchoRequest(b) then
      if len < 0 || 34 + len > MAX_PKT_SIZE then h
      else SendIpv4(h, PROTO_ICMP, Le32At(b, 26), EchoReplyBody(b[o..o + len]))
    else if b[o] == ECHO_REPLY && Be16At(b, o + 4) == h.ping.id && Be16At(b, o + 6) == h.ping.seqNo then
      h.(ping := h.ping.(replied := true))
    else h
  }

  /** User datagrams overwrite the posted buffer from its start, cut to its size. */
  function Datagram(u: UdpState, payload: Bytes): UdpState {
    if payload == [] || u.rx.None? then u
    else u.(rx := Some(Posted(u.rx.value.max, payload[..Min(|payload|, u.rx.value.max)])), done := true)
  }

  function DnsAnswer(d: DnsState, b: PageBytes, o: nat): DnsState
    requires o <= 74
  {
    if !IsResponse(d, b, o) then d
    else match Dns.WalkMessage(b, o + 20, Be16At(b, o + 12), Be16At(b, o + 14))
      case Address(ip) => d.(ip := ip, resolved := true)
      case _ => d
  }

  function OnUdp(h: Host, b: PageBytes): Host {
    var g := if ForUser(h.udp, b) then h.(udp := Datagram(h.udp, DatagramAt(b))) else h;
    if ForDns(h.dns, b) then g.(dns := DnsAnswer(g.dns, b, Layer4(b))) else g
  }

  function OnTcp(h: Host, b: PageBytes): Host {
    OnTcpSegment(h, SegmentAt(b))
  }

  /** The session takes the segment, then its replies go out. */
  function OnTcpSegment(h: Host, g: Segment): Host {
    var (t, replies) := OnSegment(h.tcp, g);
    SendReplies(h.(tcp := t), replies)
  }

  /** The dispatcher of `core::poll` on one received page; it is what the code does with every page
    * on which it does not stray. */
  function Deliver(h: Host, b: PageBytes): Host {
    if Be16At(b, 12) == ETHERTYPE_ARP then OnArp(h, b)
    else if IsIpv4(b, PROTO_ICMP) then OnIcmp(h, b)
    else if IsIpv4(b, PROTO_UDP) then OnUdp(h, b)
    else if IsIpv4(b, PROTO_TCP) then OnTcp(h, b)
    else h
  }

  // ---------- what a page changes ----------

  /** Sending changes the generator and the frames sent, nothing else. */
  lemma {:induction false} RepliesOnlySend(h: Host, replies: seq<Reply>)
    requires forall i :: 0 <= i < |replies| ==> replies[i].flags < 64
    ensures var r := SendReplies(h, replies); r == h.(seed := r.seed, sent := r.sent)
    decreases |replies|
  {
    if |replies| > 0 {
      RepliesOnlySend(SendTcp(h, replies[0].flags, replies[0].seqNo, replies[0].ack, []), replies[1..]);
    }
  }

  /** The binding an ARP reply announces. */
  function HeardIn(b: PageBytes): Option<Binding> {
    if Be16At(b, 12) == ETHERTYPE_ARP && Be16At(b, 20) == ARP_REPLY then Some(Binding(Le32At(b, 28), b[22..28]))
    else None
  }

  /** Each page changes at most the part of the state its protocol owns: ARP replies the cache, the
    * pending resolution and the gateway's MAC, segments the session, and so on. */
  lemma DeliverParts(h: Host, b: PageBytes)
    ensures var r := Deliver(h, b);
      && r.mac == h.mac && r.ip == h.ip && r.mask == h.mask && r.router == h.router
      && r.dhcpServer == h.dhcpServer && r.dnsServer == h.dnsServer && r.lease == h.lease
      && r.tcp == (if IsIpv4(b, PROTO_TCP) then OnSegment(h.tcp, SegmentAt(b)).0 else h.tcp)
      && r.udp == (if IsIpv4(b, PROTO_UDP) && ForUser(h.udp, b) then Datagram(h.udp, DatagramAt(b)) else h.udp)
      && r.dns == (if IsIpv4(b, PROTO_UDP) && ForDns(h.dns, b) then DnsAnswer(h.dns, b, Layer4(b)) else h.dns)
      && match HeardIn(b)
         case None => r.arp == h.arp && r.routerMac == h.routerMac
         case Some(x) =>
           && r.arp == ArpState(Learn(h.arp.cache, x.ip, x.mac), h.arp.target,
                                if x.ip == h.arp.target then x.mac else h.arp.targetMac,
                                h.arp.resolved || x.ip == h.arp.target)
           && r.routerMac == (if x.ip == h.router then x.mac else h.routerMac)
  {
    hide Learn, ArpFrame, SendReplies, SegmentAt, DatagramAt, DnsAnswer, OnSegment, Datagram;
    if IsIpv4(b, PROTO_TCP) {
      var (t, replies) := OnSegment(h.tcp, SegmentAt(b));
      RepliesSmall(h.tcp, SegmentAt(b));
      RepliesOnlySend(h.(tcp := t), replies);
    }
  }

  lemma RepliesSmall(s: Session, g: Segment)
    ensures forall i :: 0 <= i < |OnSegment(s, g).1| ==> OnSegment(s, g).1[i].flags < 64
  {
  }

  // ---------- the invariant ----------

  /** An echo request with less than an ICMP header, which is answered by a reply as short. */
  predicate IsShortEcho(b: PageBytes) {
    IsIpv4(b, PROTO_ICMP) && IsEchoRequest(b) && 0 <= IcmpLen(b) < 8
  }

  predicate AllVerify(frames: seq<Bytes>) {
    forall i :: 0 <= i < |frames| ==> Verifies(frames[i])
  }

  /** Every frame verifies, or is an ICMP frame cut short whose IPv4 header and lengths are right. */
  predicate AllFormed(frames: seq<Bytes>) {
    forall i :: 0 <= i < |frames| ==> Verifies(frames[i]) || IsRunt(frames[i])
  }

  /** The cache never contradicts the gateway's address in use. */
  predicate RouterAgrees(h: Host) {
    var m := Find(h.arp.cache, h.router);
    m == None || m == Some(h.routerMac)
  }

  /** What every operation keeps, whatever the gateway: a duplicate-free cache of at most eight
    * entries, receive buffers within their size, an ephemeral port while a session lasts, and only
    * frames with right lengths and checksums on the wire, replies cut short apart. */
  ghost predicate Steady(h: Host) {
    && Bounded(h.arp.cache)
    && Sound(h.tcp)
    && (h.udp.rx.Some? ==> |h.udp.rx.value.data| <= h.udp.rx.value.max)
    && AllFormed(h.sent)
  }

  ghost predicate Consistent(h: Host) {
    Steady(h) && RouterAgrees(h)
  }

  /** From `h` to `g` the invariants are kept: each holds afterwards if it held before; and if all
    * frames sent verified before, they all verify afterwards if and only if the step is `clean`. */
  ghost predicate Kept(h: Host, g: Host, clean: bool) {
    && (Steady(h) ==> Steady(g) && (RouterAgrees(h) ==> RouterAgrees(g)))
    && (AllVerify(g.sent) <==> AllVerify(h.sent) && clean)
  }

  lemma TransmitKeeps(h: Host, f: Bytes)
    requires Verifies(f) || IsRunt(f)
    ensures Kept(h, Transmit(h, f), Verifies(f))
  {
    hide Verifies, IsRunt;
    var all := h.sent + [f];
    assert all[|h.sent|] == f;
    assert forall i :: 0 <= i < |h.sent| ==> all[i] == h.sent[i];
  }

  lemma SendIpv4Keeps(h: Host, proto: byte, daddr: u32, body: Bytes)
    requires FitsIp(body) && BodyVerifies(proto, h.ip, daddr, body)
    ensures Kept(h, SendIpv4(h, proto, daddr, body), true)
  {
    hide Verifies, BodyVerifies, Ipv4Frame;
    var s := NextSeed(h.seed);
    Ipv4FrameVerifies(h.routerMac, h.mac, s % 0x1_0000, proto, h.ip, daddr, body);
    TransmitKeeps(h.(seed := s), Ipv4Frame(h.routerMac, h.mac, s % 0x1_0000, proto, h.ip, daddr, body));
  }

  lemma SendTcpKeeps(h: Host, flags: byte, seqNo: u32, ack: u32, data: Bytes)
    requires flags < 64 && FitsTcp(data)
    ensures Kept(h, SendTcp(h, flags, seqNo, ack, data), true)
  {
    hide Kept, BodyVerifies;
    var t := h.tcp;
    TcpVerifies(h.ip, t.remoteIp, t.localPort, t.remotePort, flags, seqNo, ack, data);
    SendIpv4Keeps(h, PROTO_TCP, t.remoteIp,
      TcpBytes(h.ip, t.remoteIp, t.localPort, t.remotePort, flags, seqNo, ack, data));
  }

  lemma SendUdpKeeps(h: Host, daddr: u32, dport: u16, sport: u16, data: Bytes)
    requires FitsUdp(data)
    ensures Kept(h, SendUdp(h, daddr, dport, sport, data), true)
  {
    hide Kept, BodyVerifies;
    UdpVerifies(h.ip, daddr, sport, dport, data);
    SendIpv4Keeps(h, PROTO_UDP, daddr, UdpDatagram(h.ip, daddr, sport, dport, data));
  }

  lemma {:induction false} SendRepliesKeeps(h: Host, replies: seq<Reply>)
    requires forall i :: 0 <= i < |replies| ==> replies[i].flags < 64
    ensures Kept(h, SendReplies(h, replies), true)
    decreases |replies|
  {
    hide Steady, RouterAgrees, AllVerify;
    if |replies| > 0 {
      SendTcpKeeps(h, replies[0].flags, replies[0].seqNo, replies[0].ack, []);
      SendRepliesKeeps(SendTcp(h, replies[0].flags, replies[0].seqNo, replies[0].ack, []), replies[1..]);
    }
  }

  lemma OnArpKeeps(h: Host, b: PageBytes)
    ensures Kept(h, OnArp(h, b), true)
  {
    hide Verifies, IsRunt, ArpFrame, Learn, Find;
    var sha, spa := b[22..28], Le32At(b, 28);
    ArpVerifies(sha, ARP_REPLY, h.mac, h.ip, sha, spa);
    TransmitKeeps(h, ArpFrame(sha, ARP_REPLY, h.mac, h.ip, sha, spa));
    if Bounded(h.arp.cache) {
      LearnKeepsBounded(h.arp.cache, spa, sha);
      FindAfterLearn(h.arp.cache, spa, sha, h.router);
    }
  }

  /** Echo requests are answered by frames that verify if and only if they hold a whole ICMP header. */
  lemma OnIcmpKeeps(h: Host, b: PageBytes)
    ensures Kept(h, OnIcmp(h, b), !(IsEchoRequest(b) && 0 <= IcmpLen(b) < 8))
  {
    hide Verifies, IsRunt, Ipv4Frame, EchoReplyBody;
    var o, len := Layer4(b), IcmpLen(b);
    if IsEchoRequest(b) && len >= 0 && 34 + len <= MAX_PKT_SIZE {
      hide Kept;
      var s, msg := NextSeed(h.seed), b[o..o + len];
      EchoReplyVerifiesIff(h.routerMac, h.mac, s % 0x1_0000, h.ip, Le32At(b, 26), msg);
      var f := Ipv4Frame(h.routerMac, h.mac, s % 0x1_0000, PROTO_ICMP, h.ip, Le32At(b, 26), EchoReplyBody(msg));
      TransmitKeeps(h.(seed := s), f);
      SeedKeeps(h, s, Transmit(h.(seed := s), f), Verifies(f));
    }
  }

  lemma SeedKeeps(h: Host, s: u32, g: Host, clean: bool)
    requires Kept(h.(seed := s), g, clean)
    ensures Kept(h, g, clean)
  {
    hide AllVerify, AllFormed;
  }

  lemma OnUdpKeeps(h: Host, b: PageBytes)
    ensures Kept(h, OnUdp(h, b), true)
  {
    hide DnsAnswer, DatagramAt, AllVerify, AllFormed;
  }

  lemma OnTcpKeeps(h: Host, b: PageBytes)
    ensures Kept(h, OnTcp(h, b), true)
  {
    hide Verifies, IsRunt, SegmentAt;
    var (t, replies) := OnSegment(h.tcp, SegmentAt(b));
    SendRepliesKeeps(h.(tcp := t), replies);
  }

  /** No page, whatever it holds, breaks the invariants; the frames sent all verify if and only if they
    * did and it is no short echo request. */
  lemma DeliverKeeps(h: Host, b: PageBytes)
    ensures Kept(h, Deliver(h, b), !IsShortEcho(b))
  {
    hide Steady, RouterAgrees, AllVerify, IsEchoRequest, IcmpLen;
    OnArpKeeps(h, b);
    OnIcmpKeeps(h, b);
    OnUdpKeeps(h, b);
    OnTcpKeeps(h, b);
  }
}
