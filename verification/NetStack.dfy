/** The stack itself: the global state of globals.hpp as the fields of one object, the handlers of
  * core.hpp and the calls of api.hpp as methods that update it in place. Each method is tied to the
  * function that specifies it; what those functions guarantee is proved in the other modules. */
module NetStack {
  import opened Words
  import opened ArpFifo
  import opened ArpCache
  import opened DhcpOptions
  import opened Tcp
  import opened Frames
  import opened Hosts
  import opened Runs
  import opened Builders
  import Dns
  import Client = DhcpClient

  /** One more than the largest value of the native word, in which lengths are computed. */
  const TWO64 := 0x1_0000_0000_0000_0000

  datatype Status = Success | Waiting | Failed

  /** A segment is sent from the ports and addresses of the session only, so other session fields may
    * be updated before or after. */
  lemma SendKeepsSession(h: Host, t: Session, u: Session, flags: byte, seqNo: u32, ack: u32)
    requires flags < 64
    requires t.remoteIp == u.remoteIp && t.localPort == u.localPort && t.remotePort == u.remotePort
    ensures SendTcp(h.(tcp := t), flags, seqNo, ack, []) == SendTcp(h.(tcp := u), flags, seqNo, ack, []).(tcp := t)
    ensures SendTcp(h.(tcp := u), flags, seqNo, ack, []).tcp == u
  {
  }

  lemma StoreKeepsPorts(s: Session, payload: Bytes)
    ensures var t := Store(s, payload);
      && t.remoteIp == s.remoteIp && t.localPort == s.localPort
      && t.remotePort == s.remotePort && t.phase == s.phase
    ensures payload == [] ==> Store(s, payload) == s
  {
  }

  /** Segments that change nothing but the phase send nothing. */
  lemma QuietSegment(h: Host, g: Segment)
    ensures !Addressed(h.tcp, g) ==> OnTcpSegment(h, g) == h
    ensures Addressed(h.tcp, g) && g.Has(RST) ==> OnTcpSegment(h, g) == h.(tcp := h.tcp.(phase := Closed, done := true))
    ensures Addressed(h.tcp, g) && !g.Has(RST) && h.tcp.phase != SynSent && !Open(h.tcp.phase) ==>
      OnTcpSegment(h, g) == h
  {
  }

  /** Only an open session looks at the payload. */
  lemma PayloadIrrelevant(h: Host, g: Segment, payload: Bytes)
    ensures !(Addressed(h.tcp, g) && !g.Has(RST) && Open(h.tcp.phase)) ==>
      OnTcpSegment(h, g.(payload := payload)) == OnTcpSegment(h, g)
  {
    hide SendReplies, Store;
  }

  /** What a page with a segment does, case by case, told from its header `g`; only an open session
    * looks at the payload, of which the page has what is copied where the code does not stray. */
  lemma TcpCases(h: Host, b: PageBytes, g: Segment)
    requires !Strays(h, b) && IsIpv4(b, PROTO_TCP) && SegmentAt(b) == g.(payload := PayloadAt(b))
    ensures var ours := g.dstPort == h.tcp.localPort && h.tcp.localPort != 0;
      && (!ours ==> OnTcp(h, b) == h)
      && (ours && g.Has(RST) ==> OnTcp(h, b) == h.(tcp := h.tcp.(phase := Closed, done := true)))
      && (ours && !g.Has(RST) ==>
            && (h.tcp.phase == SynSent ==> OnTcp(h, b) == OnTcpSegment(h, g))
            && (Open(h.tcp.phase) ==>
                  && OnTcp(h, b) == OnTcpSegment(h, SegmentAt(b))
                  && (h.tcp.rx.Some? ==> Min(|PayloadAt(b)|, h.tcp.rx.value.Room()) <= SegmentRoom(b)))
            && (h.tcp.phase != SynSent && !Open(h.tcp.phase) ==> OnTcp(h, b) == h))
  {
    hide SegmentAt, PayloadAt, IsIpv4, OnTcpSegment;
    QuietSegment(h, SegmentAt(b));
    PayloadIrrelevant(h, g, PayloadAt(b));
  }

  lemma SendLeavesSession(h: Host, flags: byte, seqNo: u32, ack: u32, data: Bytes)
    requires flags < 64 && FitsTcp(data)
    ensures SendTcp(h, flags, seqNo, ack, data).tcp == h.tcp
  {
  }

  /** A length taken modulo 2^64 is the same modulo 2^32, and larger only when it has wrapped. */
  lemma WrappedLength(x: int)
    requires -0x1_0000 < x < 0x1_0000
    ensures x % TWO64 % TWO32 == x % TWO32 && (x % TWO64 > 0 <==> x % TWO32 != 0)
    ensures x >= 0 ==> x % TWO64 == x % TWO32 == x
    ensures x < 0 ==> x % TWO64 > x % TWO32 > PAGE_SIZE
  {
    if x < 0 {
      assert x % TWO64 == x + TWO64 && x % TWO32 == x + TWO32;
      assert (x + TWO64) % TWO32 == (x + TWO32 + 0xFFFF_FFFF * TWO32) % TWO32 == x + TWO32;
    }
  }

  /** The page holds the payload from `start` on, as far as it reaches; `payloadLen` is its length as the
    * handler computes it, which has wrapped when the lengths underflow. */
  ghost predicate Backs(b: Bytes, start: nat, payloadLen: nat, payload: Bytes) {
    && start <= |b|
    && payloadLen % TWO32 == |payload| && (payloadLen > 0 <==> payload != [])
    && (payloadLen == |payload| || payloadLen > |payload| > |b|)
    && var n := Min(|payload|, |b| - start); payload[..n] == b[start..start + n]
  }

  lemma PayloadBacked(b: PageBytes)
    ensures Backs(b, PAGE_SIZE - SegmentRoom(b), TcpPayloadLen(b) % TWO64, PayloadAt(b))
  {
    hide SegmentRoom, TcpPayloadLen;
    LengthRange(b);
    WrappedLength(TcpPayloadLen(b));
    PagePrefix(b);
  }

  lemma LengthRange(b: PageBytes)
    ensures -0x1_0000 < TcpPayloadLen(b) < 0x1_0000
  {
  }

  lemma PagePrefix(b: PageBytes)
    ensures var start, n := PAGE_SIZE - SegmentRoom(b), Min(|PayloadAt(b)|, SegmentRoom(b));
      PayloadAt(b)[..n] == b[start..start + n]
  {
    hide SegmentRoom, TcpPayloadLen, Zeros;
  }

  lemma PrefixBacked(b: Bytes, start: nat, payload: Bytes, n: nat)
    requires start + n <= |b| && n <= |payload|
    requires var k := Min(|payload|, |b| - start); payload[..k] == b[start..start + k]
    ensures b[start..start + n] == payload[..n]
  {
    var k := Min(|payload|, |b| - start);
    assert payload[..n] == payload[..k][..n] == b[start..start + k][..n];
  }

  /** The length of an echo request taken modulo 2^64, and the total length computed from it. */
  lemma EchoTotal(h: Host, b: PageBytes)
    requires !Strays(h, b) && IsIpv4(b, PROTO_ICMP) && IsEchoRequest(b)
    ensures var x := IcmpLen(b);
      && ((34 + x % TWO64) % TWO64 > MAX_PKT_SIZE <==> (x < 0 || 34 + x > MAX_PKT_SIZE))
      && (x >= 0 ==> x % TWO64 == x)
  {
    var x := IcmpLen(b);
    if x < 0 {
      assert x % TWO64 == x + TWO64;
    }
  }

  lemma EchoCases(h: Host, b: PageBytes)
    requires IsEchoRequest(b)
    ensures var x := IcmpLen(b);
      && (x < 0 || 34 + x > MAX_PKT_SIZE ==> OnIcmp(h, b) == h)
      && (x >= 0 && 34 + x <= MAX_PKT_SIZE ==>
            OnIcmp(h, b) == SendIpv4(h, PROTO_ICMP, Le32At(b, 26), EchoReplyBody(b[Layer4(b)..Layer4(b) + x])))
  {
    hide SendIpv4, EchoReplyBody;
  }

  /** What is copied of a datagram when its length less the header is taken modulo 2^64. */
  lemma DatagramCopy(b: PageBytes, max: nat)
    requires !DatagramFits(b) ==> max <= |DatagramAt(b)|
    ensures var o, n, data := Layer4(b), (Be16At(b, Layer4(b) + 4) - 8) % TWO64, DatagramAt(b);
      && (n > 0 <==> data != [])
      && var copied := if n > max then max else n;
         copied == Min(|data|, max) && o + 8 + copied <= PAGE_SIZE && b[o + 8..o + 8 + copied] == data[..copied]
  {
    hide Be16At, Layer4;
    var x := Be16At(b, Layer4(b) + 4) - 8;
    if x < 0 {
      assert x % TWO64 == x + TWO64;
    } else {
      assert x % TWO64 == x;
    }
  }

  lemma SameFlags(g: Segment, payload: Bytes)
    ensures var full := g.(payload := payload); full.Has(RST) == g.Has(RST) && full.Has(FIN) == g.Has(FIN)
  {
  }

  /** Answers depend on the length taken only modulo 2^32, and not on the payload. */
  lemma AnswerSame(h: Host, g: Segment, full: Segment, taken: nat, flags: byte, next: Phase)
    requires full == g.(payload := full.payload) && taken % TWO32 == |full.payload| && flags < 64
    ensures Answered(h, g, taken, flags, next) == Answered(h, full, |full.payload|, flags, next)
    ensures Answered(h, g, taken + 1, flags, next) == Answered(h, full, |full.payload| + 1, flags, next)
  {
    hide SendTcp;
    assert (g.seqNo + taken) % TWO32 == (g.seqNo + |full.payload|) % TWO32;
    assert (g.seqNo + (taken + 1)) % TWO32 == (g.seqNo + (|full.payload| + 1)) % TWO32;
  }

  lemma NoDatagram(u: UdpState, payload: Bytes)
    ensures u.rx.None? || payload == [] ==> Datagram(u, payload) == u
  {
  }

  lemma FewReplies(h: Host, a: Reply, b: Reply)
    requires a.flags < 64 && b.flags < 64
    ensures SendReplies(h, []) == h
    ensures SendReplies(h, [a]) == SendTcp(h, a.flags, a.seqNo, a.ack, [])
    ensures SendReplies(h, [a, b]) == SendTcp(SendTcp(h, a.flags, a.seqNo, a.ack, []), b.flags, b.seqNo, b.ack, [])
  {
    hide SendTcp;
    assert [a][1..] == [] && [a, b][1..] == [b] && [b][1..] == [];
    var g := SendTcp(h, a.flags, a.seqNo, a.ack, []);
    assert SendReplies(g, []) == g;
    assert SendReplies(g, [b]) == SendReplies(SendTcp(g, b.flags, b.seqNo, b.ack, []), []);
  }

  /** The session takes the segment's numbers and moves to `phase`, and the answer goes out. */
  function Answered(h: Host, g: Segment, taken: nat, flags: byte, phase: Phase): Host
    requires flags < 64
  {
    var u := Acknowledge(h.tcp, g, taken).(phase := phase);
    SendTcp(h.(tcp := u), flags, u.seqNo, u.ack, [])
  }

  lemma SynAckSteps(h: Host, g: Segment)
    requires Addressed(h.tcp, g) && !g.Has(RST) && h.tcp.phase == SynSent
    ensures OnTcpSegment(h, g) == if g.Has(SYN) && g.Has(ACK) then Answered(h, g, 1, ACK, Established) else h
  {
    hide SendTcp, SendReplies;
    var t := Acknowledge(h.tcp, g, 1).(phase := Established);
    FewReplies(h.(tcp := t), Reply(ACK, t.seqNo, t.ack), Reply(ACK, t.seqNo, t.ack));
    FewReplies(h, Reply(ACK, t.seqNo, t.ack), Reply(ACK, t.seqNo, t.ack));
  }

  /** Handling an open segment step by step, answering as it goes, ends where the specification ends. */
  lemma OpenSteps(h: Host, g: Segment)
    requires Addressed(h.tcp, g) && !g.Has(RST) && Open(h.tcp.phase)
    ensures var stored := h.(tcp := Store(h.tcp, g.payload));
      var mid := if g.payload == [] then stored else Answered(stored, g, |g.payload|, ACK, h.tcp.phase);
      OnTcpSegment(h, g) == if g.Has(FIN) then Answered(mid, g, |g.payload| + 1, FIN + ACK, ClosedDone) else mid
  {
    StoreKeepsPorts(h.tcp, g.payload);
    hide SendTcp, SendReplies, Store;
    var t := Store(h.tcp, g.payload);
    var u := Acknowledge(t, g, |g.payload|);
    var v := Acknowledge(t, g, |g.payload| + 1).(phase := ClosedDone);
    var first, second := Reply(ACK, u.seqNo, u.ack), Reply(FIN + ACK, v.seqNo, v.ack);
    FewReplies(h.(tcp := t), first, second);
    FewReplies(h.(tcp := u), first, second);
    FewReplies(h.(tcp := v), first, second);
    FewReplies(h.(tcp := v), second, second);
    SendKeepsSession(h, v, u, ACK, u.seqNo, u.ack);
    assert Acknowledge(u, g, |g.payload| + 1).(phase := ClosedDone) == v;
    assert [first] + [second] == [first, second] && [] + [second] == [second];
  }

  class Stack {
    // the network card: what it will deliver, the receive page, and the frames handed to it
    var inbox: seq<Rx>
    const rxPkt: array<byte>
    var sent: seq<Bytes>

    // network identity
    const myMac: Mac
    var myIp: u32
    var subnetMask: u32
    var routerIp: u32
    var dhcpServerIp: u32
    var dnsServerIp: u32
    var dhcpLeaseTime: u32
    var routerMac: Mac
    var rngSeed: u32

    // ARP resolution
    const cache: Cache
    var arpTargetIp: u32
    var arpTargetMac: Mac
    var arpResolved: bool

    // DNS resolution
    var dnsCurrentId: u16
    var dnsLocalPort: u16
    var dnsResolvedIp: u32
    var dnsResolved: bool

    // TCP session
    var tcpLocalPort: u16
    var tcpRemotePort: u16
    var tcpRemoteIp: u32
    var tcpSeq: u32
    var tcpAck: u32
    var tcpState: Phase
    var tcpRxBuffer: array?<byte>
    var tcpRxMaxLen: nat
    var tcpRxCurrentLen: nat
    var tcpRxDone: bool

    // UDP receive
    var udpLocalPort: u16
    var udpRxBuffer: array?<byte>
    var udpRxMaxLen: nat
    var udpRxCurrentLen: nat
    var udpRxDone: bool

    // ping
    var pingId: u16
    var pingSeq: u16
    var pingReplyReceived: bool

    ghost predicate Valid()
      reads cache, cache.table, `tcpRxBuffer, `tcpRxMaxLen, `tcpRxCurrentLen
      reads `udpRxBuffer, `udpRxMaxLen, `udpRxCurrentLen
    {
      && rxPkt.Length == PAGE_SIZE
      && cache.Valid()
      && tcpRxCurrentLen <= tcpRxMaxLen
      && udpRxCurrentLen <= udpRxMaxLen
      && (tcpRxBuffer != null ==> tcpRxBuffer != rxPkt && tcpRxMaxLen <= tcpRxBuffer.Length)
      && (udpRxBuffer != null ==> udpRxBuffer != rxPkt && udpRxMaxLen <= udpRxBuffer.Length)
      && (tcpRxBuffer != null ==> tcpRxBuffer != udpRxBuffer)
    }

    // The abstract value of the stack, part by part.

    ghost function ArpView(): ArpState
      reads cache, `arpTargetIp, `arpTargetMac, `arpResolved
    {
      ArpState(cache.content, arpTargetIp, arpTargetMac, arpResolved)
    }

    ghost function DnsView(): DnsState
      reads `dnsCurrentId, `dnsLocalPort, `dnsResolvedIp, `dnsResolved
    {
      DnsState(dnsCurrentId, dnsLocalPort, dnsResolvedIp, dnsResolved)
    }

    ghost function TcpRxView(): Option<Posted>
      reads `tcpRxBuffer, `tcpRxMaxLen, `tcpRxCurrentLen, tcpRxBuffer
    {
      if tcpRxBuffer == null || tcpRxCurrentLen > tcpRxBuffer.Length then None
      else Some(Posted(tcpRxMaxLen, tcpRxBuffer[..tcpRxCurrentLen]))
    }

    ghost function TcpView(): Session
      reads `tcpLocalPort, `tcpRemotePort, `tcpRemoteIp, `tcpSeq, `tcpAck, `tcpState, `tcpRxDone
      reads `tcpRxBuffer, `tcpRxMaxLen, `tcpRxCurrentLen, tcpRxBuffer
    {
      Session(tcpLocalPort, tcpRemotePort, tcpRemoteIp, tcpSeq, tcpAck, tcpState, TcpRxView(), tcpRxDone)
    }

    ghost function UdpView(): UdpState
      reads `udpLocalPort, `udpRxDone, `udpRxBuffer, `udpRxMaxLen, `udpRxCurrentLen, udpRxBuffer
    {
      UdpState(udpLocalPort,
               if udpRxBuffer == null || udpRxCurrentLen > udpRxBuffer.Length then None
               else Some(Posted(udpRxMaxLen, udpRxBuffer[..udpRxCurrentLen])), udpRxDone)
    }

    ghost function PingView(): PingState
      reads `pingId, `pingSeq, `pingReplyReceived
    {
      PingState(pingId, pingSeq, pingReplyReceived)
    }

    ghost function HostView(): Host
      reads this, cache, tcpRxBuffer, udpRxBuffer
    {
      Host(myMac, myIp, subnetMask, routerIp, dhcpServerIp, dnsServerIp, dhcpLeaseTime, routerMac,
           ArpView(), DnsView(), TcpView(), UdpView(), PingView(), rngSeed, sent)
    }

    /** The posted buffers and their sizes are left alone. */
    twostate predicate SameBuffers()
      reads this
    {
      && tcpRxBuffer == old(tcpRxBuffer) && tcpRxMaxLen == old(tcpRxMaxLen)
      && udpRxBuffer == old(udpRxBuffer) && udpRxMaxLen == old(udpRxMaxLen)
    }

    ghost function View(): World
      reads this, cache, tcpRxBuffer, udpRxBuffer
    {
      World(HostView(), inbox, false)
    }

    constructor (mac: Mac, seed: u32, card: seq<Rx>)
      ensures Valid() && View() == World(Initial(mac, seed), card, false)
      ensures fresh(rxPkt) && fresh(cache) && fresh(cache.table) && tcpRxBuffer == null && udpRxBuffer == null
    {
      inbox, sent := card, [];
      rxPkt := new byte[PAGE_SIZE](_ => 0);
      cache := new Cache();
      myMac, rngSeed := mac, seed;
      myIp, subnetMask, routerIp, dhcpServerIp, dnsServerIp, dhcpLeaseTime := 0, 0, 0, 0, 0, 0;
      routerMac := [0, 0, 0, 0, 0, 0];
      arpTargetIp, arpTargetMac, arpResolved := 0, [0, 0, 0, 0, 0, 0], false;
      dnsCurrentId, dnsLocalPort, dnsResolvedIp, dnsResolved := 0, 0, 0, false;
      tcpLocalPort, tcpRemotePort, tcpRemoteIp, tcpSeq, tcpAck, tcpState := 0, 0, 0, 0, 0, Closed;
      tcpRxBuffer, tcpRxMaxLen, tcpRxCurrentLen, tcpRxDone := null, 0, 0, false;
      udpLocalPort, udpRxBuffer, udpRxMaxLen, udpRxCurrentLen, udpRxDone := 0, null, 0, 0, false;
      pingId, pingSeq, pingReplyReceived := 0, 0, false;
    }

    /** The scalar fields, as parts of the abstract value. */
    lemma Fields()
      ensures var h := HostView();
        && h.mac == myMac && h.ip == myIp && h.router == routerIp && h.routerMac == routerMac
        && h.dhcpServer == dhcpServerIp && h.dnsServer == dnsServerIp
        && h.mask == subnetMask && h.lease == dhcpLeaseTime
        && h.tcp.localPort == tcpLocalPort && h.tcp.remotePort == tcpRemotePort && h.tcp.remoteIp == tcpRemoteIp
        && h.tcp.seqNo == tcpSeq && h.tcp.ack == tcpAck && h.tcp.phase == tcpState && h.tcp.done == tcpRxDone
        && h.udp.localPort == udpLocalPort && h.udp.done == udpRxDone
        && h.dns.id == dnsCurrentId && h.dns.port == dnsLocalPort
        && h.dns.resolved == dnsResolved && h.dns.ip == dnsResolvedIp
        && h.arp.target == arpTargetIp && h.arp.resolved == arpResolved
        && h.ping.id == pingId && h.ping.seqNo == pingSeq && h.ping.replied == pingReplyReceived
    {
    }

    // ---------- senders (core.hpp) ----------

    /** `core::send_raw`: the frame is handed to the card. */
    method SendRaw(frame: Bytes)
      requires Valid()
      modifies `sent
      ensures Valid() && HostView() == Transmit(old(HostView()), frame)
    {
      hide Valid, ArpView, DnsView, TcpView, UdpView, PingView;
      sent := sent + [frame];
    }

    /** `rng::get_u32`. */
    method NextRandom() returns (v: u32)
      requires Valid()
      modifies `rngSeed
      ensures Valid() && v == NextSeed(old(HostView()).seed) && HostView() == old(HostView()).(seed := v)
    {
      hide NextSeed, Valid, ArpView, DnsView, TcpView, UdpView, PingView;
      rngSeed := NextSeed(rngSeed);
      v := rngSeed;
    }

    /** `rng::init`; the clock's reading is a parameter. */
    method SeedGenerator(seed: u32)
      requires Valid()
      modifies `rngSeed
      ensures Valid() && HostView() == old(HostView()).(seed := seed)
    {
      hide Valid, ArpView, DnsView, TcpView, UdpView, PingView;
      rngSeed := seed;
    }

    method SendTcpInternal(flags: byte, seqNo: u32, ack: u32, data: Bytes)
      requires Valid() && flags < 64 && |data| <= MAX_TCP_DATA
      modifies `sent, `rngSeed
      ensures Valid() && HostView() == SendTcp(old(HostView()), flags, seqNo, ack, data)
    {
      hide Valid, HostView, Ipv4Frame, TcpBytes, NextSeed;
      Fields();
      var id := NextRandom();
      var pkt := BuildTcp(routerMac, myMac, id % 0x1_0000, myIp, tcpRemoteIp, tcpLocalPort, tcpRemotePort, flags,
                          seqNo, ack, data);
      SendRaw(pkt[..54 + |data|]);
    }

    method SendUdpTo(destIp: u32, destPort: u16, srcPort: u16, data: Bytes)
      requires Valid() && |data| <= MAX_UDP_DATA
      modifies `sent, `rngSeed
      ensures Valid() && HostView() == SendUdp(old(HostView()), destIp, destPort, srcPort, data)
    {
      hide Valid, HostView, Ipv4Frame, UdpDatagram, NextSeed;
      Fields();
      var id := NextRandom();
      var pkt := BuildUdp(routerMac, myMac, id % 0x1_0000, myIp, destIp, srcPort, destPort, data);
      SendRaw(pkt[..42 + |data|]);
    }

    method SendIcmpEcho(targetIp: u32, id: u16, seqNo: u16)
      requires Valid()
      modifies `sent, `rngSeed
      ensures Valid() && HostView() == SendEcho(old(HostView()), targetIp, id, seqNo)
    {
      hide Valid, HostView, Ipv4Frame, IcmpMessage, NextSeed;
      Fields();
      var ipId := NextRandom();
      var pkt := BuildEcho(routerMac, myMac, ipId % 0x1_0000, myIp, targetIp, id, seqNo);
      SendRaw(pkt[..]);
    }

    method ArpRequest(targetIp: u32)
      requires Valid()
      modifies `sent
      ensures Valid()
      ensures HostView() == Transmit(old(HostView()),
        ArpFrame(BROADCAST_MAC, ARP_REQUEST, myMac, myIp, [0, 0, 0, 0, 0, 0], targetIp))
    {
      hide Valid, HostView, ArpFrame;
      var pkt := BuildArp(BROADCAST_MAC, ARP_REQUEST, myMac, myIp, [0, 0, 0, 0, 0, 0], targetIp);
      SendRaw(pkt[..42]);
    }

    /** The identification, the source port and the query id are drawn in this order. */
    method DnsQuery(hostname: Bytes)
      requires Valid() && |hostname| <= MAX_HOSTNAME
      modifies `sent, `rngSeed, `dnsLocalPort, `dnsCurrentId
      ensures Valid() && HostView() == SendQuery(old(HostView()), hostname)
    {
      hide Valid, HostView, Ipv4Frame, UdpDatagram, NextSeed, EphemeralPort, Frames.DnsQuery;
      var s1 := NextRandom();
      var s2 := NextRandom();
      var s3 := NextRandom();
      ExpectAnswer(EphemeralPort(s2), s3 % 0x1_0000);
      TransmitQuery(s1 % 0x1_0000, hostname);
    }

    /** Only a response to this port with this id counts from now on. */
    method ExpectAnswer(port: u16, id: u16)
      requires Valid()
      modifies `dnsLocalPort, `dnsCurrentId
      ensures Valid() && HostView() == old(HostView()).(dns := old(HostView().dns).(port := port, id := id))
    {
      hide Valid, ArpView, TcpView, UdpView, PingView;
      dnsLocalPort, dnsCurrentId := port, id;
    }

    method TransmitQuery(id: u16, hostname: Bytes)
      requires Valid() && |hostname| <= MAX_HOSTNAME
      modifies `sent
      ensures Valid()
      ensures var h := old(HostView());
        HostView() == Transmit(h, Ipv4Frame(h.routerMac, h.mac, id, PROTO_UDP, h.ip, DnsServer(h),
                               UdpDatagram(h.ip, DnsServer(h), h.dns.port, PORT_DNS,
                                 Frames.DnsQuery(h.dns.id, hostname))))
    {
      hide Valid, HostView, Ipv4Frame, UdpDatagram, Frames.DnsQuery;
      Fields();
      var server := if dnsServerIp != 0 then dnsServerIp else GOOGLE_DNS;
      var pkt := BuildDns(routerMac, myMac, id, myIp, server, dnsLocalPort, dnsCurrentId, hostname);
      SendRaw(pkt[..60 + |hostname|]);
    }

    // ---------- handlers (core.hpp) ----------

    method HandleArp()
      requires Valid()
      modifies `arpTargetMac, `arpResolved, `routerMac, `sent, cache, cache.table
      ensures Valid() && HostView() == old(OnArp(HostView(), rxPkt[..]))
    {
      assert rxPkt.Length == PAGE_SIZE;
      hide Valid, HostView, Learn, ArpFrame;
      Fields();
      var sha: Mac := rxPkt[22..28];
      var spa, tpa := Le32At(rxPkt[..], 28), Le32At(rxPkt[..], 38);
      NetworkRead16(rxPkt[..], 20);
      var oper := Htons(Le16At(rxPkt[..], 20));
      if oper == ARP_REPLY {
        LearnReply(sha, spa);
      } else if oper == ARP_REQUEST {
        if tpa == myIp && myIp != 0 {
          var pkt := BuildArp(sha, ARP_REPLY, myMac, myIp, sha, spa);
          SendRaw(pkt[..42]);
        }
      }
    }

    /** A reply fills the cache and completes a pending resolution. */
    method LearnReply(sha: Mac, spa: u32)
      requires Valid()
      modifies `arpTargetMac, `arpResolved, `routerMac, cache, cache.table
      ensures Valid()
      ensures var h := old(HostView());
        HostView() == h.(arp := ArpState(Learn(h.arp.cache, spa, sha), h.arp.target,
                                         if spa == h.arp.target then sha else h.arp.targetMac,
                                         h.arp.resolved || spa == h.arp.target),
                         routerMac := if spa == h.router then sha else h.routerMac)
    {
      hide Valid, HostView, Learn;
      UpdateCache(spa, sha);
      CompleteResolution(spa, sha);
      LearnRouter(spa, sha);
    }

    method UpdateCache(spa: u32, sha: Mac)
      requires Valid()
      modifies cache, cache.table
      ensures Valid() && HostView() ==
        old(HostView()).(arp := old(HostView().arp).(cache := Learn(old(HostView().arp.cache), spa, sha)))
    {
      hide Learn, Cache.Valid, DnsView, TcpView, TcpRxView, UdpView, PingView;
      cache.Update(spa, sha);
    }

    method CompleteResolution(spa: u32, sha: Mac)
      requires Valid()
      modifies `arpTargetMac, `arpResolved
      ensures Valid()
      ensures var a := old(HostView()).arp;
        HostView() == old(HostView()).(arp := if spa == a.target then a.(targetMac := sha, resolved := true) else a)
    {
      hide Valid, DnsView, TcpView, TcpRxView, UdpView, PingView;
      if spa == arpTargetIp {
        arpTargetMac, arpResolved := sha, true;
      }
    }

    method LearnRouter(spa: u32, sha: Mac)
      requires Valid()
      modifies `routerMac
      ensures Valid()
      ensures var h := old(HostView()); HostView() == h.(routerMac := if spa == h.router then sha else h.routerMac)
    {
      hide Valid, ArpView, DnsView, TcpView, TcpRxView, UdpView, PingView;
      if spa == routerIp {
        routerMac := sha;
      }
    }

    method HandleIcmp()
      requires Valid() && !Strays(HostView(), rxPkt[..]) && IsIpv4(rxPkt[..], PROTO_ICMP)
      modifies `sent, `rngSeed, `pingReplyReceived
      ensures Valid() && HostView() == old(OnIcmp(HostView(), rxPkt[..]))
    {
      assert rxPkt.Length == PAGE_SIZE;
      hide Valid, HostView, SendIpv4, Strays;
      var o := Layer4(rxPkt[..]);
      if rxPkt[o] == ECHO_REQUEST && rxPkt[o + 1] == 0 {
        HandleEchoRequest(o);
      } else if rxPkt[o] == ECHO_REPLY {
        HandleEchoReply(o);
      }
    }

    /** The length of the message and the total are computed in the native word, and may wrap. */
    method HandleEchoRequest(o: nat)
      requires Valid() && !Strays(HostView(), rxPkt[..]) && IsIpv4(rxPkt[..], PROTO_ICMP)
      requires o == Layer4(rxPkt[..]) && IsEchoRequest(rxPkt[..])
      modifies `sent, `rngSeed
      ensures Valid() && HostView() == old(OnIcmp(HostView(), rxPkt[..]))
    {
      assert rxPkt.Length == PAGE_SIZE;
      hide Valid, HostView, SendIpv4, EchoReplyBody, Strays, OnIcmp, IcmpLen;
      EchoCases(HostView(), rxPkt[..]);
      var len, fits := EchoLength(o);
      if fits {
        AnswerEcho(rxPkt[o..o + len], Le32At(rxPkt[..], 26));
      }
    }

    /** The length of the message, and whether the answer is short enough to be sent. */
    method EchoLength(o: nat) returns (len: nat, fits: bool)
      requires Valid() && !Strays(HostView(), rxPkt[..]) && IsIpv4(rxPkt[..], PROTO_ICMP)
      requires o == Layer4(rxPkt[..]) && IsEchoRequest(rxPkt[..])
      ensures fits <==> 0 <= IcmpLen(rxPkt[..]) <= MAX_PKT_SIZE - 34
      ensures fits ==> len == IcmpLen(rxPkt[..])
    {
      assert rxPkt.Length == PAGE_SIZE;
      hide Valid, HostView, Strays;
      NetworkRead16(rxPkt[..], 16);
      EchoTotal(HostView(), rxPkt[..]);
      len := (Htons(Le16At(rxPkt[..], 16)) - (o - 14)) % TWO64;
      fits := (34 + len) % TWO64 <= MAX_PKT_SIZE;
    }

    method HandleEchoReply(o: nat)
      requires Valid() && o == Layer4(rxPkt[..]) && rxPkt[o] == ECHO_REPLY
      modifies `pingReplyReceived
      ensures Valid() && HostView() == old(OnIcmp(HostView(), rxPkt[..]))
    {
      assert rxPkt.Length == PAGE_SIZE;
      hide Valid, HostView, SendIpv4;
      Fields();
      NetworkRead16(rxPkt[..], o + 4);
      NetworkRead16(rxPkt[..], o + 6);
      if Htons(Le16At(rxPkt[..], o + 4)) == pingId && Htons(Le16At(rxPkt[..], o + 6)) == pingSeq {
        NoticeReply();
      }
    }

    method NoticeReply()
      requires Valid()
      modifies `pingReplyReceived
      ensures Valid() && HostView() == old(HostView()).(ping := old(HostView().ping).(replied := true))
    {
      hide Valid, ArpView, DnsView, TcpView, UdpView;
      pingReplyReceived := true;
    }

    method AnswerEcho(msg: Bytes, saddr: u32)
      requires Valid() && 34 + |msg| <= MAX_PKT_SIZE && (|msg| > 1 ==> msg[1] == 0)
      modifies `sent, `rngSeed
      ensures Valid() && HostView() == SendIpv4(old(HostView()), PROTO_ICMP, saddr, EchoReplyBody(msg))
    {
      hide Valid, HostView, Ipv4Frame, EchoReplyBody, NextSeed;
      Fields();
      var id := NextRandom();
      var pkt := BuildEchoReply(routerMac, myMac, id % 0x1_0000, myIp, saddr, msg);
      SendRaw(pkt[..34 + |msg|]);
    }

    /** The user-datagram half of `handle_udp`. A length of less than the header wraps. */
    method ReceiveDatagram(o: nat)
      requires Valid() && o == Layer4(rxPkt[..])
      requires udpRxBuffer != null && !DatagramFits(rxPkt[..]) ==> udpRxMaxLen <= |DatagramAt(rxPkt[..])|
      modifies `udpRxCurrentLen, `udpRxDone, udpRxBuffer
      ensures Valid() && rxPkt[..] == old(rxPkt[..])
      ensures HostView() == old(HostView()).(udp := Datagram(old(HostView().udp), DatagramAt(old(rxPkt[..]))))
    {
      assert rxPkt.Length == PAGE_SIZE;
      UdpRxField();
      hide Valid, HostView, Layer4, Datagram, DatagramAt, DatagramFits, Be16At;
      ghost var b := rxPkt[..];
      NoDatagram(HostView().udp, DatagramAt(b));
      if udpRxBuffer != null { DatagramCopy(b, udpRxMaxLen); }
      NetworkRead16(b, o + 4);
      var payloadLen := (Htons(Le16At(rxPkt[..], o + 4)) - 8) % TWO64;
      if payloadLen > 0 && udpRxBuffer != null {
        var copyLen := if payloadLen > udpRxMaxLen then udpRxMaxLen else payloadLen;
        TakeDatagram(rxPkt[o + 8..o + 8 + copyLen], DatagramAt(b));
      }
    }

    lemma UdpRxField()
      requires Valid()
      ensures HostView().udp.rx == None <==> udpRxBuffer == null
    {
    }

    method TakeDatagram(bytes: Bytes, ghost payload: Bytes)
      requires Valid() && udpRxBuffer != null && |payload| > 0 && bytes == payload[..Min(|payload|, udpRxMaxLen)]
      modifies `udpRxCurrentLen, `udpRxDone, udpRxBuffer
      ensures Valid() && rxPkt[..] == old(rxPkt[..])
      ensures HostView() == old(HostView()).(udp := Datagram(old(HostView().udp), payload))
    {
      hide Cache.Valid, ArpView, DnsView, TcpView, UdpView, PingView, TcpRxView, Datagram;
      StoreDatagram(bytes, payload);
    }

    /** Copies what fits of the datagram into the posted buffer. */
    method StoreDatagram(bytes: Bytes, ghost payload: Bytes)
      requires Valid() && udpRxBuffer != null && |payload| > 0 && bytes == payload[..Min(|payload|, udpRxMaxLen)]
      modifies `udpRxCurrentLen, `udpRxDone, udpRxBuffer
      ensures Valid() && rxPkt[..] == old(rxPkt[..]) && UdpView() == Datagram(old(UdpView()), payload)
    {
      hide Cache.Valid, HostView;
      CopyBytes(udpRxBuffer, 0, bytes);
      assert udpRxBuffer[..|bytes|] == bytes;
      udpRxCurrentLen := |bytes|;
      udpRxDone := true;
    }

    /** The DNS half: the header checks, then the walk over questions and answers. */
    method ReceiveAnswer(o: nat)
      requires Valid() && 34 <= o <= 74
      requires var b := rxPkt[..];
        IsResponse(HostView().dns, b, o) ==>
          Dns.WalkMessage(b, o + 20, Be16At(b, o + 12), Be16At(b, o + 14)) != Dns.OutOfBounds
      modifies `dnsResolvedIp, `dnsResolved
      ensures Valid()
      ensures HostView() == old(HostView()).(dns := DnsAnswer(old(HostView().dns), rxPkt[..], o))
    {
      assert rxPkt.Length == PAGE_SIZE;
      hide Valid, HostView, Dns.SkipQuestions, Dns.FindA;
      Fields();
      var id, flags, questions, answers := ReadDnsHeader(o + 8);
      hide Be16At;
      if id != dnsCurrentId { return; }
      if flags < 0x8000 { return; }
      if answers == 0 { return; }
      var p := Dns.WalkQuestions(rxPkt, o + 20, questions);
      var found := Dns.WalkAnswers(rxPkt, p, answers);
      if found.Some? {
        Resolve(found.value);
      }
    }

    method ReadDnsHeader(d: nat) returns (id: u16, flags: u16, questions: u16, answers: u16)
      requires d + 12 <= rxPkt.Length
      ensures id == Be16At(rxPkt[..], d) && flags == Be16At(rxPkt[..], d + 2)
      ensures questions == Be16At(rxPkt[..], d + 4) && answers == Be16At(rxPkt[..], d + 6)
    {
      NetworkRead16(rxPkt[..], d);
      NetworkRead16(rxPkt[..], d + 2);
      NetworkRead16(rxPkt[..], d + 4);
      NetworkRead16(rxPkt[..], d + 6);
      id, flags := Htons(Le16At(rxPkt[..], d)), Htons(Le16At(rxPkt[..], d + 2));
      questions, answers := Htons(Le16At(rxPkt[..], d + 4)), Htons(Le16At(rxPkt[..], d + 6));
    }

    method Resolve(ip: u32)
      requires Valid()
      modifies `dnsResolvedIp, `dnsResolved
      ensures Valid() && HostView() == old(HostView()).(dns := old(HostView().dns).(ip := ip, resolved := true))
    {
      hide Valid, ArpView, TcpView, UdpView, PingView;
      dnsResolvedIp, dnsResolved := ip, true;
    }

    method HandleUdp()
      requires Valid() && !Strays(HostView(), rxPkt[..]) && IsIpv4(rxPkt[..], PROTO_UDP)
      modifies `udpRxCurrentLen, `udpRxDone, udpRxBuffer, `dnsResolvedIp, `dnsResolved
      ensures Valid() && HostView() == old(OnUdp(HostView(), rxPkt[..]))
    {
      hide Dns.WalkMessage, Datagram, DatagramAt, DnsAnswer, IsResponse, Cache.Valid, ArpView, PingView, TcpView,
        TcpRxView;
      ghost var b := rxPkt[..];
      var o := Layer4(rxPkt[..]);
      NetworkRead16(b, o);
      NetworkRead16(b, o + 2);
      var srcPort, dstPort := Htons(Le16At(rxPkt[..], o)), Htons(Le16At(rxPkt[..], o + 2));
      if dstPort == udpLocalPort && udpLocalPort != 0 {
        ReceiveDatagram(o);
      }
      if dstPort == dnsLocalPort && dnsLocalPort != 0 && srcPort == PORT_DNS {
        ReceiveAnswer(o);
      }
    }

    /** Copies payload into the posted buffer as far as it fits. */
    method StorePayload(start: nat, payloadLen: nat, ghost payload: Bytes)
      requires Valid() && Backs(rxPkt[..], start, payloadLen, payload)
      requires tcpRxBuffer != null ==> Min(|payload|, tcpRxMaxLen - tcpRxCurrentLen) <= rxPkt.Length - start
      modifies `tcpRxCurrentLen, `tcpRxDone, tcpRxBuffer
      ensures Valid() && HostView() == old(HostView()).(tcp := Store(old(HostView().tcp), payload))
    {
      hide Valid, HostView;
      RxField();
      if payloadLen > 0 && tcpRxBuffer != null {
        var spaceLeft := tcpRxMaxLen - tcpRxCurrentLen;
        var copyLen := if payloadLen > spaceLeft then spaceLeft else payloadLen;
        assert copyLen == Min(|payload|, spaceLeft);
        if copyLen > 0 {
          PrefixBacked(rxPkt[..], start, payload, copyLen);
          StoreBytes(rxPkt[start..start + copyLen]);
        }
      }
    }

    /** The posted buffer as part of the abstract value. */
    lemma RxField()
      requires Valid()
      ensures tcpRxCurrentLen <= tcpRxMaxLen
      ensures tcpRxBuffer == null ==> HostView().tcp.rx == None
      ensures tcpRxBuffer != null ==> tcpRxMaxLen <= tcpRxBuffer.Length
      ensures tcpRxBuffer != null ==> HostView().tcp.rx == Some(Posted(tcpRxMaxLen, tcpRxBuffer[..tcpRxCurrentLen]))
    {
    }

    /** The bytes are appended to the buffer and the waiting receive is released. */
    method StoreBytes(data: Bytes)
      requires Valid() && tcpRxBuffer != null && tcpRxCurrentLen + |data| <= tcpRxMaxLen
      modifies `tcpRxCurrentLen, `tcpRxDone, tcpRxBuffer
      ensures Valid()
      ensures var s := old(HostView()).tcp;
        && s.rx == Some(Posted(tcpRxMaxLen, old(tcpRxBuffer[..tcpRxCurrentLen])))
        && HostView() == old(HostView()).(tcp := s.(rx := Some(Posted(tcpRxMaxLen, s.rx.value.data + data)),
          done := true))
    {
      RxField();
      hide Cache.Valid, ArpView, DnsView, UdpView, PingView, TcpRxView;
      AppendRx(data);
      tcpRxDone := true;
    }

    method AppendRx(data: Bytes)
      requires Valid() && tcpRxBuffer != null && tcpRxCurrentLen + |data| <= tcpRxMaxLen
      modifies `tcpRxCurrentLen, tcpRxBuffer
      ensures Valid()
      ensures TcpRxView() == Some(Posted(tcpRxMaxLen, old(tcpRxBuffer[..tcpRxCurrentLen]) + data))
    {
      hide Cache.Valid, HostView;
      CopyBytes(tcpRxBuffer, tcpRxCurrentLen, data);
      assert tcpRxBuffer[..tcpRxCurrentLen + |data|] == old(tcpRxBuffer[..tcpRxCurrentLen]) + data;
      tcpRxCurrentLen := tcpRxCurrentLen + |data|;
    }

    method HandleTcp()
      requires Valid() && !Strays(HostView(), rxPkt[..]) && IsIpv4(rxPkt[..], PROTO_TCP)
      modifies `tcpSeq, `tcpAck, `tcpState, `sent, `rngSeed, `tcpRxCurrentLen, `tcpRxDone, tcpRxBuffer
      ensures Valid() && HostView() == old(OnTcp(HostView(), rxPkt[..]))
    {
      assert rxPkt.Length == PAGE_SIZE;
      hide Valid, HostView, SegmentAt, PayloadAt, OnTcp, OnTcpSegment, Strays, IsIpv4, Layer4, Segment.Has;
      var o := Layer4(rxPkt[..]);
      var g := ReadHeader(o);
      TcpCases(HostView(), rxPkt[..], g);
      Fields();
      if g.dstPort != tcpLocalPort || tcpLocalPort == 0 { return; }
      if g.Has(RST) {
        Abort();
        return;
      }
      if tcpState == SynSent {
        HandleSynAck(g);
      } else if tcpState == Established || tcpState == FinWait {
        HandleOpenPage(o, g);
      }
    }

    /** A segment of an open session, whose payload is looked at. */
    method HandleOpenPage(o: nat, g: Segment)
      requires Valid() && Addressed(HostView().tcp, g) && !g.Has(RST) && Open(HostView().tcp.phase)
      requires o == Layer4(rxPkt[..]) && SegmentAt(rxPkt[..]) == g.(payload := PayloadAt(rxPkt[..]))
      requires var s := HostView().tcp;
        s.rx.Some? ==> Min(|PayloadAt(rxPkt[..])|, s.rx.value.Room()) <= SegmentRoom(rxPkt[..])
      modifies `tcpSeq, `tcpAck, `tcpState, `sent, `rngSeed, `tcpRxCurrentLen, `tcpRxDone, tcpRxBuffer
      ensures Valid() && HostView() == OnTcpSegment(old(HostView()), old(SegmentAt(rxPkt[..])))
    {
      assert rxPkt.Length == PAGE_SIZE;
      RxField();
      hide Valid, HostView, SegmentAt, PayloadAt, OnTcpSegment, Layer4, Segment.Has, Backs;
      var start, payloadLen := ReadLengths(o);
      HandleOpen(g, start, payloadLen, PayloadAt(rxPkt[..]));
    }

    /** RST: the session is closed and a waiting receive is released. */
    method Abort()
      requires Valid()
      modifies `tcpState, `tcpRxDone
      ensures Valid() && HostView() == old(HostView()).(tcp := old(HostView().tcp).(phase := Closed, done := true))
    {
      hide Cache.Valid, ArpView, DnsView, UdpView, PingView;
      tcpState, tcpRxDone := Closed, true;
    }

    /** Takes over the segment's numbers, sends the answer, and moves to the next phase. */
    method Answer(g: Segment, taken: nat, flags: byte, next: Phase)
      requires Valid() && flags < 64
      modifies `tcpSeq, `tcpAck, `tcpState, `sent, `rngSeed
      ensures Valid() && HostView() == Answered(old(HostView()), g, taken, flags, next)
    {
      hide Valid, HostView, SendTcp;
      ghost var h := HostView();
      SetNumbers(g.ack, (g.seqNo + taken) % TWO32);
      SendTcpInternal(flags, g.ack, (g.seqNo + taken) % TWO32, []);
      SetPhase(next);
      ghost var u := Acknowledge(h.tcp, g, taken);
      SendKeepsSession(h, u.(phase := next), u, flags, u.seqNo, u.ack);
    }

    method SetNumbers(seqNo: u32, ack: u32)
      requires Valid()
      modifies `tcpSeq, `tcpAck
      ensures Valid() && HostView() == old(HostView()).(tcp := old(HostView().tcp).(seqNo := seqNo, ack := ack))
    {
      hide ArpView, DnsView, TcpRxView, UdpView, PingView;
      tcpSeq, tcpAck := seqNo, ack;
    }

    method SetPhase(next: Phase)
      requires Valid()
      modifies `tcpState
      ensures Valid() && HostView() == old(HostView()).(tcp := old(HostView().tcp).(phase := next))
    {
      hide ArpView, DnsView, TcpRxView, UdpView, PingView;
      tcpState := next;
    }

    /** The SYN_SENT branch: expecting SYN+ACK. */
    method HandleSynAck(g: Segment)
      requires Valid() && Addressed(HostView().tcp, g) && !g.Has(RST) && HostView().tcp.phase == SynSent
      modifies `tcpSeq, `tcpAck, `tcpState, `sent, `rngSeed
      ensures Valid() && HostView() == OnTcpSegment(old(HostView()), g)
    {
      hide Answered, OnTcpSegment, Valid, ArpView, DnsView, TcpRxView, UdpView, PingView;
      SynAckSteps(HostView(), g);
      if g.Has(SYN) && g.Has(ACK) {
        Answer(g, 1, ACK, Established);
      }
    }

    /** The ESTABLISHED and FIN_WAIT branch: store what fits, acknowledge all, answer FIN. */
    method HandleOpen(g: Segment, start: nat, payloadLen: nat, ghost payload: Bytes)
      requires Valid() && Addressed(HostView().tcp, g) && !g.Has(RST) && Open(HostView().tcp.phase)
      requires Backs(rxPkt[..], start, payloadLen, payload)
      requires tcpRxBuffer != null ==> Min(|payload|, tcpRxMaxLen - tcpRxCurrentLen) <= rxPkt.Length - start
      modifies `tcpSeq, `tcpAck, `tcpState, `sent, `rngSeed, `tcpRxCurrentLen, `tcpRxDone, tcpRxBuffer
      ensures Valid() && HostView() == OnTcpSegment(old(HostView()), g.(payload := payload))
    {
      assert payloadLen % TWO32 == |payload|;
      hide Valid, HostView, Answered, OnTcpSegment, Store, Segment.Has, Backs;
      ghost var full := g.(payload := payload);
      SameFlags(g, payload);
      OpenSteps(HostView(), full);
      TakePayload(g, start, payloadLen, payload);
      if g.Has(FIN) {
        AnswerSame(HostView(), g, full, payloadLen, FIN + ACK, ClosedDone);
        Answer(g, payloadLen + 1, FIN + ACK, ClosedDone);
      }
    }

    /** Stores what fits of the payload and acknowledges all of it. */
    method TakePayload(g: Segment, start: nat, payloadLen: nat, ghost payload: Bytes)
      requires Valid() && Backs(rxPkt[..], start, payloadLen, payload)
      requires tcpRxBuffer != null ==> Min(|payload|, tcpRxMaxLen - tcpRxCurrentLen) <= rxPkt.Length - start
      modifies `tcpSeq, `tcpAck, `tcpState, `sent, `rngSeed, `tcpRxCurrentLen, `tcpRxDone, tcpRxBuffer
      ensures Valid()
      ensures var h := old(HostView()); var stored := h.(tcp := Store(h.tcp, payload));
        HostView() == if payload == [] then stored
                      else Answered(stored, g.(payload := payload), |payload|, ACK, h.tcp.phase)
    {
      assert (payloadLen > 0 <==> payload != []) && payloadLen % TWO32 == |payload|;
      hide Valid, HostView, Answered, Store, Backs;
      Fields();
      ghost var stored := HostView().(tcp := Store(HostView().tcp, payload));
      StoreKeepsPorts(HostView().tcp, payload);
      StorePayload(start, payloadLen, payload);
      AnswerSame(stored, g, g.(payload := payload), payloadLen, ACK, stored.tcp.phase);
      if payloadLen > 0 {
        Answer(g, payloadLen, ACK, tcpState);
      }
    }

    /** The header fields `handle_tcp` reads, in host order; the payload is left for an open session to
      * look at. */
    method ReadHeader(o: nat) returns (g: Segment)
      requires Valid() && o == Layer4(rxPkt[..])
      ensures SegmentAt(rxPkt[..]) == g.(payload := PayloadAt(rxPkt[..]))
    {
      ghost var b := rxPkt[..];
      assert |b| == PAGE_SIZE;
      hide Valid, Layer4, PayloadAt;
      NetworkRead16(b, o + 2);
      NetworkRead16(b, o + 12);
      NetworkRead32(b, o + 4);
      NetworkRead32(b, o + 8);
      g := Segment(Htons(Le16At(rxPkt[..], o + 2)), Htons(Le16At(rxPkt[..], o + 12)) % 64,
                   Htonl(Le32At(rxPkt[..], o + 4)), Htonl(Le32At(rxPkt[..], o + 8)), []);
    }

    /** Where the payload starts, and its length in the native word. */
    method ReadLengths(o: nat) returns (start: nat, payloadLen: nat)
      requires Valid() && o == Layer4(rxPkt[..])
      ensures start == PAGE_SIZE - SegmentRoom(rxPkt[..]) && Backs(rxPkt[..], start, payloadLen, PayloadAt(rxPkt[..]))
    {
      ghost var b := rxPkt[..];
      assert |b| == PAGE_SIZE;
      hide Valid, Layer4, PayloadAt, Backs;
      NetworkRead16(b, 16);
      NetworkRead16(b, o + 12);
      var hlen := Htons(Le16At(rxPkt[..], o + 12)) / 0x1000 * 4;
      start := o + hlen;
      payloadLen := (Htons(Le16At(rxPkt[..], 16)) - rxPkt[14] % 16 * 4 - hlen) % TWO64;
      PayloadBacked(b);
    }

    // ---------- the dispatcher (core.hpp) ----------

    /** One receive call: a page overwrites the receive buffer. */
    method Receive() returns (st: Status)
      requires Valid()
      modifies `inbox, rxPkt
      ensures Valid() && HostView() == old(HostView()) && inbox == Rest(old(inbox))
      ensures match NextRx(old(inbox))
        case Page(b) => st == Success && rxPkt[..] == b
        case NotReady => st == Waiting
        case DeviceError => st == Failed
    {
      hide ArpView, DnsView, TcpView, TcpRxView, UdpView, PingView;
      var e := NextRx(inbox);
      inbox := Rest(inbox);
      match e
      case Page(b) =>
        CopyBytes(rxPkt, 0, b);
        assert rxPkt[..] == b;
        st := Success;
      case NotReady => st := Waiting;
      case DeviceError => st := Failed;
    }

    method Poll()
      requires Valid() && !Runs.Poll(View()).strayed
      modifies this, rxPkt, cache, cache.table, tcpRxBuffer, udpRxBuffer
      ensures Valid() && SameBuffers() && View() == Runs.Poll(old(View()))
    {
      hide Cache.Valid, HostView, Strays, Deliver;
      var st := Receive();
      if st == Success {
        Dispatch();
      }
    }

    /** Routes the received page by EtherType and protocol. */
    method Dispatch()
      requires Valid() && !Strays(HostView(), rxPkt[..])
      modifies `tcpSeq, `tcpAck, `tcpState, `tcpRxCurrentLen, `tcpRxDone, tcpRxBuffer, `udpRxCurrentLen, `udpRxDone,
        udpRxBuffer
      modifies `dnsResolvedIp, `dnsResolved, `arpTargetMac, `arpResolved, `routerMac, cache, cache.table
      modifies `pingReplyReceived, `sent, `rngSeed
      ensures Valid() && HostView() == old(Deliver(HostView(), rxPkt[..]))
    {
      assert rxPkt.Length == PAGE_SIZE;
      hide Valid, HostView, Strays, OnArp, OnIcmp, OnUdp, OnTcp;
      NetworkRead16(rxPkt[..], 12);
      var etherType := Htons(Le16At(rxPkt[..], 12));
      if etherType == ETHERTYPE_ARP {
        HandleArp();
      } else if etherType == ETHERTYPE_IPV4 {
        if rxPkt[23] == PROTO_ICMP {
          HandleIcmp();
        } else if rxPkt[23] == PROTO_UDP {
          HandleUdp();
        } else if rxPkt[23] == PROTO_TCP {
          HandleTcp();
        }
      }
    }

    // ---------- initialisation (api.hpp) ----------

    method SendDhcp(kind: byte, xid: u32)
      requires Valid()
      modifies `sent
      ensures Valid() && HostView() == Transmit(old(HostView()), DhcpFrame(kind, xid, myMac, myIp, dhcpServerIp))
    {
      hide Valid, HostView, DhcpFrame;
      var pkt := BuildDhcp(kind, xid, myMac, myIp, dhcpServerIp);
      SendRaw(pkt[..582]);
    }

    /** Settings found in the options of a DHCP message; the message type is returned. */
    method AbsorbOptions() returns (kind: byte)
      requires Valid()
      modifies `routerIp, `dnsServerIp, `subnetMask, `dhcpLeaseTime
      ensures Valid() && (HostView(), kind) == Client.Absorb(old(HostView()), rxPkt[..])
    {
      assert rxPkt.Length == PAGE_SIZE;
      hide Client.Scanned, Valid, HostView;
      var c := ScanPage();
      ApplyConfig(c);
      kind := c.msgType;
    }

    method ScanPage() returns (c: Config)
      requires Valid()
      ensures var h := HostView(); c == Client.Scanned(rxPkt[..], Config(0, h.router, h.dnsServer, h.mask, h.lease))
    {
      hide Scan, Cache.Valid, ArpView, DnsView, TcpView, TcpRxView, UdpView, PingView;
      var r, _ := ScanOptions(rxPkt, Layer4(rxPkt[..]) + 248,
        Config(0, routerIp, dnsServerIp, subnetMask, dhcpLeaseTime));
      c := r;
    }

    method ApplyConfig(c: Config)
      requires Valid()
      modifies `routerIp, `dnsServerIp, `subnetMask, `dhcpLeaseTime
      ensures Valid()
      ensures HostView() == old(HostView()).(router := c.router, dnsServer := c.dns, mask := c.mask, lease := c.lease)
    {
      hide Valid, HostView;
      SetMaskAndDns(c.mask, c.dns);
      SetRouterAndLease(c.router, c.lease);
    }

    method SetRouterAndLease(router: u32, lease: u32)
      requires Valid()
      modifies `routerIp, `dhcpLeaseTime
      ensures Valid() && HostView() == old(HostView()).(router := router, lease := lease)
    {
      hide Valid, ArpView, DnsView, TcpView, TcpRxView, UdpView, PingView;
      routerIp, dhcpLeaseTime := router, lease;
    }

    method AcceptOffer()
      requires Valid()
      modifies `myIp, `dhcpServerIp
      ensures Valid()
      ensures HostView() == old(HostView()).(ip := Client.OfferedIp(rxPkt[..]),
        dhcpServer := Client.ServerOf(rxPkt[..]))
    {
      assert rxPkt.Length == PAGE_SIZE;
      hide Valid, HostView;
      var d := Layer4(rxPkt[..]) + 8;
      var server := Le32At(rxPkt[..], d + 20);
      if server == 0 {
        server := Le32At(rxPkt[..], 26);
      }
      TakeLease(Le32At(rxPkt[..], d + 16), server);
    }

    method TakeLease(ip: u32, server: u32)
      requires Valid()
      modifies `myIp, `dhcpServerIp
      ensures Valid() && HostView() == old(HostView()).(ip := ip, dhcpServer := server)
    {
      hide Valid, ArpView, DnsView, TcpView, UdpView, PingView;
      myIp, dhcpServerIp := ip, server;
    }

    method AcceptAck()
      requires Valid()
      modifies `routerIp
      ensures Valid()
      ensures var h := old(HostView()); HostView() == if h.router == 0 then h.(router := h.dhcpServer) else h
    {
      hide Valid, ArpView, DnsView, TcpView, TcpRxView, UdpView, PingView;
      if routerIp == 0 {
        routerIp := dhcpServerIp;
      }
    }

    /** One received page in the DHCP loop: the new phase and timer. */
    method HandleDhcp(phase: Client.Phase, timeout: nat, ghost c: Client.Client)
      returns (next: Client.Phase, timer: nat)
      requires Valid() && c.h == HostView() && c.phase == phase && c.timeout == timeout
      modifies `routerIp, `dnsServerIp, `subnetMask, `dhcpLeaseTime, `myIp, `dhcpServerIp
      ensures Valid()
      ensures var r := Client.OnReply(c, rxPkt[..]); HostView() == r.h && next == r.phase && timer == r.timeout
    {
      assert rxPkt.Length == PAGE_SIZE;
      hide Valid, HostView, Client.Absorb, Client.IsDhcp, Client.OfferedIp, Client.ServerOf;
      next, timer := phase, timeout;
      var isDhcp := RecogniseDhcp();
      if isDhcp {
        var kind := AbsorbOptions();
        var op := rxPkt[Layer4(rxPkt[..]) + 8];
        if phase == Client.Discover && op == Client.OP_REPLY {
          if kind == MSG_OFFER || kind == 0 {
            AcceptOffer();
            next, timer := Client.OfferReceived, 0;
          }
        } else if phase == Client.OfferReceived && op == Client.OP_REPLY {
          if kind == MSG_ACK || kind == 0 {
            AcceptAck();
            next := Client.Bound;
          }
        }
      }
    }

    method RecogniseDhcp() returns (yes: bool)
      requires Valid()
      ensures yes == Client.IsDhcp(rxPkt[..])
    {
      hide Cache.Valid;
      ghost var b := rxPkt[..];
      var o := Layer4(rxPkt[..]);
      NetworkRead16(b, 12);
      NetworkRead16(b, o + 2);
      NetworkRead32(b, o + 244);
      yes := Htons(Le16At(rxPkt[..], 12)) == ETHERTYPE_IPV4 && rxPkt[23] == PROTO_UDP &&
             Htons(Le16At(rxPkt[..], o + 2)) == PORT_DHCP_CLIENT && Htonl(Le32At(rxPkt[..], o + 244)) == DHCP_MAGIC;
    }

    /** One iteration of the DHCP loop. */
    method DhcpIteration(phase: Client.Phase, timeout: nat, xid: u32, ghost c: Client.Client)
      returns (next: Client.Phase, timer: nat)
      requires Valid() && c.h == HostView() && c.inbox == inbox && c.phase == phase && c.timeout == timeout
        && phase != Client.Bound
      modifies `sent, `inbox, rxPkt, `routerIp, `dnsServerIp, `subnetMask, `dhcpLeaseTime, `myIp, `dhcpServerIp
      ensures Valid()
      ensures var r := Client.Step(c, xid);
        HostView() == r.h && inbox == r.inbox && next == r.phase && timer == r.timeout
    {
      hide DhcpFrame, Client.OnReply, Cache.Valid, ArpView, DnsView, TcpView, TcpRxView, UdpView, PingView;
      next, timer := phase, timeout;
      ghost var d := if timeout == 0 then Client.SendDhcp(c, xid) else c;
      if timer == 0 {
        SendDhcp(if phase == Client.Discover then MSG_DISCOVER else MSG_REQUEST, xid);
        timer := TIMEOUT_RETRANSMIT;
      }
      ghost var e := d.(inbox := Rest(d.inbox), loops := d.loops + 1);
      var st := Receive();
      if st == Success {
        next, timer := HandleDhcp(next, timer, e);
      } else if st == Waiting {
        timer := timer - 1;
      }
    }

    /** The DHCP handshake: no frame, however malformed, stops it from following its specification. */
    method DhcpHandshake(xid: u32) returns (bound: bool)
      requires Valid()
      modifies `sent, `inbox, rxPkt, `routerIp, `dnsServerIp, `subnetMask, `dhcpLeaseTime, `myIp, `dhcpServerIp
      ensures Valid()
      ensures var r := Client.DhcpRun(Client.Start(old(HostView()), old(inbox)), xid);
        HostView() == r.h && inbox == r.inbox && bound == (r.phase == Client.Bound)
    {
      hide Client.Step, Cache.Valid, ArpView, DnsView, TcpView, TcpRxView, UdpView, PingView;
      var phase, timeout, loops := Client.Discover, 0, 0;
      ghost var start := Client.Start(HostView(), inbox);
      ghost var c := start;
      while phase != Client.Bound
        invariant Valid() && c.h == HostView() && c.inbox == inbox
        invariant c.phase == phase && c.timeout == timeout && c.loops == loops
        invariant Client.DhcpRun(c, xid) == Client.DhcpRun(start, xid)
        decreases Client.TIMEOUT_DHCP_LOOPS - loops
      {
        if loops >= Client.TIMEOUT_DHCP_LOOPS { break; }
        phase, timeout := DhcpIteration(phase, timeout, xid, c);
        c := Client.Step(c, xid);
        loops := loops + 1;
      }
      bound := phase == Client.Bound;
    }

    // ---------- the loops (api.hpp) ----------

    method IsOver(k: Wait) returns (over: bool)
      ensures over == Over(k, HostView())
    {
      hide ArpView, DnsView;
      match k
      case ForTcpData => over := tcpRxDone || tcpState == Closed || tcpState == ClosedDone;
      case ForTcpClose => over := tcpState == ClosedDone;
      case ForUdp => over := udpRxDone;
      case ForEcho => over := pingReplyReceived;
    }

    /** The waiting loop of `tcp_receive`, `tcp_close`, `udp_receive` and `ping`. */
    method Await(k: Wait, maxLoops: nat)
      requires Valid() && !WaitRun(k, View(), maxLoops).strayed
      modifies this, rxPkt, cache, cache.table, tcpRxBuffer, udpRxBuffer
      ensures Valid() && SameBuffers() && View() == WaitRun(k, old(View()), maxLoops)
    {
      hide HostView, Valid, Runs.Poll, Over;
      ghost var start := View();
      var loops := 0;
      var over := IsOver(k);
      while !over && loops < maxLoops
        invariant Valid() && SameBuffers() && loops <= maxLoops
        invariant over == Over(k, HostView())
        invariant WaitRun(k, View(), maxLoops - loops) == WaitRun(k, start, maxLoops)
      {
        if Runs.Poll(View()).strayed { WaitRunStrayed(k, Runs.Poll(View()), maxLoops - loops - 1); }
        Poll();
        loops := loops + 1;
        over := IsOver(k);
      }
    }

    method IsFinished(k: Retry) returns (finished: bool)
      ensures finished == Finished(k, HostView())
    {
      hide TcpRxView, UdpView, PingView;
      match k
      case Gateway => finished := arpResolved;
      case Lookup(_) => finished := dnsResolved;
      case Handshake => finished := tcpState == Established || tcpState == Closed;
    }

    method SendRequest(k: Retry)
      requires Valid() && FitsRetry(k)
      modifies `sent, `rngSeed, `dnsLocalPort, `dnsCurrentId
      ensures Valid() && HostView() == Request(k, old(HostView()))
    {
      hide SendTcp, SendQuery, ArpFrame, Valid, ArpView, TcpRxView, UdpView, PingView;
      match k
      case Gateway => ArpRequest(routerIp);
      case Lookup(host) => DnsQuery(host);
      case Handshake => SendTcpInternal(SYN, tcpSeq, tcpAck, []);
    }

    /** The retrying loop of both initialisations, `resolve_hostname` and `tcp_connect`: a request
      * every 5000 iterations until the answer is in. */
    method AwaitAnswer(k: Retry, maxLoops: nat)
      requires Valid() && FitsRetry(k) && !RetryRun(k, RetryState(View(), 0, 0), maxLoops).w.strayed
      modifies this, rxPkt, cache, cache.table, tcpRxBuffer, udpRxBuffer
      ensures Valid() && SameBuffers()
      ensures View() == RetryRun(k, RetryState(old(View()), 0, 0), maxLoops).w
    {
      hide HostView, Valid, Runs.Poll, Request, Finished;
      ghost var start := RetryState(View(), 0, 0);
      var timeout, loops := 0, 0;
      var finished := IsFinished(k);
      while !finished && loops < maxLoops
        invariant Valid() && SameBuffers() && timeout >= 0 && 0 <= loops <= maxLoops
        invariant finished == Finished(k, HostView())
        invariant RetryRun(k, RetryState(View(), timeout, loops), maxLoops) == RetryRun(k, start, maxLoops)
      {
        ghost var next := RetryStep(k, RetryState(View(), timeout, loops));
        if next.w.strayed { RetryRunStrayed(k, next, maxLoops); }
        if timeout == 0 {
          SendRequest(k);
          timeout := TIMEOUT_RETRANSMIT;
        }
        Poll();
        timeout := timeout - 1;
        loops := loops + 1;
        finished := IsFinished(k);
      }
    }

    // ---------- calls (api.hpp) ----------

    /** What both initialisations end with. */
    method ResolveGateway() returns (ok: bool)
      requires Valid() && !Runs.ResolveGateway(View()).strayed
      modifies this, rxPkt, cache, cache.table, tcpRxBuffer, udpRxBuffer
      ensures Valid() && View() == Runs.ResolveGateway(old(View())) && ok == arpResolved
    {
      hide RetryRun, Cache.Valid, DnsView, PingView;
      arpResolved := false;
      arpTargetIp := routerIp;
      AwaitAnswer(Gateway, TIMEOUT_ARP_LOOPS);
      ok := arpResolved;
    }

    /** `init_network` once the card is running. */
    method InitNetwork(seed: u32) returns (ok: bool)
      requires Valid() && !Client.InitNetwork(View(), seed).strayed
      modifies this, rxPkt, cache, cache.table, tcpRxBuffer, udpRxBuffer
      ensures Valid() && View() == Client.InitNetwork(old(View()), seed)
      ensures ok == (Client.Handshaken(old(View()), seed).phase == Client.Bound && arpResolved)
    {
      hide Valid, HostView, Client.DhcpRun, Runs.ResolveGateway, NextSeed;
      SeedGenerator(seed);
      var xid := NextRandom();
      var bound := DhcpHandshake(xid);
      if !bound { return false; }
      ok := ResolveGateway();
    }

    method InitNetworkStatic(seed: u32, ip: u32, gateway: u32, mask: u32, dns: u32) returns (ok: bool)
      requires Valid() && !InitStatic(View(), seed, ip, gateway, mask, dns).strayed
      modifies this, rxPkt, cache, cache.table, tcpRxBuffer, udpRxBuffer
      ensures Valid() && View() == InitStatic(old(View()), seed, ip, gateway, mask, dns) && ok == arpResolved
    {
      hide Valid, HostView, Runs.ResolveGateway;
      SeedGenerator(seed);
      Configure(ip, gateway, mask, dns);
      ok := ResolveGateway();
    }

    method Configure(ip: u32, gateway: u32, mask: u32, dns: u32)
      requires Valid()
      modifies `myIp, `routerIp, `subnetMask, `dnsServerIp
      ensures Valid() && HostView() == old(HostView()).(ip := ip, router := gateway, mask := mask, dnsServer := dns)
    {
      hide Valid, HostView;
      SetAddresses(ip, gateway);
      SetMaskAndDns(mask, dns);
    }

    method SetAddresses(ip: u32, gateway: u32)
      requires Valid()
      modifies `myIp, `routerIp
      ensures Valid() && HostView() == old(HostView()).(ip := ip, router := gateway)
    {
      hide Valid, ArpView, DnsView, TcpView, TcpRxView, UdpView, PingView;
      myIp, routerIp := ip, gateway;
    }

    method SetMaskAndDns(mask: u32, dns: u32)
      requires Valid()
      modifies `subnetMask, `dnsServerIp
      ensures Valid() && HostView() == old(HostView()).(mask := mask, dnsServer := dns)
    {
      hide Valid, ArpView, DnsView, TcpView, TcpRxView, UdpView, PingView;
      subnetMask, dnsServerIp := mask, dns;
    }

    method ResolveHostname(hostname: Bytes) returns (ip: Option<u32>)
      requires Valid() && |hostname| <= MAX_HOSTNAME && !Runs.ResolveHostname(View(), hostname).strayed
      modifies this, rxPkt, cache, cache.table, tcpRxBuffer, udpRxBuffer
      ensures Valid() && View() == Runs.ResolveHostname(old(View()), hostname)
      ensures ip == if dnsResolved then Some(dnsResolvedIp) else None
    {
      hide RetryRun, Cache.Valid, PingView;
      dnsResolved := false;
      dnsResolvedIp := 0;
      AwaitAnswer(Lookup(hostname), TIMEOUT_TCP_LOOPS);
      ip := if dnsResolved then Some(dnsResolvedIp) else None;
    }

    method TcpConnect(ip: u32, port: u16) returns (ok: bool)
      requires Valid() && !Runs.TcpConnect(View(), ip, port).strayed
      modifies this, rxPkt, cache, cache.table, tcpRxBuffer, udpRxBuffer
      ensures Valid() && View() == Runs.TcpConnect(old(View()), ip, port)
      ensures ok == (tcpState == Established)
    {
      hide Valid, HostView, RetryRun, Runs.StartConnect;
      OpenSession(ip, port);
      AwaitAnswer(Handshake, TIMEOUT_TCP_LOOPS);
      ok := tcpState == Established;
    }

    method OpenSession(ip: u32, port: u16)
      requires Valid()
      modifies `rngSeed, `tcpRemoteIp, `tcpRemotePort, `tcpLocalPort, `tcpSeq, `tcpAck, `tcpState
      ensures Valid() && HostView() == StartConnect(old(HostView()), ip, port)
    {
      hide Valid, HostView, NextSeed, EphemeralPort;
      SetRemote(ip, port);
      DrawPort();
      var isn := NextRandom();
      SetNumbers(isn, 0);
      SetPhase(SynSent);
    }

    method SetRemote(ip: u32, port: u16)
      requires Valid()
      modifies `tcpRemoteIp, `tcpRemotePort
      ensures Valid() && HostView() == old(HostView()).(tcp := old(HostView().tcp).(remoteIp := ip, remotePort := port))
    {
      hide Valid, ArpView, DnsView, TcpRxView, UdpView, PingView;
      tcpRemoteIp, tcpRemotePort := ip, port;
    }

    /** `rng::get_ephemeral_port` for the session. */
    method DrawPort()
      requires Valid()
      modifies `rngSeed, `tcpLocalPort
      ensures Valid()
      ensures var h := old(HostView()); var s := NextSeed(h.seed);
        HostView() == h.(seed := s, tcp := h.tcp.(localPort := EphemeralPort(s)))
    {
      hide NextSeed, EphemeralPort, Valid, ArpView, DnsView, TcpRxView, UdpView, PingView;
      rngSeed := NextSeed(rngSeed);
      tcpLocalPort := EphemeralPort(rngSeed);
    }

    method TcpSend(data: Bytes) returns (ok: bool)
      requires Valid() && |data| <= MAX_TCP_DATA
      modifies `sent, `rngSeed, `tcpSeq
      ensures Valid() && View() == Runs.TcpSend(old(View()), data)
      ensures ok == (tcpState == Established)
    {
      hide Valid, ArpView, DnsView, TcpRxView, UdpView, PingView, SendTcp;
      SendLeavesSession(HostView(), PSH + ACK, tcpSeq, tcpAck, data);
      if tcpState != Established { return false; }
      SendTcpInternal(PSH + ACK, tcpSeq, tcpAck, data);
      tcpSeq := (tcpSeq + |data|) % TWO32;
      ok := true;
    }

    /** The buffer returned holds what the specification says was read, and no more than it can take. */
    method TcpReceive(buffer: array<byte>, maxLen: nat, timeoutMs: u32) returns (actual: nat, ok: bool)
      requires Valid() && !Runs.TcpReceive(View(), maxLen, timeoutMs).0.strayed
      requires maxLen <= buffer.Length && buffer != rxPkt && buffer != udpRxBuffer
      modifies this, rxPkt, cache, cache.table, buffer, udpRxBuffer
      ensures Valid()
      ensures var (w, data) := Runs.TcpReceive(old(View()), maxLen, timeoutMs);
        View() == w && actual == |data| && actual <= maxLen && buffer[..actual] == data && ok == tcpRxDone
    {
      hide Valid, HostView, WaitRun;
      PostTcp(buffer, maxLen);
      Await(ForTcpData, timeoutMs * 10 % TWO32);
      actual, ok := UnpostTcp();
    }

    method PostTcp(buffer: array<byte>, maxLen: nat)
      requires Valid() && maxLen <= buffer.Length && buffer != rxPkt && buffer != udpRxBuffer
      modifies `tcpRxBuffer, `tcpRxMaxLen, `tcpRxCurrentLen, `tcpRxDone
      ensures Valid() && tcpRxBuffer == buffer && tcpRxMaxLen == maxLen
      ensures HostView() == old(HostView()).(tcp := Act(old(HostView().tcp), Post(maxLen)))
    {
      hide HostView;
      ResetTcp();
      AttachTcp(buffer, maxLen);
    }

    method ResetTcp()
      requires Valid()
      modifies `tcpRxCurrentLen, `tcpRxDone
      ensures Valid() && tcpRxCurrentLen == 0
      ensures HostView() == old(HostView()).(tcp := old(HostView().tcp).(rx := HostView().tcp.rx, done := false))
    {
      hide Cache.Valid, ArpView, DnsView, UdpView, PingView;
      tcpRxCurrentLen, tcpRxDone := 0, false;
    }

    method AttachTcp(buffer: array<byte>, maxLen: nat)
      requires Valid() && maxLen <= buffer.Length && buffer != rxPkt && buffer != udpRxBuffer && tcpRxCurrentLen == 0
      modifies `tcpRxBuffer, `tcpRxMaxLen
      ensures Valid() && tcpRxBuffer == buffer && tcpRxMaxLen == maxLen
      ensures HostView() == old(HostView()).(tcp := old(HostView().tcp).(rx := Some(Posted(maxLen, []))))
    {
      hide Cache.Valid, ArpView, DnsView, PingView;
      tcpRxBuffer, tcpRxMaxLen := buffer, maxLen;
    }

    method UnpostTcp() returns (actual: nat, ok: bool)
      requires Valid() && tcpRxBuffer != null
      modifies `tcpRxBuffer
      ensures Valid() && ok == tcpRxDone && actual <= tcpRxMaxLen <= old(tcpRxBuffer).Length
      ensures HostView() == old(HostView()).(tcp := Act(old(HostView().tcp), Unpost))
      ensures old(HostView()).tcp.rx == Some(Posted(tcpRxMaxLen, old(tcpRxBuffer)[..actual]))
    {
      hide ArpView, DnsView, UdpView, PingView;
      tcpRxBuffer := null;
      actual, ok := tcpRxCurrentLen, tcpRxDone;
    }

    method TcpClose()
      requires Valid() && !Runs.TcpClose(View()).strayed
      modifies this, rxPkt, cache, cache.table, tcpRxBuffer, udpRxBuffer
      ensures Valid() && View() == Runs.TcpClose(old(View()))
    {
      hide Valid, HostView, WaitRun, SendTcp, Act;
      Fields();
      if tcpState == Established {
        SendFin();
        BeginClosing();
        Await(ForTcpClose, TIMEOUT_CLOSE_LOOPS);
      }
      EndSession();
    }

    method BeginClosing()
      requires Valid() && HostView().tcp.phase == Established
      modifies `tcpState
      ensures Valid() && HostView() == old(HostView()).(tcp := Act(old(HostView().tcp), BeginClose))
    {
      hide Valid, ArpView, DnsView, TcpRxView, UdpView, PingView;
      tcpState := FinWait;
    }

    method SendFin()
      requires Valid()
      modifies `sent, `rngSeed
      ensures Valid()
      ensures var h := old(HostView());
        && HostView() == SendTcp(h, FIN + ACK, h.tcp.seqNo, h.tcp.ack, [])
        && HostView().tcp == h.tcp
    {
      hide Ipv4Frame, TcpBytes, NextSeed, Valid, ArpView, DnsView, TcpRxView, UdpView, PingView;
      SendTcpInternal(FIN + ACK, tcpSeq, tcpAck, []);
    }

    method EndSession()
      requires Valid()
      modifies `tcpLocalPort, `tcpState
      ensures Valid() && HostView() == old(HostView()).(tcp := Act(old(HostView().tcp), EndClose))
    {
      hide Valid, ArpView, DnsView, TcpRxView, UdpView, PingView;
      tcpLocalPort, tcpState := 0, Closed;
    }

    method UdpSend(destIp: u32, destPort: u16, data: Bytes)
      requires Valid() && |data| <= MAX_UDP_DATA
      modifies `sent, `rngSeed, `udpLocalPort
      ensures Valid() && View() == Runs.UdpSend(old(View()), destIp, destPort, data)
    {
      hide SendUdp, NextSeed, EphemeralPort, Valid, ArpView, DnsView, TcpView, TcpRxView, PingView;
      if udpLocalPort == 0 {
        rngSeed := NextSeed(rngSeed);
        udpLocalPort := EphemeralPort(rngSeed);
      }
      SendUdpTo(destIp, destPort, udpLocalPort, data);
    }

    method UdpReceive(buffer: array<byte>, maxLen: nat, timeoutMs: u32) returns (actual: nat, ok: bool)
      requires Valid() && !Runs.UdpReceive(View(), maxLen, timeoutMs).0.strayed
      requires maxLen <= buffer.Length && buffer != rxPkt && buffer != tcpRxBuffer
      modifies this, rxPkt, cache, cache.table, buffer, tcpRxBuffer
      ensures Valid()
      ensures var (w, data) := Runs.UdpReceive(old(View()), maxLen, timeoutMs);
        View() == w && actual == |data| && actual <= maxLen && buffer[..actual] == data && ok == udpRxDone
    {
      hide Valid, HostView, WaitRun;
      PostUdp(buffer, maxLen);
      Await(ForUdp, timeoutMs * 10 % TWO32);
      actual, ok := UnpostUdp();
    }

    method PostUdp(buffer: array<byte>, maxLen: nat)
      requires Valid() && maxLen <= buffer.Length && buffer != rxPkt && buffer != tcpRxBuffer
      modifies `udpRxBuffer, `udpRxMaxLen, `udpRxCurrentLen, `udpRxDone
      ensures Valid() && udpRxBuffer == buffer && udpRxMaxLen == maxLen
      ensures HostView() == old(HostView()).(udp := old(HostView().udp).(rx := Some(Posted(maxLen, [])), done := false))
    {
      hide HostView;
      ResetUdp();
      AttachUdp(buffer, maxLen);
    }

    method ResetUdp()
      requires Valid()
      modifies `udpRxCurrentLen, `udpRxDone
      ensures Valid() && udpRxCurrentLen == 0
      ensures HostView() == old(HostView()).(udp := old(HostView().udp).(rx := HostView().udp.rx, done := false))
    {
      hide Cache.Valid, ArpView, DnsView, TcpView, TcpRxView, PingView;
      udpRxCurrentLen, udpRxDone := 0, false;
    }

    method AttachUdp(buffer: array<byte>, maxLen: nat)
      requires Valid() && maxLen <= buffer.Length && buffer != rxPkt && buffer != tcpRxBuffer && udpRxCurrentLen == 0
      modifies `udpRxBuffer, `udpRxMaxLen
      ensures Valid() && udpRxBuffer == buffer && udpRxMaxLen == maxLen
      ensures HostView() == old(HostView()).(udp := old(HostView().udp).(rx := Some(Posted(maxLen, []))))
    {
      hide Cache.Valid, ArpView, DnsView, PingView;
      udpRxBuffer, udpRxMaxLen := buffer, maxLen;
    }

    method UnpostUdp() returns (actual: nat, ok: bool)
      requires Valid() && udpRxBuffer != null
      modifies `udpRxBuffer
      ensures Valid() && ok == udpRxDone && actual <= udpRxMaxLen <= old(udpRxBuffer).Length
      ensures HostView() == old(HostView()).(udp := old(HostView().udp).(rx := None))
      ensures old(HostView()).udp.rx == Some(Posted(udpRxMaxLen, old(udpRxBuffer)[..actual]))
    {
      hide ArpView, DnsView, TcpView, TcpRxView, PingView;
      udpRxBuffer := null;
      actual, ok := udpRxCurrentLen, udpRxDone;
    }

    method Ping(targetIp: u32, timeoutMs: u32) returns (ok: bool)
      requires Valid() && !Runs.Ping(View(), targetIp, timeoutMs).strayed
      modifies this, rxPkt, cache, cache.table, tcpRxBuffer, udpRxBuffer
      ensures Valid() && View() == Runs.Ping(old(View()), targetIp, timeoutMs)
      ensures ok == pingReplyReceived
    {
      hide Valid, HostView, WaitRun, SendEcho, NextSeed;
      DrawEchoNumbers();
      SendIcmpEcho(targetIp, pingId, pingSeq);
      Await(ForEcho, timeoutMs * 10 % TWO32);
      ok := pingReplyReceived;
    }

    method DrawEchoNumbers()
      requires Valid()
      modifies `rngSeed, `pingId, `pingSeq, `pingReplyReceived
      ensures Valid()
      ensures var h := old(HostView()); var s1 := NextSeed(h.seed); var s2 := NextSeed(s1);
        && HostView() == h.(seed := s2, ping := PingState(s1 % 0x1_0000, s2 % 0x1_0000, false))
        && pingId == s1 % 0x1_0000 && pingSeq == s2 % 0x1_0000
    {
      hide Valid, HostView, NextSeed;
      var s1 := NextRandom();
      var s2 := NextRandom();
      AwaitReply(s1 % 0x1_0000, s2 % 0x1_0000);
    }

    /** Only a reply with these numbers counts from now on. */
    method AwaitReply(id: u16, seqNo: u16)
      requires Valid()
      modifies `pingId, `pingSeq, `pingReplyReceived
      ensures Valid() && pingId == id && pingSeq == seqNo
      ensures HostView() == old(HostView()).(ping := PingState(id, seqNo, false))
    {
      hide Valid, ArpView, DnsView, TcpView, TcpRxView, UdpView;
      pingId, pingSeq, pingReplyReceived := id, seqNo, false;
    }
  }
}
