/** What one stack builds, another stack reads back: round trips through the wire. A page `p` has
  * received frame `f` when it starts with it; what follows the frame is arbitrary. */
module TwoStacks {
  import opened Words
  import opened NetMath
  import opened ArpFifo
  import opened Tcp
  import opened Frames
  import opened Hosts
  import opened Runs
  import opened Wire
  import Dns

  predicate Received(p: PageBytes, f: Bytes) {
    At(p, 0, f)
  }

  /** The frame a host transmitted last. */
  function LastSent(h: Host): Bytes
    requires |h.sent| > 0
  {
    h.sent[|h.sent| - 1]
  }

  /** A received IPv4 frame has its body at offset 34. */
  lemma BodyAt(p: PageBytes, dst: Mac, src: Mac, id: u16, proto: byte, s: u32, d: u32, body: Bytes)
    requires FitsIp(body) && Received(p, Ipv4Frame(dst, src, id, proto, s, d, body))
    ensures IsIpv4(p, proto) && p[14] == 0x45 && IpHeaderLen(p) == 20 && Layer4(p) == 34
    ensures Be16At(p, 16) == 20 + |body| && 34 + |body| <= PAGE_SIZE
    ensures Le32At(p, 26) == s && Le32At(p, 30) == d && At(p, 34, body)
  {
    hide Ipv4Frame, At;
    Ipv4Fields(p, dst, src, id, proto, s, d, body);
  }

  // ---------- ping ----------

  lemma IcmpBody(p: PageBytes, kind: byte, code: byte, rest: Bytes)
    requires At(p, 34, IcmpMessage(kind, code, rest))
    ensures p[34] == kind && p[35] == code && p[38..38 + |rest|] == rest
  {
    var m := IcmpMessage(kind, code, rest);
    var c := LE16(Cksum([kind, code] + [0, 0] + rest));
    AtWord(p, 34, m, 0);
    AtWord(p, 34, m, 1);
    assert m == [kind, code] + c + rest;
    AtSplit(p, 34, [kind, code] + c, rest);
    AtSlice(p, 38, rest);
  }

  /** An echo request received is answered with the same identifier, sequence number and payload. */
  lemma EchoAnswered(h: Host, p: PageBytes, dst: Mac, src: Mac, id: u16, s: u32, d: u32, rest: Bytes)
    requires 4 <= |rest| && |rest| + 38 <= MAX_PKT_SIZE
    requires Received(p, Ipv4Frame(dst, src, id, PROTO_ICMP, s, d, IcmpMessage(ECHO_REQUEST, 0, rest)))
    ensures !Strays(h, p) && Deliver(h, p) == SendIpv4(h, PROTO_ICMP, s, IcmpMessage(ECHO_REPLY, 0, rest))
  {
    hide IcmpMessage, Ipv4Frame, At, EchoReplyBody, SendIpv4, SegmentAt, DatagramAt;
    BodyAt(p, dst, src, id, PROTO_ICMP, s, d, IcmpMessage(ECHO_REQUEST, 0, rest));
    IcmpBody(p, ECHO_REQUEST, 0, rest);
    var msg := p[34..38 + |rest|];
    assert msg[4..] == rest;
    FullEchoReply(msg);
  }

  /** An echo reply received is noticed if and only if identifier and sequence number match. */
  lemma ReplyNoticed(h: Host, p: PageBytes, dst: Mac, src: Mac, id: u16, s: u32, d: u32, echoId: u16,
    echoSeq: u16)
    requires Received(p, Ipv4Frame(dst, src, id, PROTO_ICMP, s, d,
      IcmpMessage(ECHO_REPLY, 0, PingRest(echoId, echoSeq))))
    ensures !Strays(h, p)
    ensures Deliver(h, p).ping.replied <==> h.ping.replied || (echoId == h.ping.id && echoSeq == h.ping.seqNo)
  {
    var rest := PingRest(echoId, echoSeq);
    BodyAt(p, dst, src, id, PROTO_ICMP, s, d, IcmpMessage(ECHO_REPLY, 0, rest));
    IcmpBody(p, ECHO_REPLY, 0, rest);
    SwapWord(echoId);
    SwapWord(echoSeq);
    assert p[38] == p[38..38 + |rest|][0] && p[39] == p[38..38 + |rest|][1];
    assert p[40] == p[38..38 + |rest|][2] && p[41] == p[38..38 + |rest|][3];
  }

  /** Two-stack ping, for all identifiers, sequence numbers and addresses: the request of one stack
    * handled by the other produces exactly one reply, which the first stack, still waiting for these
    * numbers, takes for its answer. */
  lemma PingRoundTrip(a: Host, b: Host, target: u32, id: u16, seqNo: u16, p: PageBytes, q: PageBytes,
    later: Host)
    requires Received(p, LastSent(SendEcho(a, target, id, seqNo)))
    requires |Deliver(b, p).sent| > 0 && Received(q, LastSent(Deliver(b, p)))
    requires later.ping.id == id && later.ping.seqNo == seqNo
    ensures !Strays(b, p) && |Deliver(b, p).sent| == |b.sent| + 1
    ensures !Strays(later, q) && Deliver(later, q).ping.replied
  {
    hide Ipv4Frame, Received, Deliver, Strays, PingRest;
    var n, rest := NextSeed(a.seed) % 0x1_0000, PingRest(id, seqNo);
    EchoAnswered(b, p, a.routerMac, a.mac, n, a.ip, target, rest);
    ReplyNoticed(later, q, b.routerMac, b.mac, NextSeed(b.seed) % 0x1_0000, b.ip, a.ip, id, seqNo);
  }

  // ---------- UDP ----------

  lemma UdpBody(p: PageBytes, s: u32, d: u32, sport: u16, dport: u16, data: Bytes)
    requires FitsUdp(data) && At(p, 34, UdpDatagram(s, d, sport, dport, data))
    ensures Be16At(p, 34) == sport && Be16At(p, 36) == dport && Be16At(p, 38) == 8 + |data|
    ensures At(p, 42, data)
  {
    var m, first := UdpDatagram(s, d, sport, dport, data), UdpFirst(sport, dport, 8 + |data|);
    var c := LE16(UdpCheck(s, d, first, data));
    assert m == first + c + data;
    AtSplit(p, 34, first + c, data);
    AtSplit(p, 34, first, c);
    hide UdpCheck;
    AtWord(p, 34, first, 0);
    AtWord(p, 34, first, 2);
    AtWord(p, 34, first, 4);
    SwapWord(sport);
    SwapWord(dport);
    SwapWord(8 + |data|);
  }

  /** A datagram from any port but that of DNS never takes the receiver outside its page. */
  lemma UdpStaysInside(h: Host, p: PageBytes, dst: Mac, src: Mac, id: u16, s: u32, d: u32, sport: u16,
    dport: u16, data: Bytes)
    requires FitsUdp(data) && sport != PORT_DNS
    requires Received(p, Ipv4Frame(dst, src, id, PROTO_UDP, s, d, UdpDatagram(s, d, sport, dport, data)))
    ensures !Strays(h, p)
  {
    hide Ipv4Frame, UdpDatagram, At;
    BodyAt(p, dst, src, id, PROTO_UDP, s, d, UdpDatagram(s, d, sport, dport, data));
    UdpBody(p, s, d, sport, dport, data);
  }

  /** UDP round trip: a datagram to the receiver's port with a buffer posted delivers exactly its
    * payload, cut to the buffer; in particular all of it when it fits, and to no other port. */
  lemma UdpRoundTrip(a: Host, b: Host, daddr: u32, dport: u16, sport: u16, data: Bytes, p: PageBytes)
    requires FitsUdp(data) && Received(p, LastSent(SendUdp(a, daddr, dport, sport, data)))
    ensures Deliver(b, p).udp ==
      if dport == b.udp.localPort && dport != 0 && data != [] && b.udp.rx.Some?
      then b.udp.(rx := Some(Posted(b.udp.rx.value.max, data[..Min(|data|, b.udp.rx.value.max)])), done := true)
      else b.udp
    ensures Be16At(p, 34) == sport && Le32At(p, 26) == a.ip && Le32At(p, 30) == daddr
  {
    hide Ipv4Frame, UdpDatagram, At, DnsAnswer;
    var n := NextSeed(a.seed) % 0x1_0000;
    BodyAt(p, a.routerMac, a.mac, n, PROTO_UDP, a.ip, daddr, UdpDatagram(a.ip, daddr, sport, dport, data));
    UdpBody(p, a.ip, daddr, sport, dport, data);
    AtSlice(p, 42, data);
  }

  // ---------- TCP ----------

  lemma TcpBody(p: PageBytes, s: u32, d: u32, sport: u16, dport: u16, flags: byte, seqNo: u32, ack: u32,
    data: Bytes)
    requires flags < 64 && FitsTcp(data) && At(p, 34, TcpBytes(s, d, sport, dport, flags, seqNo, ack, data))
    ensures Be16At(p, 34) == sport && Be16At(p, 36) == dport && Be32At(p, 38) == seqNo && Be32At(p, 42) == ack
    ensures Be16At(p, 46) == 0x5000 + flags && At(p, 54, data)
  {
    var first := TcpFirst(sport, dport, flags, seqNo, ack);
    var c := LE16(TcpCheck(s, d, first, data));
    assert TcpBytes(s, d, sport, dport, flags, seqNo, ack, data) == first + (c + [0, 0] + data);
    hide TcpCheck, TcpBytes;
    AtSplit(p, 34, first, c + [0, 0] + data);
    AtSplit(p, 50, c + [0, 0], data);
    FirstFields(p, 34, sport, dport, flags, seqNo, ack);
  }

  /** A page that receives a segment, whoever built it. */
  lemma SegmentReceived(p: PageBytes, dst: Mac, src: Mac, n: u16, s: u32, d: u32, sport: u16, dport: u16, flags: byte,
    seqNo: u32, ack: u32, data: Bytes)
    requires flags < 64 && FitsTcp(data)
    requires Received(p, Ipv4Frame(dst, src, n, PROTO_TCP, s, d,
      TcpBytes(s, d, sport, dport, flags, seqNo, ack, data)))
    ensures SegmentFits(p) && IsIpv4(p, PROTO_TCP) && SegmentAt(p) == Segment(dport, flags, seqNo, ack, data)
    ensures Be16At(p, 34) == sport && Le32At(p, 26) == s && Le32At(p, 30) == d
  {
    hide Ipv4Frame, TcpBytes, At;
    BodyAt(p, dst, src, n, PROTO_TCP, s, d, TcpBytes(s, d, sport, dport, flags, seqNo, ack, data));
    TcpBody(p, s, d, sport, dport, flags, seqNo, ack, data);
    OffsetAndFlags(flags);
    PlainLengths(p, data);
    hide PayloadAt, TcpHeaderLen, TcpPayloadLen, SegmentRoom, SegmentFits;
  }

  /** A segment never takes the receiver outside its page, whatever it has posted. */
  lemma TcpStaysInside(h: Host, p: PageBytes, dst: Mac, src: Mac, n: u16, s: u32, d: u32, sport: u16, dport: u16,
    flags: byte, seqNo: u32, ack: u32, data: Bytes)
    requires flags < 64 && FitsTcp(data)
    requires Received(p, Ipv4Frame(dst, src, n, PROTO_TCP, s, d,
      TcpBytes(s, d, sport, dport, flags, seqNo, ack, data)))
    ensures !Strays(h, p)
  {
    hide Ipv4Frame, TcpBytes, Received, TcpHeaderLen, Layer4, DatagramAt, Dns.WalkMessage, Segment.Has;
    SegmentReceived(p, dst, src, n, s, d, sport, dport, flags, seqNo, ack, data);
  }

  /** TCP round trip: what `send_tcp_internal` builds, `handle_tcp` decodes to the same port, flags,
    * numbers and payload, from the session's own port and between its addresses, for every segment that
    * fits. */
  lemma TcpRoundTrip(a: Host, flags: byte, seqNo: u32, ack: u32, data: Bytes, p: PageBytes)
    requires flags < 64 && FitsTcp(data) && Received(p, LastSent(SendTcp(a, flags, seqNo, ack, data)))
    ensures SegmentFits(p) && IsIpv4(p, PROTO_TCP)
    ensures SegmentAt(p) == Segment(a.tcp.remotePort, flags, seqNo, ack, data)
    ensures Be16At(p, 34) == a.tcp.localPort && Le32At(p, 26) == a.ip && Le32At(p, 30) == a.tcp.remoteIp
  {
    hide Ipv4Frame, TcpBytes, Received, SegmentAt, SegmentFits, NextSeed;
    SegmentReceived(p, a.routerMac, a.mac, NextSeed(a.seed) % 0x1_0000, a.ip, a.tcp.remoteIp, a.tcp.localPort,
      a.tcp.remotePort, flags, seqNo, ack, data);
  }

  /** The payload behind headers of 20 bytes each. */
  lemma PlainLengths(p: PageBytes, data: Bytes)
    requires p[14] == 0x45 && Layer4(p) == 34 && Be16At(p, 46) / 0x1000 == 5 && Be16At(p, 16) == 40 + |data|
    requires At(p, 54, data)
    ensures SegmentFits(p) && PayloadAt(p) == data
  {
    AtSlice(p, 54, data);
    hide At, Layer4, Be16At;
  }

  lemma OffsetAndFlags(flags: byte)
    requires flags < 64
    ensures (0x5000 + flags) / 0x1000 == 5 && (0x5000 + flags) % 64 == flags
  {
  }

  // ---------- ARP ----------

  /** ARP agreement: a request for the other stack's address, answered by that stack, resolves the
    * pending target to its MAC, in the target and in the cache; so does the gateway's. The reply goes to
    * the stack that asked. */
  lemma ArpRoundTrip(a: Host, b: Host, p: PageBytes, q: PageBytes)
    requires b.ip != 0 && a.router == b.ip && a.arp.target == a.router && Bounded(a.arp.cache)
    requires Received(p, LastSent(Request(Gateway, a)))
    requires |Deliver(b, p).sent| > 0 && Received(q, LastSent(Deliver(b, p)))
    ensures |Deliver(b, p).sent| == |b.sent| + 1
    ensures var c := Deliver(a, q);
      && c.arp.resolved && c.arp.targetMac == b.mac && c.routerMac == b.mac
      && Find(c.arp.cache, b.ip) == Some(b.mac)
    ensures q[0..6] == q[32..38] == a.mac && Le32At(q, 38) == a.ip
  {
    hide At, ArpFrame;
    ArpAt(p, BROADCAST_MAC, ARP_REQUEST, a.mac, a.ip, [0, 0, 0, 0, 0, 0], a.router);
    ArpAt(q, a.mac, ARP_REPLY, b.mac, b.ip, a.mac, a.ip);
    FindAfterLearn(a.arp.cache, b.ip, b.mac, b.ip);
  }

  // ---------- DNS ----------

  /** A DNS message: header counts, questions, answers, and anything behind them. */
  function DnsMessage(id: u16, flags: u16, qs: seq<Dns.Question>, rs: seq<Dns.Record>, ns: u16, ar: u16,
    more: Bytes): Bytes
    requires |qs| < 0x1_0000 && |rs| < 0x1_0000
    requires forall i :: 0 <= i < |rs| ==> rs[i].Valid()
  {
    DnsHeader(id, flags, |qs|, |rs|, ns, ar) + ((Dns.QuestionBytes(qs) + Dns.RecordBytes(rs)) + more)
  }

  function DnsHeader(id: u16, flags: u16, qd: u16, an: u16, ns: u16, ar: u16): (r: Bytes)
    ensures |r| == 12
  {
    BE16(id) + BE16(flags) + BE16(qd) + BE16(an) + BE16(ns) + BE16(ar)
  }

  lemma DnsHeaderFields(p: Bytes, o: nat, id: u16, flags: u16, qd: u16, an: u16, ns: u16, ar: u16)
    requires At(p, o, DnsHeader(id, flags, qd, an, ns, ar))
    ensures o + 12 <= |p|
    ensures Be16At(p, o) == id && Be16At(p, o + 2) == flags && Be16At(p, o + 4) == qd && Be16At(p, o + 6) == an
  {
    hide Htons;
    var m := DnsHeader(id, flags, qd, an, ns, ar);
    AtWord(p, o, m, 0);
    AtWord(p, o, m, 2);
    AtWord(p, o, m, 4);
    AtWord(p, o, m, 6);
    SwapWord(id);
    SwapWord(flags);
    SwapWord(qd);
    SwapWord(an);
  }

  /** DNS answers are parsed correctly, end to end: for any questions and any valid answers, a
    * response to the pending query resolves it to the first A record of length 4, if there is one,
    * and otherwise changes nothing; every other datagram leaves the query as it is. */
  lemma {:induction false} DnsResponseResolves(h: Host, p: PageBytes, dst: Mac, src: Mac, n: u16, s: u32, d: u32,
    sport: u16, dport: u16, id: u16, flags: u16, qs: seq<Dns.Question>, rs: seq<Dns.Record>, ns: u16, ar: u16,
    more: Bytes)
    requires |qs| < 0x1_0000 && |rs| < 0x1_0000
    requires forall i :: 0 <= i < |qs| ==> Dns.Sized(qs[i].labels, 1, 0xFF)
    requires forall i :: 0 <= i < |rs| ==> rs[i].Valid()
    requires FitsUdp(DnsMessage(id, flags, qs, rs, ns, ar, more))
    requires Received(p, Ipv4Frame(dst, src, n, PROTO_UDP, s, d,
      UdpDatagram(s, d, sport, dport, DnsMessage(id, flags, qs, rs, ns, ar, more))))
    ensures !Strays(h, p)
    ensures Deliver(h, p).dns ==
      if dport == h.dns.port && dport != 0 && sport == PORT_DNS && id == h.dns.id && flags >= 0x8000
        && Dns.FirstAddress(rs).Some?
      then h.dns.(ip := Dns.FirstAddress(rs).value, resolved := true) else h.dns
  {
    hide *;
    DnsPageRead(p, dst, src, n, s, d, sport, dport, id, flags, qs, rs, ns, ar, more);
    if |rs| == 0 { NoRecords(rs); }
    ResponseRead(h, p, |qs|, |rs|, Dns.FirstAddress(rs));
  }

  /** A page that receives a DNS message. */
  lemma DnsPageRead(p: PageBytes, dst: Mac, src: Mac, n: u16, s: u32, d: u32, sport: u16, dport: u16, id: u16,
    flags: u16, qs: seq<Dns.Question>, rs: seq<Dns.Record>, ns: u16, ar: u16, more: Bytes)
    requires |qs| < 0x1_0000 && |rs| < 0x1_0000
    requires forall i :: 0 <= i < |qs| ==> Dns.Sized(qs[i].labels, 1, 0xFF)
    requires forall i :: 0 <= i < |rs| ==> rs[i].Valid()
    requires FitsUdp(DnsMessage(id, flags, qs, rs, ns, ar, more))
    requires Received(p, Ipv4Frame(dst, src, n, PROTO_UDP, s, d,
      UdpDatagram(s, d, sport, dport, DnsMessage(id, flags, qs, rs, ns, ar, more))))
    ensures IsIpv4(p, PROTO_UDP) && Layer4(p) == 34 && 8 <= Be16At(p, 38) <= PAGE_SIZE - 34
    ensures Be16At(p, 34) == sport && Be16At(p, 36) == dport && Be16At(p, 42) == id && Be16At(p, 44) == flags
    ensures Be16At(p, 46) == |qs| && Be16At(p, 48) == |rs|
    ensures Dns.WalkMessage(p, 54, |qs|, |rs|) ==
      match Dns.FirstAddress(rs) case Some(ip) => Dns.Address(ip) case None => Dns.NoAddress
  {
    hide At, Received, Ipv4Frame, UdpDatagram, DnsMessage, Dns.WalkMessage, Dns.FirstAddress, Dns.Sized, IsIpv4, Layer4,
         Be16At;
    var data := DnsMessage(id, flags, qs, rs, ns, ar, more);
    BodyAt(p, dst, src, n, PROTO_UDP, s, d, UdpDatagram(s, d, sport, dport, data));
    UdpBody(p, s, d, sport, dport, data);
    MessageFields(p, 42, id, flags, qs, rs, ns, ar, more);
  }

  lemma MessageFields(p: Bytes, o: nat, id: u16, flags: u16, qs: seq<Dns.Question>, rs: seq<Dns.Record>,
    ns: u16, ar: u16, more: Bytes)
    requires |qs| < 0x1_0000 && |rs| < 0x1_0000
    requires forall i :: 0 <= i < |qs| ==> Dns.Sized(qs[i].labels, 1, 0xFF)
    requires forall i :: 0 <= i < |rs| ==> rs[i].Valid()
    requires At(p, o, DnsMessage(id, flags, qs, rs, ns, ar, more))
    ensures o + 12 <= |p|
    ensures Be16At(p, o) == id && Be16At(p, o + 2) == flags && Be16At(p, o + 4) == |qs| && Be16At(p, o + 6) == |rs|
    ensures Dns.WalkMessage(p, o + 12, |qs|, |rs|) ==
      match Dns.FirstAddress(rs) case Some(ip) => Dns.Address(ip) case None => Dns.NoAddress
  {
    hide At, DnsHeader, Dns.WalkMessage, Dns.FirstAddress, Dns.QuestionBytes, Dns.RecordBytes, Dns.Sized;
    var head, body := DnsHeader(id, flags, |qs|, |rs|, ns, ar), Dns.QuestionBytes(qs) + Dns.RecordBytes(rs);
    AtSplit(p, o, head, body + more);
    AtSplit(p, o + 12, body, more);
    DnsHeaderFields(p, o, id, flags, |qs|, |rs|, ns, ar);
    Dns.MessageWalked(qs, rs, p, o + 12);
  }

  /** What the dispatcher makes of a datagram whose DNS walk is known. */
  lemma ResponseRead(h: Host, p: PageBytes, questions: u16, answers: u16, first: Option<u32>)
    requires IsIpv4(p, PROTO_UDP) && Layer4(p) == 34
    requires 8 <= Be16At(p, 38) <= PAGE_SIZE - 34
    requires Be16At(p, 46) == questions && Be16At(p, 48) == answers && (answers == 0 ==> first == None)
    requires Dns.WalkMessage(p, 54, questions, answers) ==
      match first case Some(ip) => Dns.Address(ip) case None => Dns.NoAddress
    ensures !Strays(h, p)
    ensures Deliver(h, p).dns ==
      if Be16At(p, 36) == h.dns.port && Be16At(p, 36) != 0 && Be16At(p, 34) == PORT_DNS && Be16At(p, 42) == h.dns.id
         && Be16At(p, 44) >= 0x8000 && first.Some?
      then h.dns.(ip := first.value, resolved := true) else h.dns
  {
  }

  lemma NoRecords(rs: seq<Dns.Record>)
    requires |rs| == 0
    ensures Dns.FirstAddress(rs) == None
  {
  }

  /** A lookup on the wire: the query goes to port 53 of the configured server (8.8.8.8 without one)
    * from the ephemeral port and with the identifier the stack then waits for, asks one question,
    * and the name in it decodes to the labels of the host name if and only if each has between 1
    * and 63 bytes. */
  lemma QueryOnWire(h: Host, host: Bytes, p: PageBytes)
    requires |host| <= MAX_HOSTNAME && Received(p, LastSent(SendQuery(h, host)))
    ensures var g := SendQuery(h, host);
      && IsIpv4(p, PROTO_UDP) && Le32At(p, 26) == h.ip
      && Le32At(p, 30) == (if h.dnsServer != 0 then h.dnsServer else 0x0808_0808)
      && Be16At(p, 34) == g.dns.port >= EPHEMERAL_PORT_BASE && Be16At(p, 36) == PORT_DNS
      && Be16At(p, 42) == g.dns.id && Be16At(p, 44) == 0x0100 && Be16At(p, 46) == 1
      && (Dns.Decode(p, 54) == Some(Dns.Split(host)) <==> Dns.Sized(Dns.Split(host), 1, Dns.MAX_LABEL))
      && At(p, 54 + |host| + 2, BE16(Dns.TYPE_A) + BE16(Dns.CLASS_IN))
  {
    hide Ipv4Frame, UdpDatagram, At, DnsQuery, NextSeed, Dns.Decode, Dns.Split, Dns.Sized;
    var g, n := SendQuery(h, host), NextSeed(h.seed) % 0x1_0000;
    var server := DnsServer(h);
    var data := DnsQuery(g.dns.id, host);
    BodyAt(p, h.routerMac, h.mac, n, PROTO_UDP, h.ip, server, UdpDatagram(h.ip, server, g.dns.port, PORT_DNS, data));
    Ipv4Fields(p, h.routerMac, h.mac, n, PROTO_UDP, h.ip, server,
      UdpDatagram(h.ip, server, g.dns.port, PORT_DNS, data));
    UdpBody(p, h.ip, server, g.dns.port, PORT_DNS, data);
    QuestionRead(p, g.dns.id, host);
  }

  lemma {:induction false} QuestionRead(p: PageBytes, id: u16, host: Bytes)
    requires At(p, 42, DnsQuery(id, host))
    ensures Be16At(p, 42) == id && Be16At(p, 44) == 0x0100 && Be16At(p, 46) == 1
    ensures Dns.Decode(p, 54) == Some(Dns.Split(host)) <==> Dns.Sized(Dns.Split(host), 1, Dns.MAX_LABEL)
    ensures At(p, 54 + |host| + 2, BE16(Dns.TYPE_A) + BE16(Dns.CLASS_IN))
  {
    var head, tail := BE16(id) + [1, 0, 0, 1, 0, 0, 0, 0, 0, 0], BE16(Dns.TYPE_A) + BE16(Dns.CLASS_IN);
    assert DnsQuery(id, host) == head + (Dns.QName(host) + tail);
    Dns.QNameLength(host);
    SwapWord(id);
    hide At, DnsQuery, Dns.QName, Dns.Decode, Dns.Split, Dns.Sized;
    AtSplit(p, 42, head, Dns.QName(host) + tail);
    AtSplit(p, 54, Dns.QName(host), tail);
    AtWord(p, 42, head, 0);
    AtWord(p, 42, head, 2);
    AtWord(p, 42, head, 4);
    Dns.NameRoundTrip(host, p, 54);
  }
}
