/** What each handler and each API call puts on the wire, read back from the bytes of the frames: to
  * whom, from where, with which numbers and which content (core.hpp, api.hpp). */
module Traffic {
  import opened Words
  import opened Tcp
  import opened Frames
  import opened Hosts
  import opened Runs
  import opened Wire
  import opened TwoStacks

  // ---------- the senders ----------

  /** The frame carries `part` from the stack to `daddr`, by way of the gateway. */
  predicate Carries(f: Bytes, h: Host, daddr: u32, part: Part) {
    match Decode(f)
    case IpPacket(dst, src, _, s, d, content) =>
      dst == h.routerMac && src == h.mac && s == h.ip && d == daddr && content == part
    case _ => false
  }

  /** The same, by way of whatever gateway the stack knew then. */
  predicate SentTo(f: Bytes, h: Host, daddr: u32, part: Part) {
    match Decode(f)
    case IpPacket(_, src, _, s, d, content) => src == h.mac && s == h.ip && d == daddr && content == part
    case _ => false
  }

  /** `g` is `h` with one more frame sent. */
  predicate SentOne(h: Host, g: Host) {
    |g.sent| == |h.sent| + 1 && g == h.(seed := g.seed, sent := h.sent + [LastSent(g)])
  }

  /** Every IPv4 frame goes from the stack's MAC and address to the gateway's MAC, with a fresh
    * identification. */
  lemma IpSent(h: Host, proto: byte, daddr: u32, body: Bytes)
    requires FitsIp(body)
    ensures var g := SendIpv4(h, proto, daddr, body);
      && SentOne(h, g) && Carries(LastSent(g), h, daddr, PartOf(proto, body))
      && Decode(LastSent(g)).id == g.seed % 0x1_0000 && g.seed == NextSeed(h.seed)
  {
    hide Ipv4Frame, Decode, PartOf, NextSeed;
    var s := NextSeed(h.seed);
    IpDecoded(h.routerMac, h.mac, s % 0x1_0000, proto, h.ip, daddr, body);
  }

  lemma TcpSent(h: Host, flags: byte, seqNo: u32, ack: u32, data: Bytes)
    requires flags < 64 && FitsTcp(data)
    ensures var g, t := SendTcp(h, flags, seqNo, ack, data), h.tcp;
      && SentOne(h, g)
      && Carries(LastSent(g), h, t.remoteIp, TcpPart(t.localPort, t.remotePort, seqNo, ack, flags, 0x2000, data))
  {
    hide Carries, SentOne, TcpBytes, PartOf, SendIpv4;
    var t := h.tcp;
    TcpDecoded(h.ip, t.remoteIp, t.localPort, t.remotePort, flags, seqNo, ack, data);
    IpSent(h, PROTO_TCP, t.remoteIp, TcpBytes(h.ip, t.remoteIp, t.localPort, t.remotePort, flags, seqNo, ack, data));
  }

  lemma UdpSent(h: Host, daddr: u32, dport: u16, sport: u16, data: Bytes)
    requires FitsUdp(data)
    ensures var g := SendUdp(h, daddr, dport, sport, data);
      SentOne(h, g) && Carries(LastSent(g), h, daddr, UdpPart(sport, dport, data))
  {
    hide Carries, SentOne, UdpDatagram, PartOf, SendIpv4;
    UdpDecoded(h.ip, daddr, sport, dport, data);
    IpSent(h, PROTO_UDP, daddr, UdpDatagram(h.ip, daddr, sport, dport, data));
  }

  lemma EchoSent(h: Host, daddr: u32, id: u16, seqNo: u16)
    ensures var g, rest := SendEcho(h, daddr, id, seqNo), PingRest(id, seqNo);
      SentOne(h, g) && Carries(LastSent(g), h, daddr, IcmpPart(ECHO_REQUEST, 0, rest))
  {
    hide Carries, SentOne, IcmpMessage, PingRest, PartOf, SendIpv4;
    IcmpDecoded(ECHO_REQUEST, 0, PingRest(id, seqNo));
    IpSent(h, PROTO_ICMP, daddr, IcmpMessage(ECHO_REQUEST, 0, PingRest(id, seqNo)));
  }

  /** What an echo request carries: its numbers, then the bytes 0 to 31. */
  lemma PingRestFields(id: u16, seqNo: u16)
    ensures var r := PingRest(id, seqNo);
      && Be16At(r, 0) == id && Be16At(r, 2) == seqNo && |r| == 36
      && forall i :: 4 <= i < 36 ==> r[i] == i - 4
  {
    hide At, BE16, Be16At, PingPattern;
    var r := PingRest(id, seqNo);
    assert r == BE16(id) + (BE16(seqNo) + PingPattern());
    WholeAt(r);
    AtSplit(r, 0, BE16(id), BE16(seqNo) + PingPattern());
    AtSplit(r, 2, BE16(seqNo), PingPattern());
    ReadWord(r, 0, id);
    ReadWord(r, 2, seqNo);
    PatternAt(r, 4);
  }

  lemma PatternAt(b: Bytes, p: nat)
    requires At(b, p, PingPattern())
    ensures |b| >= p + 32 && forall i :: p <= i < p + 32 ==> b[i] == i - p
  {
    forall i | p <= i < p + 32 ensures b[i] == i - p {
      AtWord(b, p, PingPattern(), i - p);
    }
  }

  // ---------- the handlers ----------

  /** Whether an ARP page asks for the stack's own address. */
  predicate AsksForUs(h: Host, b: PageBytes) {
    Be16At(b, 20) == ARP_REQUEST && b[38..42] == LE32(h.ip) && h.ip != 0
  }

  lemma SameAddress(b: Bytes, i: nat, ip: u32)
    requires i + 4 <= |b|
    ensures Le32At(b, i) == ip <==> b[i..i + 4] == LE32(ip)
  {
    AddressBytes(b, i);
    AtSlice(b, i, LE32(ip));
    if b[i..i + 4] == LE32(ip) {
      ReadAddress(b, i, ip);
    }
  }

  /** An ARP page is answered if and only if it asks for the stack's own address, which must not be
    * zero. The answer goes to the asker, MAC and address, and gives the stack's own. */
  lemma ArpAnswered(h: Host, b: PageBytes)
    requires Be16At(b, 12) == ETHERTYPE_ARP
    ensures !AsksForUs(h, b) ==> Deliver(h, b).sent == h.sent
    ensures AsksForUs(h, b) ==>
      var g := Deliver(h, b);
      && |g.sent| == |h.sent| + 1 && h.sent <= g.sent
      && var f := LastSent(g);
         && |f| == 42 && Be16At(f, 12) == ETHERTYPE_ARP && Be16At(f, 20) == ARP_REPLY
         && f[0..6] == f[32..38] == b[22..28] && f[38..42] == b[28..32]
         && f[6..12] == f[22..28] == h.mac && f[28..32] == LE32(h.ip)
  {
    hide ArpFrame, LE32, Be16At, Le32At;
    SameAddress(b, 38, h.ip);
    if AsksForUs(h, b) {
      var sha, spa := b[22..28], Le32At(b, 28);
      var f := ArpFrame(sha, ARP_REPLY, h.mac, h.ip, sha, spa);
      assert LastSent(Deliver(h, b)) == f;
      WholeAt(f);
      ArpAt(f, sha, ARP_REPLY, h.mac, h.ip, sha, spa);
      SameAddress(f, 28, h.ip);
      AddressBytes(f, 38);
      AddressBytes(b, 28);
    }
  }

  /** An ICMP page is answered if and only if it is an echo request whose length is right and whose
    * answer fits a packet. The answer goes to its source address and carries its identifier, sequence
    * number and payload. */
  lemma EchoOnWire(h: Host, b: PageBytes)
    requires IsIpv4(b, PROTO_ICMP)
    ensures var g, o, len := Deliver(h, b), Layer4(b), IcmpLen(b);
      if IsEchoRequest(b) && 0 <= len <= MAX_PKT_SIZE - 34 then
        && SentOne(h, g) && |LastSent(g)| == 34 + len
        && Carries(LastSent(g), h, Le32At(b, 26),
                   if len < 4 then Malformed else IcmpPart(ECHO_REPLY, 0, b[o + 4..o + len]))
      else g.sent == h.sent
  {
    hide Carries, SentOne, EchoReplyBody, SendIpv4, IcmpMessage, OnTcp, OnUdp;
    var o, len := Layer4(b), IcmpLen(b);
    if IsEchoRequest(b) && 0 <= len <= MAX_PKT_SIZE - 34 {
      var msg := b[o..o + len];
      IpSent(h, PROTO_ICMP, Le32At(b, 26), EchoReplyBody(msg));
      FrameLength(h, PROTO_ICMP, Le32At(b, 26), EchoReplyBody(msg));
      if len >= 4 {
        FullEchoReply(msg);
        IcmpDecoded(ECHO_REPLY, 0, msg[4..]);
        assert msg[4..] == b[o + 4..o + len];
      }
    }
  }

  lemma FrameLength(h: Host, proto: byte, daddr: u32, body: Bytes)
    requires FitsIp(body)
    ensures var g := SendIpv4(h, proto, daddr, body); |g.sent| > 0 && |LastSent(g)| == 34 + |body|
  {
    hide Ipv4Frame, NextSeed;
  }

  function Answer(s: Session, g: Segment, flags: byte, taken: nat): Part {
    TcpPart(s.localPort, s.remotePort, g.ack, (g.seqNo + taken) % TWO32, flags, 0x2000, [])
  }

  /** The answers due to a segment: SYN+ACK is acknowledged; payload and FIN of an open session are,
    * each by a segment of its own, with the numbers of the segment and nothing else. */
  function Due(s: Session, g: Segment): seq<Part> {
    if g.dstPort != s.localPort || s.localPort == 0 || g.Has(RST) then []
    else if s.phase == SynSent then (if g.Has(SYN) && g.Has(ACK) then [Answer(s, g, ACK, 1)] else [])
    else if Open(s.phase) then
      (if g.payload == [] then [] else [Answer(s, g, ACK, |g.payload|)]) +
      (if g.Has(FIN) then [Answer(s, g, FIN + ACK, |g.payload| + 1)] else [])
    else []
  }

  /** `g` is `h` with frames carrying these parts sent. */
  predicate SentAll(h: Host, g: Host, daddr: u32, parts: seq<Part>) {
    && |g.sent| == |h.sent| + |parts| && h.sent <= g.sent
    && forall i :: 0 <= i < |parts| ==> Carries(g.sent[|h.sent| + i], h, daddr, parts[i])
  }

  lemma SegmentAnswered(h: Host, b: PageBytes)
    requires IsIpv4(b, PROTO_TCP)
    ensures SentAll(h, Deliver(h, b), h.tcp.remoteIp, Due(h.tcp, SegmentAt(b)))
  {
    hide SegmentAt, Carries, SendTcp, OnArp, OnIcmp, OnUdp, Segment.Has;
    var s, g := h.tcp, SegmentAt(b);
    var (t, replies) := OnSegment(s, g);
    RepliesSmall(s, g);
    ReplyParts(s, g);
    RepliesCarry(h.(tcp := t), replies, Due(s, g));
    CarriesAlike(h.(tcp := t), h);
  }

  lemma CarriesAlike(h: Host, g: Host)
    requires h.routerMac == g.routerMac && h.mac == g.mac && h.ip == g.ip
    ensures forall f, d, p :: Carries(f, h, d, p) ==> Carries(f, g, d, p)
  {
    hide Decode;
  }

  /** The replies the state machine gives are those due, from the session's own port. */
  lemma ReplyParts(s: Session, g: Segment)
    ensures var (t, replies), due := OnSegment(s, g), Due(s, g);
      && |replies| == |due| && t.localPort == s.localPort && t.remotePort == s.remotePort && t.remoteIp == s.remoteIp
      && forall i :: 0 <= i < |due| ==>
           due[i] == TcpPart(s.localPort, s.remotePort, replies[i].seqNo, replies[i].ack, replies[i].flags, 0x2000, [])
  {
    hide Segment.Has;
  }

  lemma {:induction false} RepliesCarry(h: Host, replies: seq<Reply>, parts: seq<Part>)
    requires forall i :: 0 <= i < |replies| ==> replies[i].flags < 64
    requires |replies| == |parts|
    requires forall i :: 0 <= i < |parts| ==>
      parts[i] ==
      TcpPart(h.tcp.localPort, h.tcp.remotePort, replies[i].seqNo, replies[i].ack, replies[i].flags, 0x2000, [])
    ensures SentAll(h, SendReplies(h, replies), h.tcp.remoteIp, parts)
    decreases |replies|
  {
    hide Carries, SendTcp;
    if |replies| > 0 {
      var g := SendTcp(h, replies[0].flags, replies[0].seqNo, replies[0].ack, []);
      TcpSent(h, replies[0].flags, replies[0].seqNo, replies[0].ack, []);
      RepliesCarry(g, replies[1..], parts[1..]);
      CarriesAlike(g, h);
      var r := SendReplies(h, replies);
      forall i | 0 <= i < |parts| ensures Carries(r.sent[|h.sent| + i], h, h.tcp.remoteIp, parts[i]) {
        if i > 0 {
          assert parts[i] == parts[1..][i - 1] && r.sent[|h.sent| + i] == r.sent[|g.sent| + (i - 1)];
        }
      }
    }
  }

  /** Every other page is taken in without a word. */
  lemma NothingAnswered(h: Host, b: PageBytes)
    requires Be16At(b, 12) != ETHERTYPE_ARP && !IsIpv4(b, PROTO_ICMP) && !IsIpv4(b, PROTO_TCP)
    ensures Deliver(h, b).sent == h.sent
  {
    hide Datagram, DnsAnswer, DatagramAt, OnTcp, OnIcmp, OnArp;
  }

  // ---------- calls that send once ----------

  lemma ReceivedSegment(h: Host, flags: byte, seqNo: u32, ack: u32, data: Bytes)
    requires flags < 64 && FitsTcp(data)
    ensures forall p: PageBytes | Received(p, LastSent(SendTcp(h, flags, seqNo, ack, data))) ::
      SegmentAt(p) == Segment(h.tcp.remotePort, flags, seqNo, ack, data)
  {
    hide SegmentAt, Ipv4Frame, TcpBytes, SegmentFits, NextSeed;
    forall p: PageBytes | Received(p, LastSent(SendTcp(h, flags, seqNo, ack, data)))
      ensures SegmentAt(p) == Segment(h.tcp.remotePort, flags, seqNo, ack, data)
    {
      TcpRoundTrip(h, flags, seqNo, ack, data, p);
    }
  }

  /** `tcp_send`: an established session puts exactly one segment on the wire, with the data, from the
    * session's port to the peer's, under the session's numbers, and any stack that receives it reads
    * it so; in any other phase nothing is sent. No frame is consumed. */
  lemma SendOnWire(w: World, data: Bytes)
    requires |data| <= MAX_TCP_DATA
    ensures var r, t := TcpSend(w, data), w.h.tcp;
      if t.phase == Established then
        && r.inbox == w.inbox && |r.h.sent| == |w.h.sent| + 1 && w.h.sent <= r.h.sent
        && Carries(LastSent(r.h), w.h, t.remoteIp,
                   TcpPart(t.localPort, t.remotePort, t.seqNo, t.ack, PSH + ACK, 0x2000, data))
        && forall p: PageBytes | Received(p, LastSent(r.h)) ::
             SegmentAt(p) == Segment(t.remotePort, PSH + ACK, t.seqNo, t.ack, data)
      else r == w
  {
    hide Carries, SendTcp, SegmentAt, Received;
    TcpSent(w.h, PSH + ACK, w.h.tcp.seqNo, w.h.tcp.ack, data);
    ReceivedSegment(w.h, PSH + ACK, w.h.tcp.seqNo, w.h.tcp.ack, data);
  }

  /** `tcp_close`: an established session says so first, with FIN+ACK under its numbers; in any other
    * phase nothing is sent and no frame is consumed. Either way the session is closed and its port
    * free. */
  lemma CloseOnWire(w: World)
    ensures var r, t := TcpClose(w), w.h.tcp;
      && r.h.tcp.phase == Closed && r.h.tcp.localPort == 0 && w.h.sent <= r.h.sent
      && if t.phase == Established then
           && |r.h.sent| > |w.h.sent|
           && Carries(r.h.sent[|w.h.sent|], w.h, t.remoteIp,
                      TcpPart(t.localPort, t.remotePort, t.seqNo, t.ack, FIN + ACK, 0x2000, []))
         else r.h.sent == w.h.sent && r.inbox == w.inbox
  {
    hide Carries, SendTcp, WaitRun;
    var h := SendTcp(w.h, FIN + ACK, w.h.tcp.seqNo, w.h.tcp.ack, []);
    TcpSent(w.h, FIN + ACK, w.h.tcp.seqNo, w.h.tcp.ack, []);
    WaitRunExtends(ForTcpClose, w.(h := h.(tcp := Act(h.tcp, BeginClose))), TIMEOUT_CLOSE_LOOPS);
  }

  /** `udp_send`: exactly one datagram, with the data, to the address and port given, from the stack's
    * own port, which is drawn by the first send and kept. */
  lemma UdpSendOnWire(w: World, ip: u32, port: u16, data: Bytes)
    requires |data| <= MAX_UDP_DATA
    ensures var r := UdpSend(w, ip, port, data); var own := r.h.udp.localPort;
      && r.inbox == w.inbox && |r.h.sent| == |w.h.sent| + 1 && w.h.sent <= r.h.sent
      && Carries(LastSent(r.h), w.h, ip, UdpPart(own, port, data))
      && own != 0 && own == if w.h.udp.localPort == 0 then EphemeralPort(NextSeed(w.h.seed)) else w.h.udp.localPort
  {
    hide Carries, SendUdp, NextSeed, EphemeralPort;
    var s := NextSeed(w.h.seed);
    var h := if w.h.udp.localPort == 0 then w.h.(seed := s, udp := w.h.udp.(localPort := EphemeralPort(s))) else w.h;
    UdpSent(h, ip, port, h.udp.localPort, data);
    CarriesAlike(h, w.h);
  }
}
