/** The calls that ask and wait (api.hpp): what their requests say on the wire, and that the peer's answer
  * to exactly that request is what they take for one. */
module Requests {
  import opened Words
  import opened Tcp
  import opened Frames
  import opened Hosts
  import opened Runs
  import opened Wire
  import opened TwoStacks
  import opened Traffic
  import opened Pacing
  import opened Outcomes

  // ---------- ping ----------

  lemma {:induction false} EchoKeepsNumbers(w: World, n: nat)
    ensures var r, p := WaitRun(ForEcho, w, n).h.ping, w.h.ping; r.id == p.id && r.seqNo == p.seqNo
    decreases n
  {
    hide Poll;
    if n > 0 && !w.h.ping.replied {
      PollPing(w);
      EchoKeepsNumbers(Poll(w), n - 1);
    }
  }

  /** `ping` on the wire: its first frame is an echo request to the target with the two numbers drawn for
    * this call, in this order, which are those it then waits for, and the bytes 0 to 31. */
  lemma PingOnWire(w: World, ip: u32, timeoutMs: u32)
    ensures var r := Ping(w, ip, timeoutMs).h;
      && |r.sent| > |w.h.sent| && w.h.sent <= r.sent
      && var rest := PingRest(r.ping.id, r.ping.seqNo); var f := r.sent[|w.h.sent|];
         && Carries(f, w.h, ip, IcmpPart(ECHO_REQUEST, 0, rest))
         && Be16At(rest, 0) == r.ping.id == NextSeed(w.h.seed) % 0x1_0000
         && Be16At(rest, 2) == r.ping.seqNo == NextSeed(NextSeed(w.h.seed)) % 0x1_0000
         && |rest| == 36 && forall i :: 4 <= i < 36 ==> rest[i] == i - 4
  {
    hide Carries, WaitRun, NextSeed, PingRest, SendEcho;
    var s1 := NextSeed(w.h.seed);
    var s2 := NextSeed(s1);
    var h := w.h.(seed := s2, ping := PingState(s1 % 0x1_0000, s2 % 0x1_0000, false));
    var v := w.(h := SendEcho(h, ip, h.ping.id, h.ping.seqNo));
    EchoSent(h, ip, h.ping.id, h.ping.seqNo);
    CarriesAlike(h, w.h);
    EchoKeepsNumbers(v, MaxLoops(timeoutMs));
    WaitRunExtends(ForEcho, v, MaxLoops(timeoutMs));
    PingRestFields(h.ping.id, h.ping.seqNo);
  }

  lemma NoticedIsAnswer(h: Host, q: PageBytes)
    requires !h.ping.replied && Deliver(h, q).ping.replied
    ensures AnswersPing(Page(q), h.ping.id, h.ping.seqNo)
  {
    hide Deliver, AnswersPing;
    PollPing(World(h, [Page(q)], false));
  }

  /** Ping, end to end: when the answer of another stack to the request that this call sent is among the
    * frames that ten polls a millisecond reach, the call succeeds. */
  lemma PingAnswered(w: World, ip: u32, timeoutMs: u32, b: Host, p: PageBytes, q: PageBytes, k: nat)
    requires |Ping(w, ip, timeoutMs).h.sent| > |w.h.sent|
    requires Received(p, Ping(w, ip, timeoutMs).h.sent[|w.h.sent|])
    requires |Deliver(b, p).sent| > 0 && Received(q, LastSent(Deliver(b, p)))
    requires k < |w.inbox| && k < timeoutMs * 10 % TWO32 && w.inbox[k] == Page(q)
    ensures Ping(w, ip, timeoutMs).h.ping.replied
  {
    hide WaitRun, NextSeed, PingRest, SendIpv4, Deliver, Received, AnswersPing, Strays;
    var s1 := NextSeed(w.h.seed);
    var s2 := NextSeed(s1);
    var h := w.h.(seed := s2, ping := PingState(s1 % 0x1_0000, s2 % 0x1_0000, false));
    var v := w.(h := SendEcho(h, ip, h.ping.id, h.ping.seqNo));
    EchoSent(h, ip, h.ping.id, h.ping.seqNo);
    WaitRunExtends(ForEcho, v, MaxLoops(timeoutMs));
    PingRoundTrip(h, b, ip, h.ping.id, h.ping.seqNo, p, q, h);
    NoticedIsAnswer(h, q);
    PingOutcome(w, ip, timeoutMs);
    assert AnswersPing(w.inbox[k], h.ping.id, h.ping.seqNo);
  }

  // ---------- the requests of the retrying loops ----------

  /** What a request of each loop says on the wire, sent by `h`. */
  predicate Proper(k: Retry, h: Host, f: Bytes)
    requires FitsRetry(k)
  {
    match (k, Decode(f))
    case (Gateway, ArpMessage(dst, src, oper, sha, spa, tha, tpa)) =>
      && dst == BROADCAST_MAC && src == sha == h.mac && oper == ARP_REQUEST
      && spa == h.ip && tha == [0, 0, 0, 0, 0, 0] && tpa == h.router
    case (Lookup(host), IpPacket(_, src, _, s, d, UdpPart(sport, dport, data))) =>
      && src == h.mac && s == h.ip && d == (if h.dnsServer != 0 then h.dnsServer else 0x0808_0808)
      && sport >= EPHEMERAL_PORT_BASE && dport == PORT_DNS
      && |data| >= 2 && data == DnsQuery(Be16At(data, 0), host)
    case (Handshake, _) =>
      var t := h.tcp;
      SentTo(f, h, t.remoteIp, TcpPart(t.localPort, t.remotePort, t.seqNo, t.ack, SYN, 0x2000, []))
    case _ => false
  }

  lemma QueryStart(id: u16, host: Bytes)
    ensures Be16At(DnsQuery(id, host), 0) == id
  {
    SwapWord(id);
  }

  lemma RequestProper(k: Retry, h: Host)
    requires FitsRetry(k)
    ensures var g := Request(k, h);
      && g.sent == h.sent + [LastSent(g)] && Proper(k, h, LastSent(g))
  {
    hide Decode, PartOf, Ipv4Frame, ArpFrame, UdpDatagram, DnsQuery, NextSeed, EphemeralPort, SendTcp;
    match k
    case Gateway => ArpDecoded(BROADCAST_MAC, ARP_REQUEST, h.mac, h.ip, [0, 0, 0, 0, 0, 0], h.router);
    case Lookup(host) =>
      var g := SendQuery(h, host);
      var data, s := DnsQuery(g.dns.id, host), DnsServer(h);
      QueryStart(g.dns.id, host);
      UdpDecoded(h.ip, s, g.dns.port, PORT_DNS, data);
      IpDecoded(h.routerMac, h.mac, NextSeed(h.seed) % 0x1_0000, PROTO_UDP, h.ip, s,
                UdpDatagram(h.ip, s, g.dns.port, PORT_DNS, data));
    case Handshake => TcpSent(h, SYN, h.tcp.seqNo, h.tcp.ack, []);
  }

  lemma {:induction false} CountGrows(k: Retry, a: seq<Bytes>, b: seq<Bytes>)
    requires a <= b
    ensures Count(k, a) <= Count(k, b)
    ensures Count(k, a) == Count(k, b) ==> forall i :: |a| <= i < |b| ==> !IsRequest(k, b[i])
    decreases |b|
  {
    hide IsRequest;
    if |a| < |b| {
      CountGrows(k, a, b[..|b| - 1]);
    } else {
      assert a == b;
    }
  }

  /** The requests among the frames from position `from` on all say what they should. */
  predicate AllProper(k: Retry, h: Host, frames: seq<Bytes>, from: nat)
    requires FitsRetry(k)
  {
    forall i :: from <= i < |frames| && IsRequest(k, frames[i]) ==> Proper(k, h, frames[i])
  }

  /** The requests depend only on what no loop changes and, while it is opened, on the session. */
  lemma ProperAlike(k: Retry, h: Host, g: Host)
    requires FitsRetry(k) && Extends(h, g) && (k.Handshake? ==> g.tcp == h.tcp)
    ensures forall f :: Proper(k, g, f) <==> Proper(k, h, f)
  {
    hide Decode, DnsQuery;
  }

  lemma PollProper(k: Retry, w: World, from: nat)
    requires FitsRetry(k) && AllProper(k, w.h, w.h.sent, from)
    ensures AllProper(k, w.h, Poll(w).h.sent, from)
  {
    hide Poll, Proper, IsRequest, Count;
    PollSendsNoRequest(k, w);
    PollExtends(w);
    CountGrows(k, w.h.sent, Poll(w).h.sent);
  }

  lemma AskProper(k: Retry, h: Host, from: nat)
    requires FitsRetry(k) && AllProper(k, h, h.sent, from)
    ensures AllProper(k, h, Request(k, h).sent, from)
  {
    hide Request, Proper, IsRequest;
    RequestProper(k, h);
  }

  /** One iteration: another request, if it is due, and a poll. */
  lemma StepProper(k: Retry, s: RetryState, from: nat)
    requires FitsRetry(k) && AllProper(k, s.w.h, s.w.h.sent, from) && (k.Handshake? ==> s.w.h.tcp.phase == SynSent)
    ensures var t := RetryStep(k, s);
      && Extends(s.w.h, t.w.h) && AllProper(k, s.w.h, t.w.h.sent, from)
      && (k.Handshake? ==> Finished(k, t.w.h) || t.w.h.tcp == s.w.h.tcp)
  {
    hide Poll, Request, Proper, IsRequest, Decides, Decided, RetryRun;
    var h := if s.timeout == 0 then Request(k, s.w.h) else s.w.h;
    var v := s.w.(h := h);
    AskProper(k, s.w.h, from);
    RequestExtends(k, s.w.h);
    RequestKeepsTcp(k, s.w.h);
    ProperAlike(k, s.w.h, h);
    PollProper(k, v, from);
    PollExtends(v);
    if k.Handshake? { HandshakeStep(s); }
  }

  lemma RequestKeepsTcp(k: Retry, h: Host)
    requires FitsRetry(k)
    ensures Request(k, h).tcp == h.tcp
  {
    hide Ipv4Frame, ArpFrame, TcpBytes, UdpDatagram, DnsQuery, NextSeed, EphemeralPort;
  }

  /** Every request a retrying loop sends says what it should, whatever arrives in between. */
  lemma {:induction false} RetryProper(k: Retry, s: RetryState, max: nat, from: nat)
    requires FitsRetry(k) && AllProper(k, s.w.h, s.w.h.sent, from) && (k.Handshake? ==> s.w.h.tcp.phase == SynSent)
    ensures AllProper(k, s.w.h, RetryRun(k, s, max).w.h.sent, from)
    decreases max - s.loops
  {
    hide RetryStep, Proper, IsRequest, Finished;
    if !Finished(k, s.w.h) && s.loops < max {
      StepProper(k, s, from);
      var t := RetryStep(k, s);
      if Finished(k, t.w.h) {
        assert RetryRun(k, t, max) == t;
      } else {
        ProperAlike(k, s.w.h, t.w.h);
        RetryProper(k, t, max, from);
      }
    }
  }

  // ---------- resolving the gateway and a name ----------

  /** Resolving the gateway on the wire: the first frame, and every ARP request after it, is broadcast
    * and asks for the gateway's address on behalf of the stack's own. */
  lemma GatewayOnWire(w: World)
    ensures var r := ResolveGateway(w).h;
      && |r.sent| > |w.h.sent| && w.h.sent <= r.sent && IsRequest(Gateway, r.sent[|w.h.sent|])
      && AllProper(Gateway, w.h, r.sent, |w.h.sent|)
  {
    hide RetryRun, Proper, IsRequest;
    var h := w.h.(arp := w.h.arp.(resolved := false, target := w.h.router));
    FirstRequest(Gateway, RetryState(w.(h := h), 0, 0), TIMEOUT_ARP_LOOPS);
    RetryProper(Gateway, RetryState(w.(h := h), 0, 0), TIMEOUT_ARP_LOOPS, |w.h.sent|);
    ProperAlike(Gateway, w.h, h);
  }

  /** A lookup on the wire: the first frame, and every query after it, goes to port 53 of the server in
    * use from an ephemeral port, and asks for the host name. */
  lemma LookupOnWire(w: World, host: Bytes)
    requires |host| <= MAX_HOSTNAME
    ensures var r := ResolveHostname(w, host).h;
      && |r.sent| > |w.h.sent| && w.h.sent <= r.sent && IsRequest(Lookup(host), r.sent[|w.h.sent|])
      && AllProper(Lookup(host), w.h, r.sent, |w.h.sent|)
  {
    hide RetryRun, Proper, IsRequest;
    var h := w.h.(dns := w.h.dns.(resolved := false, ip := 0));
    FirstRequest(Lookup(host), RetryState(w.(h := h), 0, 0), TIMEOUT_TCP_LOOPS);
    RetryProper(Lookup(host), RetryState(w.(h := h), 0, 0), TIMEOUT_TCP_LOOPS, |w.h.sent|);
    ProperAlike(Lookup(host), w.h, h);
  }

  /** A loop that has not finished sends its first request at once. */
  lemma FirstRequest(k: Retry, s: RetryState, max: nat)
    requires FitsRetry(k) && !Finished(k, s.w.h) && s.timeout == 0 && s.loops < max
    ensures var r := RetryRun(k, s, max).w.h;
      && |r.sent| > |s.w.h.sent| && s.w.h.sent <= r.sent
      && Request(k, s.w.h).sent == s.w.h.sent + [r.sent[|s.w.h.sent|]]
      && IsRequest(k, r.sent[|s.w.h.sent|])
  {
    hide Poll, Request, Proper, IsRequest, Finished, Count;
    var g, t := Request(k, s.w.h), RetryStep(k, s);
    RequestProper(k, s.w.h);
    RequestCountsOnce(k, s.w.h);
    CountAppend(k, s.w.h.sent, LastSent(g));
    PollExtends(s.w.(h := g));
    RetryRunExtends(k, t, max);
  }

  // ---------- connecting ----------

  /** Connecting on the wire: the session is with the address and port given, from a port drawn for it.
    * The first frame, and every SYN after it, goes from the stack's address and that port to the address
    * and port given, with the initial sequence number drawn for this call and no payload. */
  lemma ConnectOnWire(w: World, ip: u32, port: u16)
    ensures var r := TcpConnect(w, ip, port).h;
      var own, iss := EphemeralPort(NextSeed(w.h.seed)), NextSeed(NextSeed(w.h.seed));
      && r.tcp.remoteIp == ip && r.tcp.remotePort == port && r.tcp.localPort == own
      && |r.sent| > |w.h.sent| && w.h.sent <= r.sent
      && Carries(r.sent[|w.h.sent|], w.h, ip, TcpPart(own, port, iss, 0, SYN, 0x2000, []))
      && forall i :: |w.h.sent| <= i < |r.sent| && IsRequest(Handshake, r.sent[i]) ==>
           SentTo(r.sent[i], w.h, ip, TcpPart(own, port, iss, 0, SYN, 0x2000, []))
  {
    hide RetryRun, IsRequest, NextSeed, EphemeralPort, SendTcp, Carries;
    var h := StartConnect(w.h, ip, port);
    var s := RetryState(w.(h := h), 0, 0);
    TcpSent(h, SYN, h.tcp.seqNo, h.tcp.ack, []);
    CarriesAlike(h, w.h);
    FirstRequest(Handshake, s, TIMEOUT_TCP_LOOPS);
    RetryProper(Handshake, s, TIMEOUT_TCP_LOOPS, |w.h.sent|);
    ConnectOutcome(w, ip, port);
  }

  lemma {:induction false} DecisionAt(port: u16, inbox: seq<Rx>, n: nat, k: nat)
    requires k < n && k < |inbox| && Decides(port, inbox[k])
    requires forall i :: 0 <= i < k ==> !Decides(port, inbox[i])
    ensures Decision(port, inbox, n) == Some(SegmentAt(inbox[k].bytes))
    decreases n
  {
    hide Decides, SegmentAt;
    if k > 0 {
      DecisionAt(port, inbox[1..], n - 1, k - 1);
    }
  }

  /** Connecting, end to end: let a server answer the SYN that this call sends, read from its bytes, with
    * a SYN+ACK that acknowledges it. If that is the first frame of those within the budget that can end
    * the wait, the session is established, with the next number of either side. */
  lemma ConnectAnswered(w: World, ip: u32, port: u16, k: nat, q: PageBytes, dst: Mac, src: Mac, n: u16, isn: u32,
                        data: Bytes)
    requires |TcpConnect(w, ip, port).h.sent| > |w.h.sent| && FitsTcp(data)
    requires match Decode(TcpConnect(w, ip, port).h.sent[|w.h.sent|])
      case IpPacket(_, _, _, s, d, TcpPart(sport, dport, seqNo, _, _, _, _)) =>
        && Received(q, Ipv4Frame(dst, src, n, PROTO_TCP, d, s,
             TcpBytes(d, s, dport, sport, SYN + ACK, isn, (seqNo + 1) % TWO32, data)))
        && forall i :: 0 <= i < k && i < |w.inbox| ==> !Decides(sport, w.inbox[i])
      case _ => false
    requires k < |w.inbox| && k < TIMEOUT_TCP_LOOPS && w.inbox[k] == Page(q)
    ensures var t := TcpConnect(w, ip, port).h.tcp;
      && t.phase == Established && t.remoteIp == ip && t.remotePort == port
      && t.seqNo == (NextSeed(NextSeed(w.h.seed)) + 1) % TWO32 && t.ack == (isn + 1) % TWO32
  {
    hide RetryRun, NextSeed, EphemeralPort, Received, Ipv4Frame, TcpBytes, Decode, SegmentAt;
    var own, iss := EphemeralPort(NextSeed(w.h.seed)), NextSeed(NextSeed(w.h.seed));
    ConnectOnWire(w, ip, port);
    SegmentReceived(q, dst, src, n, ip, w.h.ip, port, own, SYN + ACK, isn, (iss + 1) % TWO32, data);
    DecisionAt(own, w.inbox, TIMEOUT_TCP_LOOPS, k);
    ConnectOutcome(w, ip, port);
  }
}
