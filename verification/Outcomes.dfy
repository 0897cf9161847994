/** What decides the result of each waiting call: the first frame of the right kind among those
  * waiting, if the call's budget reaches it (api.hpp, core.hpp). */
module Outcomes {
  import opened Words
  import opened Tcp
  import opened Frames
  import opened Hosts
  import opened Runs
  import opened TcpRuns
  import opened TwoStacks
  import Dns

  // ---------- connecting ----------

  /** A frame that ends the wait for a connection: a reset or a SYN+ACK for its port. */
  predicate Decides(port: u16, e: Rx) {
    CarriesSegment(e) && SegmentAt(e.bytes).dstPort == port && port != 0 &&
    (SegmentAt(e.bytes).Has(RST) || (SegmentAt(e.bytes).Has(SYN) && SegmentAt(e.bytes).Has(ACK)))
  }

  /** The first segment that decides, among the first `n` frames. */
  function Decision(port: u16, inbox: seq<Rx>, n: nat): Option<Segment>
    decreases n
  {
    if n == 0 || |inbox| == 0 then None
    else if Decides(port, inbox[0]) then Some(SegmentAt(inbox[0].bytes))
    else Decision(port, inbox[1..], n - 1)
  }

  /** The session once the segment has decided. */
  function Decided(s: Session, g: Segment): Session {
    if g.Has(RST) then s.(phase := Closed, done := true)
    else s.(seqNo := g.ack, ack := (g.seqNo + 1) % TWO32, phase := Established)
  }

  /** One iteration of the connection loop. */
  lemma HandshakeStep(s: RetryState)
    requires s.w.h.tcp.phase == SynSent
    ensures var t, h := RetryStep(Handshake, s).w, s.w.h;
      && t.inbox == Rest(s.w.inbox)
      && t.h.tcp == if |s.w.inbox| > 0 && Decides(h.tcp.localPort, s.w.inbox[0])
                    then Decided(h.tcp, SegmentAt(s.w.inbox[0].bytes)) else h.tcp
    ensures |s.w.inbox| > 0 && Decides(s.w.h.tcp.localPort, s.w.inbox[0]) ==>
      s.w.inbox[0].Page? && Finished(Handshake, RetryStep(Handshake, s).w.h)
  {
    hide Poll, SegmentAt, Request, Segment.Has;
    RequestKeepsSession(Handshake, s.w.h);
    PollSession(s.w.(h := if s.timeout == 0 then Request(Handshake, s.w.h) else s.w.h));
  }

  /** What is left of the waiting frames when one of `n` has gone. */
  lemma RestLeft(inbox: seq<Rx>, n: nat)
    requires n > 0
    ensures Rest(inbox)[Min(|Rest(inbox)|, n - 1)..] == inbox[Min(|inbox|, n)..]
  {
  }

  lemma DecisionBehind(port: u16, inbox: seq<Rx>, n: nat)
    requires n > 0 && !(|inbox| > 0 && Decides(port, inbox[0]))
    ensures Decision(port, inbox, n) == Decision(port, Rest(inbox), n - 1)
  {
    hide Decides;
  }

  /** From `s` to `r`: the frame that decides within the budget, or the budget spent. */
  ghost predicate HandshakeDone(s: RetryState, r: RetryState, max: nat)
    requires s.loops <= max
  {
    var t, inbox := s.w.h.tcp, s.w.inbox;
    match Decision(t.localPort, inbox, max - s.loops)
    case Some(g) => r.w.h.tcp == Decided(t, g)
    case None => r.w.h.tcp == t && r.loops == max && r.w.inbox == inbox[Min(|inbox|, max - s.loops)..]
  }

  lemma HandshakeEnds(s: RetryState, max: nat)
    requires s.w.h.tcp.phase == SynSent && s.loops < max
    requires |s.w.inbox| > 0 && Decides(s.w.h.tcp.localPort, s.w.inbox[0])
    ensures Finished(Handshake, RetryStep(Handshake, s).w.h) && HandshakeDone(s, RetryStep(Handshake, s), max)
  {
    hide RetryStep, SegmentAt, Decides, Decided, Segment.Has;
    HandshakeStep(s);
  }

  lemma HandshakeContinues(s: RetryState, r: RetryState, max: nat)
    requires s.w.h.tcp.phase == SynSent && s.loops < max
    requires !(|s.w.inbox| > 0 && Decides(s.w.h.tcp.localPort, s.w.inbox[0]))
    requires HandshakeDone(RetryStep(Handshake, s), r, max)
    ensures HandshakeDone(s, r, max)
  {
    hide RetryStep, SegmentAt, Decides, Decided, Segment.Has, Decision, Rest;
    HandshakeStep(s);
    DecisionBehind(s.w.h.tcp.localPort, s.w.inbox, max - s.loops);
    RestLeft(s.w.inbox, max - s.loops);
  }

  lemma {:induction false} HandshakeRun(s: RetryState, max: nat)
    requires s.w.h.tcp.phase == SynSent && s.loops <= max
    ensures HandshakeDone(s, RetryRun(Handshake, s, max), max)
    decreases max - s.loops
  {
    hide RetryStep, HandshakeDone, Decides;
    var t := RetryStep(Handshake, s);
    if s.loops == max {
      HandshakeUnstarted(s);
    } else if |s.w.inbox| > 0 && Decides(s.w.h.tcp.localPort, s.w.inbox[0]) {
      HandshakeEnds(s, max);
      assert RetryRun(Handshake, t, max) == t;
    } else {
      HandshakeStep(s);
      HandshakeRun(t, max);
      HandshakeContinues(s, RetryRun(Handshake, t, max), max);
    }
  }

  lemma HandshakeUnstarted(s: RetryState)
    ensures HandshakeDone(s, s, s.loops)
  {
  }

  /** Connecting, exactly: the first reset or SYN+ACK for the session's port within the budget decides.
    * A reset closes the session, a SYN+ACK establishes it with its numbers; without either the budget
    * is spent and the session, its port included, is left waiting. */
  lemma ConnectOutcome(w: World, ip: u32, port: u16)
    ensures var r, t := TcpConnect(w, ip, port), StartConnect(w.h, ip, port).tcp;
      && t.localPort >= EPHEMERAL_PORT_BASE
      && match Decision(t.localPort, w.inbox, TIMEOUT_TCP_LOOPS)
         case Some(g) => r.h.tcp == Decided(t, g)
         case None => r.h.tcp == t && t.phase == SynSent && r.inbox == w.inbox[Min(|w.inbox|, TIMEOUT_TCP_LOOPS)..]
  {
    hide RetryRun, Decision, NextSeed;
    HandshakeRun(RetryState(w.(h := StartConnect(w.h, ip, port)), 0, 0), TIMEOUT_TCP_LOOPS);
  }

  // ---------- closing ----------

  /** How many of `n` frames closing consumes: those up to the first FIN for the session, unless a reset
    * has come before it. */
  function FinReach(port: u16, open: bool, inbox: seq<Rx>, n: nat): (u: nat)
    ensures u <= Min(|inbox|, n)
    decreases n
  {
    if n == 0 || |inbox| == 0 then 0
    else
      var ours := CarriesSegment(inbox[0]) && SegmentAt(inbox[0].bytes).dstPort == port && port != 0;
      var reset := ours && SegmentAt(inbox[0].bytes).Has(RST);
      if open && ours && !reset && SegmentAt(inbox[0].bytes).Has(FIN) then 1
      else 1 + FinReach(port, open && !reset, inbox[1..], n - 1)
  }

  /** What a segment does to the phase of a session that is being closed. */
  lemma ClosingStep(s: Session, g: Segment)
    requires s.phase == FinWait || s.phase == Closed
    ensures var t, ours := OnSegment(s, g).0, g.dstPort == s.localPort && s.localPort != 0;
      && t.localPort == s.localPort
      && (ours && g.Has(RST) ==> t.phase == Closed)
      && (ours && !g.Has(RST) && s.phase == FinWait && g.Has(FIN) ==> t.phase == ClosedDone)
      && (!(ours && g.Has(RST)) && !(ours && s.phase == FinWait && g.Has(FIN)) ==> t.phase == s.phase)
  {
    hide Segment.Has;
  }

  lemma {:induction false} CloseRun(w: World, n: nat)
    requires w.h.tcp.phase == FinWait || w.h.tcp.phase == Closed
    ensures WaitRun(ForTcpClose, w, n).inbox ==
      w.inbox[FinReach(w.h.tcp.localPort, w.h.tcp.phase == FinWait, w.inbox, n)..]
    decreases n
  {
    hide Poll, SegmentAt, OnSegment, Segment.Has, IsIpv4;
    if n > 0 {
      PollSession(w);
      if |w.inbox| > 0 && w.inbox[0].Page? { ClosingStep(w.h.tcp, SegmentAt(w.inbox[0].bytes)); }
      var v := Poll(w);
      if v.h.tcp.phase == ClosedDone {
        assert WaitRun(ForTcpClose, v, n - 1) == v;
      } else {
        CloseRun(v, n - 1);
      }
    }
  }

  /** Closing consumes the frames up to the peer's FIN, or 10000; after a reset no FIN ends it. */
  lemma CloseOutcome(w: World)
    requires w.h.tcp.phase == Established
    ensures TcpClose(w).inbox == w.inbox[FinReach(w.h.tcp.localPort, true, w.inbox, 10000)..]
  {
    hide WaitRun, FinReach, Ipv4Frame, TcpBytes, NextSeed;
    var h := SendTcp(w.h, FIN + ACK, w.h.tcp.seqNo, w.h.tcp.ack, []);
    CloseRun(w.(h := h.(tcp := Act(h.tcp, BeginClose))), TIMEOUT_CLOSE_LOOPS);
  }

  // ---------- ping ----------

  predicate AnswersPing(e: Rx, id: u16, seqNo: u16) {
    e.Page? && IsIpv4(e.bytes, PROTO_ICMP) &&
    var o := Layer4(e.bytes);
    e.bytes[o] == ECHO_REPLY && Be16At(e.bytes, o + 4) == id && Be16At(e.bytes, o + 6) == seqNo
  }

  lemma PollPing(w: World)
    ensures var ping := w.h.ping;
      Poll(w).h.ping ==
        ping.(replied := ping.replied || (|w.inbox| > 0 && AnswersPing(w.inbox[0], ping.id, ping.seqNo)))
    ensures Poll(w).inbox == Rest(w.inbox)
  {
    hide OnUdp, OnArp, OnTcp, SendIpv4, IcmpMessage, Strays, Be16At;
    if |w.inbox| > 0 && w.inbox[0].Page? {
      OthersKeepPing(w.h, w.inbox[0].bytes);
    }
  }

  lemma OthersKeepPing(h: Host, b: PageBytes)
    ensures OnUdp(h, b).ping == h.ping && OnArp(h, b).ping == h.ping && OnTcp(h, b).ping == h.ping
    ensures forall body: Bytes, d: u32 | FitsIp(body) :: SendIpv4(h, PROTO_ICMP, d, body).ping == h.ping
  {
    hide Datagram, DnsAnswer, OnSegment, SendReplies, SegmentAt, Ipv4Frame;
    var (t, replies) := OnSegment(h.tcp, SegmentAt(b));
    RepliesSmall(h.tcp, SegmentAt(b));
    RepliesOnlySend(h.(tcp := t), replies);
  }

  lemma {:induction false} EchoRun(w: World, n: nat)
    ensures WaitRun(ForEcho, w, n).h.ping.replied <==>
      (w.h.ping.replied ||
       exists i :: 0 <= i < Min(|w.inbox|, n) && AnswersPing(w.inbox[i], w.h.ping.id, w.h.ping.seqNo))
    decreases n
  {
    hide Poll, AnswersPing;
    if n > 0 && !w.h.ping.replied {
      PollPing(w);
      EchoRun(Poll(w), n - 1);
      var id, seqNo, inbox := w.h.ping.id, w.h.ping.seqNo, w.inbox;
      if i :| 0 <= i < Min(|inbox|, n) && AnswersPing(inbox[i], id, seqNo) {
        if i > 0 { assert AnswersPing(inbox[1..][i - 1], id, seqNo); }
      }
      if |inbox| > 0 && !AnswersPing(inbox[0], id, seqNo) {
        if j :| 0 <= j < Min(|inbox[1..]|, n - 1) && AnswersPing(inbox[1..][j], id, seqNo) {
          assert AnswersPing(inbox[j + 1], id, seqNo);
        }
      }
    }
  }

  /** Ping, exactly: it succeeds if and only if an echo reply with the numbers drawn for this call is
    * among the frames its budget of ten polls a millisecond reaches. */
  lemma PingOutcome(w: World, ip: u32, timeoutMs: u32)
    ensures var s := NextSeed(w.h.seed);
      Ping(w, ip, timeoutMs).h.ping.replied <==>
      exists i :: 0 <= i < Min(|w.inbox|, timeoutMs * 10 % TWO32) &&
                  AnswersPing(w.inbox[i], s % 0x1_0000, NextSeed(s) % 0x1_0000)
  {
    hide WaitRun, NextSeed, AnswersPing, IcmpMessage, Ipv4Frame;
    var s1 := NextSeed(w.h.seed);
    var s2 := NextSeed(s1);
    var h := w.h.(seed := s2, ping := PingState(s1 % 0x1_0000, s2 % 0x1_0000, false));
    EchoRun(w.(h := SendEcho(h, ip, h.ping.id, h.ping.seqNo)), MaxLoops(timeoutMs));
  }

  // ---------- receiving a datagram ----------

  /** The first non-empty datagram for `port` among the first `n` frames. */
  function FirstDatagram(port: u16, inbox: seq<Rx>, n: nat): Bytes
    decreases n
  {
    if n == 0 || |inbox| == 0 then []
    else
      match inbox[0]
      case Page(b) =>
        if IsIpv4(b, PROTO_UDP) && Be16At(b, Layer4(b) + 2) == port && port != 0 && DatagramAt(b) != []
        then DatagramAt(b)
        else FirstDatagram(port, inbox[1..], n - 1)
      case _ => FirstDatagram(port, inbox[1..], n - 1)
  }

  lemma PollUdp(w: World)
    ensures Poll(w).inbox == Rest(w.inbox)
    ensures Poll(w).h.udp ==
      if |w.inbox| > 0 && w.inbox[0].Page? && IsIpv4(w.inbox[0].bytes, PROTO_UDP) && ForUser(w.h.udp, w.inbox[0].bytes)
      then Datagram(w.h.udp, DatagramAt(w.inbox[0].bytes)) else w.h.udp
  {
    hide Deliver, Strays, Datagram, DatagramAt, ForUser;
    if |w.inbox| > 0 && w.inbox[0].Page? {
      DeliverParts(w.h, w.inbox[0].bytes);
    }
  }

  lemma {:induction false} DatagramRun(w: World, n: nat, max: nat)
    requires w.h.udp.rx == Some(Posted(max, [])) && !w.h.udp.done
    ensures var r, d := WaitRun(ForUdp, w, n).h.udp, FirstDatagram(w.h.udp.localPort, w.inbox, n);
      r.rx == Some(Posted(max, d[..Min(|d|, max)])) && (r.done <==> d != [])
    decreases n
  {
    hide Poll, DatagramAt, Be16At, Layer4, IsIpv4;
    if n > 0 {
      PollUdp(w);
      if Poll(w).h.udp.done {
        assert WaitRun(ForUdp, Poll(w), n - 1) == Poll(w);
      } else {
        DatagramRun(Poll(w), n - 1, max);
      }
    }
  }

  /** Receiving a datagram, exactly: the buffer holds the first non-empty datagram for the port within
    * the budget, cut to the buffer, whatever else arrives before it. Afterwards no buffer is posted. */
  lemma UdpReceiveOutcome(w: World, max: nat, timeoutMs: u32)
    ensures var (r, data) := UdpReceive(w, max, timeoutMs);
      var d := FirstDatagram(w.h.udp.localPort, w.inbox, timeoutMs * 10 % TWO32);
      data == d[..Min(|d|, max)] && (r.h.udp.done <==> d != []) && r.h.udp.rx == None
  {
    hide WaitRun, FirstDatagram;
    var h := w.h.(udp := w.h.udp.(rx := Some(Posted(max, [])), done := false));
    DatagramRun(w.(h := h), MaxLoops(timeoutMs), max);
  }

  // ---------- resolving a name ----------

  /** The address a frame gives in answer to the query `id` sent from `port`. */
  function AnswerIn(e: Rx, id: u16, port: u16): Option<u32> {
    if e.Page? && IsIpv4(e.bytes, PROTO_UDP) && ForDns(DnsState(id, port, 0, false), e.bytes) then
      var d := DnsAnswer(DnsState(id, port, 0, false), e.bytes, Layer4(e.bytes));
      if d.resolved then Some(d.ip) else None
    else None
  }

  function FirstAnswer(id: u16, port: u16, inbox: seq<Rx>, n: nat): Option<u32>
    decreases n
  {
    if n == 0 || |inbox| == 0 then None
    else if AnswerIn(inbox[0], id, port).Some? then AnswerIn(inbox[0], id, port)
    else FirstAnswer(id, port, inbox[1..], n - 1)
  }

  lemma PollDns(w: World)
    requires !w.h.dns.resolved
    ensures Poll(w).inbox == Rest(w.inbox)
    ensures var d := w.h.dns;
      Poll(w).h.dns == if |w.inbox| > 0 && AnswerIn(w.inbox[0], d.id, d.port).Some?
                       then d.(ip := AnswerIn(w.inbox[0], d.id, d.port).value, resolved := true) else d
  {
    hide Deliver, Strays, Dns.WalkMessage;
    if |w.inbox| > 0 && w.inbox[0].Page? {
      DeliverParts(w.h, w.inbox[0].bytes);
    }
  }

  /** `f` is the query for `host` that the stack is waiting on, whatever gateway and identification it
    * was sent with. */
  predicate IsPending(f: Bytes, h: Host, host: Bytes, dst: Mac, n: u16)
    requires |host| <= MAX_HOSTNAME
  {
    f == Ipv4Frame(dst, h.mac, n, PROTO_UDP, h.ip, DnsServer(h),
                   UdpDatagram(h.ip, DnsServer(h), h.dns.port, PORT_DNS, DnsQuery(h.dns.id, host)))
  }

  /** The state in which the loop polls: after the query, if one is due. */
  function Polling(s: RetryState, host: Bytes): RetryState
    requires |host| <= MAX_HOSTNAME
  {
    if s.timeout == 0 then RetryState(s.w.(h := SendQuery(s.w.h, host)), TIMEOUT_RETRANSMIT, s.loops) else s
  }

  lemma QueryIsPending(h: Host, host: Bytes)
    requires |host| <= MAX_HOSTNAME
    ensures var g := SendQuery(h, host);
      && g.sent == h.sent + [g.sent[|h.sent|]] && g.dns == h.dns.(id := g.dns.id, port := g.dns.port)
      && IsPending(g.sent[|h.sent|], g, host, h.routerMac, NextSeed(h.seed) % 0x1_0000)
  {
    hide Ipv4Frame, UdpDatagram, DnsQuery, NextSeed, EphemeralPort;
  }

  /** The query pending in `h` is the frame sent at position `at`, in this call or later. */
  predicate Asked(h: Host, host: Bytes, before: nat, at: nat, dst: Mac, n: u16)
    requires |host| <= MAX_HOSTNAME
  {
    before <= at < |h.sent| && IsPending(h.sent[at], h, host, dst, n)
  }

  lemma AskedStays(h: Host, g: Host, host: Bytes, before: nat, at: nat, dst: Mac, n: u16)
    requires |host| <= MAX_HOSTNAME && Asked(h, host, before, at, dst, n) && Extends(h, g)
    requires g.dns.id == h.dns.id && g.dns.port == h.dns.port
    ensures Asked(g, host, before, at, dst, n)
  {
    hide Ipv4Frame, UdpDatagram, DnsQuery;
  }

  lemma {:induction false} LookupRun(s: RetryState, host: Bytes, max: nat, before: nat, at: nat, dst: Mac, n: u16)
    returns (used: nat, at': nat, dst': Mac, n': u16)
    requires |host| <= MAX_HOSTNAME && !s.w.h.dns.resolved && s.loops <= max && before <= |s.w.h.sent|
    requires s.timeout > 0 ==> Asked(s.w.h, host, before, at, dst, n)
    ensures var r, inbox := RetryRun(Lookup(host), s, max), s.w.inbox; var d := r.w.h.dns;
      && used <= |inbox| && r.w.inbox == inbox[used..]
      && (d.resolved ==> used > 0 && AnswerIn(inbox[used - 1], d.id, d.port) == Some(d.ip)
                         && Asked(r.w.h, host, before, at', dst', n'))
      && (!d.resolved ==> r.loops == max && used == Min(|inbox|, max - s.loops) && d.ip == s.w.h.dns.ip)
    decreases max - s.loops
  {
    hide Poll, AnswerIn, SendQuery, Asked;
    used, at', dst', n' := 0, at, dst, n;
    if s.loops < max {
      var q := Polling(s, host);
      if s.timeout == 0 {
        QueryIsPending(s.w.h, host);
        at', dst', n' := |s.w.h.sent|, s.w.h.routerMac, NextSeed(s.w.h.seed) % 0x1_0000;
        NowAsked(q.w.h, host, before, at', dst', n');
      }
      PollDns(q.w);
      PollExtends(q.w);
      AskedStays(q.w.h, Poll(q.w).h, host, before, at', dst', n');
      var t := RetryStep(Lookup(host), s);
      assert t == RetryState(Poll(q.w), q.timeout - 1, s.loops + 1);
      if t.w.h.dns.resolved {
        used := 1;
        assert RetryRun(Lookup(host), t, max) == t;
      } else {
        var more: nat;
        more, at', dst', n' := LookupRun(t, host, max, before, at', dst', n');
        used := if |s.w.inbox| == 0 then 0 else 1 + more;
      }
    }
  }

  lemma NowAsked(h: Host, host: Bytes, before: nat, at: nat, dst: Mac, n: u16)
    requires |host| <= MAX_HOSTNAME && before <= at < |h.sent| && IsPending(h.sent[at], h, host, dst, n)
    ensures Asked(h, host, before, at, dst, n)
  {
  }

  /** Until the next query is due, the first answer to the pending one ends the loop. */
  lemma {:induction false} PendingRun(s: RetryState, host: Bytes, max: nat)
    requires |host| <= MAX_HOSTNAME && !s.w.h.dns.resolved && s.loops + s.timeout <= max
    ensures var r, d := RetryRun(Lookup(host), s, max).w.h.dns, s.w.h.dns;
      match FirstAnswer(d.id, d.port, s.w.inbox, s.timeout)
      case Some(ip) => r.resolved && r.ip == ip
      case None => true
    decreases s.timeout
  {
    hide Poll, AnswerIn, SendQuery;
    if s.timeout > 0 {
      PollDns(s.w);
      var t := RetryStep(Lookup(host), s);
      if t.w.h.dns.resolved {
        assert RetryRun(Lookup(host), t, max) == t;
      } else {
        PendingRun(t, host, max);
      }
    }
  }

  /** Resolving a name. A result comes from a frame that answers, with its first A record of length 4,
    * the last query this call put on the wire for this name; without a result the budget is spent. In
    * particular the first answer to the first query is the result if it arrives among the first 5000
    * frames. */
  lemma LookupOutcome(w: World, host: Bytes) returns (used: nat, at: nat, dst: Mac, n: u16)
    requires |host| <= MAX_HOSTNAME
    ensures var r, inbox := ResolveHostname(w, host), w.inbox; var d := r.h.dns;
      && used <= |inbox| && r.inbox == inbox[used..]
      && (d.resolved ==> used > 0 && AnswerIn(inbox[used - 1], d.id, d.port) == Some(d.ip)
                         && Asked(r.h, host, |w.h.sent|, at, dst, n))
      && (!d.resolved ==> used == Min(|inbox|, TIMEOUT_TCP_LOOPS) && d.ip == 0)
    ensures var first, d := SendQuery(w.h, host).dns, ResolveHostname(w, host).h.dns;
      match FirstAnswer(first.id, first.port, w.inbox, TIMEOUT_RETRANSMIT)
      case Some(ip) => d.resolved && d.ip == ip
      case None => true
  {
    hide RetryRun, NextSeed, EphemeralPort, Ipv4Frame, UdpDatagram, DnsQuery, AnswerIn, FirstAnswer, Poll, Asked;
    var s := RetryState(w.(h := w.h.(dns := w.h.dns.(resolved := false, ip := 0))), 0, 0);
    used, at, dst, n := LookupRun(s, host, TIMEOUT_TCP_LOOPS, |w.h.sent|, 0, BROADCAST_MAC, 0);
    FirstIteration(s, host, TIMEOUT_TCP_LOOPS);
    PendingRun(Polling(s, host), host, TIMEOUT_TCP_LOOPS);
  }

  lemma FirstIteration(s: RetryState, host: Bytes, max: nat)
    requires |host| <= MAX_HOSTNAME && !s.w.h.dns.resolved && s.loops < max
    ensures RetryRun(Lookup(host), s, max) == RetryRun(Lookup(host), Polling(s, host), max)
    ensures !Polling(s, host).w.h.dns.resolved
  {
    hide Poll, Ipv4Frame, UdpDatagram, DnsQuery, NextSeed, EphemeralPort;
    assert RetryStep(Lookup(host), s) == RetryStep(Lookup(host), Polling(s, host));
  }

  // ---------- a name server's answer ----------

  /** A response that a name server serialises answers the query with the first A record of length 4. */
  lemma AnswerIsFirstAddress(p: PageBytes, dst: Mac, src: Mac, n: u16, s: u32, d: u32, port: u16, id: u16, flags: u16,
                             qs: seq<Dns.Question>, rs: seq<Dns.Record>, ns: u16, ar: u16, more: Bytes)
    requires |qs| < 0x1_0000 && |rs| < 0x1_0000 && flags >= 0x8000 && port != 0
    requires forall i :: 0 <= i < |qs| ==> Dns.Sized(qs[i].labels, 1, 0xFF)
    requires forall i :: 0 <= i < |rs| ==> rs[i].Valid()
    requires FitsUdp(DnsMessage(id, flags, qs, rs, ns, ar, more))
    requires Received(p, Ipv4Frame(dst, src, n, PROTO_UDP, s, d,
      UdpDatagram(s, d, PORT_DNS, port, DnsMessage(id, flags, qs, rs, ns, ar, more))))
    ensures AnswerIn(Page(p), id, port) == Dns.FirstAddress(rs)
  {
    hide Received, DnsMessage, Ipv4Frame, UdpDatagram, Dns.FirstAddress, Dns.Sized, Deliver, Dns.WalkMessage;
    var h := Initial(dst, 0).(dns := DnsState(id, port, 0, false));
    DnsResponseResolves(h, p, dst, src, n, s, d, PORT_DNS, port, id, flags, qs, rs, ns, ar, more);
    DeliverParts(h, p);
  }

  lemma {:induction false} FirstAnswerAt(id: u16, port: u16, inbox: seq<Rx>, n: nat, k: nat)
    requires k < n && k < |inbox| && AnswerIn(inbox[k], id, port).Some?
    requires forall i :: 0 <= i < k ==> AnswerIn(inbox[i], id, port) == None
    ensures FirstAnswer(id, port, inbox, n) == AnswerIn(inbox[k], id, port)
    decreases n
  {
    hide AnswerIn;
    if k > 0 {
      FirstAnswerAt(id, port, inbox[1..], n - 1, k - 1);
    }
  }

  /** A lookup, end to end: if among the first 5000 frames the first that answers the first query is a
    * name server's response, the name resolves to the first A record of length 4 in it. */
  lemma LookupAnswered(w: World, host: Bytes, k: nat, p: PageBytes, dst: Mac, src: Mac, n: u16, s: u32, d: u32,
                       flags: u16, qs: seq<Dns.Question>, rs: seq<Dns.Record>, ns: u16, ar: u16, more: Bytes)
    requires |host| <= MAX_HOSTNAME && k < |w.inbox| && k < TIMEOUT_RETRANSMIT && w.inbox[k] == Page(p)
    requires |qs| < 0x1_0000 && |rs| < 0x1_0000 && flags >= 0x8000 && Dns.FirstAddress(rs).Some?
    requires forall i :: 0 <= i < |qs| ==> Dns.Sized(qs[i].labels, 1, 0xFF)
    requires forall i :: 0 <= i < |rs| ==> rs[i].Valid()
    requires var q := SendQuery(w.h, host).dns;
      && FitsUdp(DnsMessage(q.id, flags, qs, rs, ns, ar, more))
      && Received(p, Ipv4Frame(dst, src, n, PROTO_UDP, s, d,
           UdpDatagram(s, d, PORT_DNS, q.port, DnsMessage(q.id, flags, qs, rs, ns, ar, more))))
      && forall i :: 0 <= i < k ==> AnswerIn(w.inbox[i], q.id, q.port) == None
    ensures var dns := ResolveHostname(w, host).h.dns; dns.resolved && dns.ip == Dns.FirstAddress(rs).value
  {
    hide Received, DnsMessage, Ipv4Frame, UdpDatagram, Dns.FirstAddress, Dns.Sized, AnswerIn, FirstAnswer,
         ResolveHostname, DnsQuery, NextSeed;
    var q := SendQuery(w.h, host).dns;
    AnswerIsFirstAddress(p, dst, src, n, s, d, q.port, q.id, flags, qs, rs, ns, ar, more);
    FirstAnswerAt(q.id, q.port, w.inbox, TIMEOUT_RETRANSMIT, k);
    var used, at, gateway, ipId := LookupOutcome(w, host);
  }
}
