/** Sessions of API calls as runs of the TCP state machine: what reaches the session is the segments
  * among the frames consumed, whichever call consumes them, and the calls' own actions. */
module TcpRuns {
  import opened Words
  import opened Tcp
  import opened Frames
  import opened Hosts
  import opened Runs
  import opened DhcpClient
  import opened Sessions

  // ---------- what arrives ----------

  predicate CarriesSegment(e: Rx) {
    e.Page? && IsIpv4(e.bytes, PROTO_TCP)
  }

  /** The segments among received frames, as actions of the session. */
  function Arrivals(inbox: seq<Rx>): seq<Action> {
    if |inbox| == 0 then []
    else (if CarriesSegment(inbox[0]) then [Arrive(SegmentAt(inbox[0].bytes))] else []) + Arrivals(inbox[1..])
  }

  lemma {:induction false} ArrivalsSplit(a: seq<Rx>, b: seq<Rx>)
    ensures Arrivals(a + b) == Arrivals(a) + Arrivals(b)
  {
    hide CarriesSegment, SegmentAt;
    if a == [] {
      assert a + b == b;
    } else {
      assert (a + b)[1..] == a[1..] + b;
      ArrivalsSplit(a[1..], b);
    }
  }

  /** Arrivals are arrivals: no call is among them. */
  lemma {:induction false} ArrivalsOnly(inbox: seq<Rx>)
    ensures NoConnect(Arrivals(inbox)) && PortsEphemeral(Arrivals(inbox))
    ensures Sends(Arrivals(inbox)) == [] && Arrived(Arrivals(inbox)) == Arrivals(inbox)
  {
    hide CarriesSegment, SegmentAt;
    if |inbox| > 0 {
      ArrivalsOnly(inbox[1..]);
      if CarriesSegment(inbox[0]) {
        assert Arrivals(inbox)[1..] == Arrivals(inbox[1..]);
      } else {
        assert Arrivals(inbox) == Arrivals(inbox[1..]);
      }
    }
  }

  // ---------- the loops ----------

  /** A poll changes the session exactly as the segment it received does, if it received one. */
  lemma PollSession(w: World)
    ensures Poll(w).inbox == Rest(w.inbox)
    ensures Poll(w).h.tcp ==
      if |w.inbox| > 0 && CarriesSegment(w.inbox[0]) then OnSegment(w.h.tcp, SegmentAt(w.inbox[0].bytes)).0 else w.h.tcp
  {
    hide Deliver, Strays, OnSegment, SegmentAt;
    if |w.inbox| > 0 && w.inbox[0].Page? {
      DeliverParts(w.h, w.inbox[0].bytes);
    }
  }

  /** One poll, then a run over the frames behind: a run over all of them. */
  lemma ArrivalsStep(inbox: seq<Rx>, used: nat, s: Session)
    requires 0 < used <= |inbox|
    ensures Run(s, Arrivals(inbox[..used])) ==
      Run(if CarriesSegment(inbox[0]) then OnSegment(s, SegmentAt(inbox[0].bytes)).0 else s,
          Arrivals(inbox[1..][..used - 1]))
  {
    hide OnSegment, SegmentAt, CarriesSegment;
    assert inbox[..used][1..] == inbox[1..][..used - 1];
    if CarriesSegment(inbox[0]) {
      assert Arrivals(inbox[..used])[1..] == Arrivals(inbox[1..][..used - 1]);
    } else {
      assert Arrivals(inbox[..used]) == Arrivals(inbox[1..][..used - 1]);
    }
  }

  /** What a waiting loop consumes is a prefix of what was waiting at the card, and the session
    * afterwards is the run of the state machine over the segments consumed. */
  lemma {:induction false} WaitConsumesPrefix(k: Wait, w: World, n: nat) returns (used: nat)
    ensures used <= |w.inbox| && WaitRun(k, w, n).inbox == w.inbox[used..]
    ensures WaitRun(k, w, n).h.tcp == Run(w.h.tcp, Arrivals(w.inbox[..used]))
    decreases n
  {
    hide Poll, OnSegment, SegmentAt, Over, CarriesSegment;
    if n == 0 || Over(k, w.h) {
      used := 0;
    } else {
      var more := WaitConsumesPrefix(k, Poll(w), n - 1);
      PollSession(w);
      used := if |w.inbox| == 0 then 0 else 1 + more;
      if used > 0 { ArrivalsStep(w.inbox, used, w.h.tcp); }
    }
  }

  /** The same for the retrying loops: their requests do not touch the session. */
  lemma {:induction false} RetryConsumesPrefix(k: Retry, s: RetryState, max: nat) returns (used: nat)
    requires FitsRetry(k)
    ensures used <= |s.w.inbox| && RetryRun(k, s, max).w.inbox == s.w.inbox[used..]
    ensures RetryRun(k, s, max).w.h.tcp == Run(s.w.h.tcp, Arrivals(s.w.inbox[..used]))
    decreases max - s.loops
  {
    hide Poll, OnSegment, SegmentAt, Request, Finished, CarriesSegment;
    if Finished(k, s.w.h) || s.loops >= max {
      used := 0;
    } else {
      var more := RetryConsumesPrefix(k, RetryStep(k, s), max);
      RequestKeepsSession(k, s.w.h);
      PollSession(s.w.(h := if s.timeout == 0 then Request(k, s.w.h) else s.w.h));
      used := if |s.w.inbox| == 0 then 0 else 1 + more;
      if used > 0 { ArrivalsStep(s.w.inbox, used, s.w.h.tcp); }
    }
  }

  lemma RequestKeepsSession(k: Retry, h: Host)
    requires FitsRetry(k)
    ensures Request(k, h).tcp == h.tcp
  {
  }

  /** The handshake of DHCP consumes frames without giving them to the session. */
  lemma {:induction false} DhcpSkips(c: Client, xid: u32) returns (used: nat)
    ensures used <= |c.inbox| && DhcpRun(c, xid).inbox == c.inbox[used..] && DhcpRun(c, xid).h.tcp == c.h.tcp
    decreases TIMEOUT_DHCP_LOOPS - c.loops
  {
    if c.phase == Bound || c.loops >= TIMEOUT_DHCP_LOOPS {
      used := 0;
    } else {
      DhcpStepSkips(c, xid);
      hide Step;
      var more := DhcpSkips(Step(c, xid), xid);
      used := if |c.inbox| == 0 then 0 else 1 + more;
    }
  }

  lemma DhcpStepSkips(c: Client, xid: u32)
    ensures Step(c, xid).inbox == Rest(c.inbox) && Step(c, xid).h.tcp == c.h.tcp
  {
    hide DhcpFrame, Scanned, IsDhcp, OfferedIp, ServerOf;
  }

  // ---------- calls as runs ----------

  /** From `w` to `r`, `used` frames were consumed and the session made the run `acts`. */
  ghost predicate RunsAs(w: World, r: World, used: nat, acts: seq<Action>) {
    && used <= |w.inbox| && r.inbox == w.inbox[used..]
    && r.h.tcp == Run(w.h.tcp, acts)
    && PortsEphemeral(acts)
  }

  lemma RunsAsJoin(w: World, v: World, r: World, used: nat, acts: seq<Action>, more: nat, rest: seq<Action>)
    requires RunsAs(w, v, used, acts) && RunsAs(v, r, more, rest)
    ensures RunsAs(w, r, used + more, acts + rest)
    ensures Arrivals(w.inbox[..used + more]) == Arrivals(w.inbox[..used]) + Arrivals(v.inbox[..more])
  {
    RunAppend(w.h.tcp, acts, rest);
    assert w.inbox[..used + more] == w.inbox[..used] + v.inbox[..more];
    ArrivalsSplit(w.inbox[..used], v.inbox[..more]);
  }

  /** The lengths handed to `tcp_send` by the calls. */
  function SendSizes(calls: seq<Call>): seq<nat> {
    if |calls| == 0 then [] else (if calls[0].CallSend? then [|calls[0].data|] else []) + SendSizes(calls[1..])
  }

  /** Actions of a call around the segments it consumes. */
  predicate Framing(acts: seq<Action>) {
    && |acts| <= 1
    && forall a :: a in acts ==> !a.Send? && !a.Arrive? && (a.Connect? ==> a.localPort >= EPHEMERAL_PORT_BASE)
  }

  function ActOne(s: Session, acts: seq<Action>): Session
    requires Framing(acts)
  {
    if acts == [] then s else Act(s, acts[0])
  }

  lemma FramingOnly(acts: seq<Action>, s: Session)
    requires Framing(acts)
    ensures PortsEphemeral(acts) && Sends(acts) == [] && Arrived(acts) == [] && Run(s, acts) == ActOne(s, acts)
  {
    hide Act;
    if |acts| == 1 {
      assert acts[0] in acts && acts[1..] == [];
    }
  }

  lemma NoConnectJoin(a: seq<Action>, b: seq<Action>)
    ensures NoConnect(a) && NoConnect(b) ==> NoConnect(a + b)
    ensures PortsEphemeral(a) && PortsEphemeral(b) ==> PortsEphemeral(a + b)
  {
  }

  /** A call that acts on the session, consumes frames in a loop from `v` to `u`, and acts again. */
  lemma LoopIsRun(w: World, before: seq<Action>, v: World, u: World, used: nat, after: seq<Action>, r: World)
    returns (acts: seq<Action>)
    requires Framing(before) && Framing(after)
    requires v.inbox == w.inbox && v.h.tcp == ActOne(w.h.tcp, before)
    requires used <= |v.inbox| && u.inbox == v.inbox[used..] && u.h.tcp == Run(v.h.tcp, Arrivals(v.inbox[..used]))
    requires r.inbox == u.inbox && r.h.tcp == ActOne(u.h.tcp, after)
    ensures RunsAs(w, r, used, acts)
    ensures NoConnect(before) && NoConnect(after) ==> NoConnect(acts)
    ensures Sends(acts) == [] && Arrived(acts) == Arrivals(w.inbox[..used])
  {
    hide ActOne, Framing, NoConnect, PortsEphemeral;
    var mid := Arrivals(w.inbox[..used]);
    acts := before + mid + after;
    ArrivalsOnly(w.inbox[..used]);
    FramingOnly(before, w.h.tcp);
    FramingOnly(after, u.h.tcp);
    RunAppend(w.h.tcp, before, mid);
    SendsAppend(before, mid);
    ArrivedAppend(before, mid);
    RunAppend(w.h.tcp, before + mid, after);
    SendsAppend(before + mid, after);
    ArrivedAppend(before + mid, after);
    NoConnectJoin(before, mid);
    NoConnectJoin(before + mid, after);
  }

  lemma ReceiveIsRun(w: World, max: nat, timeoutMs: u32) returns (used: nat, acts: seq<Action>)
    ensures RunsAs(w, TcpReceive(w, max, timeoutMs).0, used, acts) && NoConnect(acts)
    ensures Sends(acts) == [] && Arrived(acts) == Arrivals(w.inbox[..used])
  {
    hide WaitRun, RunsAs;
    var v := w.(h := w.h.(tcp := Act(w.h.tcp, Post(max))));
    used := WaitConsumesPrefix(ForTcpData, v, MaxLoops(timeoutMs));
    var u := WaitRun(ForTcpData, v, MaxLoops(timeoutMs));
    acts := LoopIsRun(w, [Post(max)], v, u, used, [Unpost], TcpReceive(w, max, timeoutMs).0);
  }

  lemma CloseIsRun(w: World) returns (used: nat, acts: seq<Action>)
    ensures RunsAs(w, TcpClose(w), used, acts) && NoConnect(acts)
    ensures Sends(acts) == [] && Arrived(acts) == Arrivals(w.inbox[..used])
  {
    hide WaitRun, RunsAs, TcpBytes, Ipv4Frame, NextSeed;
    var h := SendTcp(w.h, FIN + ACK, w.h.tcp.seqNo, w.h.tcp.ack, []);
    var v := w.(h := h.(tcp := Act(w.h.tcp, BeginClose)));
    if w.h.tcp.phase == Established {
      used := WaitConsumesPrefix(ForTcpClose, v, TIMEOUT_CLOSE_LOOPS);
      acts := LoopIsRun(w, [BeginClose], v, WaitRun(ForTcpClose, v, TIMEOUT_CLOSE_LOOPS), used, [EndClose],
        TcpClose(w));
    } else {
      used := 0;
      acts := LoopIsRun(w, [BeginClose], w, w, 0, [EndClose], TcpClose(w));
    }
  }

  lemma UdpReceiveIsRun(w: World, max: nat, timeoutMs: u32) returns (used: nat, acts: seq<Action>)
    ensures RunsAs(w, UdpReceive(w, max, timeoutMs).0, used, acts) && NoConnect(acts)
    ensures Sends(acts) == [] && Arrived(acts) == Arrivals(w.inbox[..used])
  {
    hide WaitRun, RunsAs;
    var v := w.(h := w.h.(udp := w.h.udp.(rx := Some(Posted(max, [])), done := false)));
    used := WaitConsumesPrefix(ForUdp, v, MaxLoops(timeoutMs));
    acts := LoopIsRun(w, [], v, WaitRun(ForUdp, v, MaxLoops(timeoutMs)), used, [], UdpReceive(w, max, timeoutMs).0);
  }

  lemma PingIsRun(w: World, ip: u32, timeoutMs: u32) returns (used: nat, acts: seq<Action>)
    ensures RunsAs(w, Ping(w, ip, timeoutMs), used, acts) && NoConnect(acts)
    ensures Sends(acts) == [] && Arrived(acts) == Arrivals(w.inbox[..used])
  {
    hide WaitRun, RunsAs, NextSeed, IcmpMessage, Ipv4Frame;
    var s1 := NextSeed(w.h.seed);
    var s2 := NextSeed(s1);
    var h := w.h.(seed := s2, ping := PingState(s1 % 0x1_0000, s2 % 0x1_0000, false));
    var v := w.(h := SendEcho(h, ip, h.ping.id, h.ping.seqNo));
    used := WaitConsumesPrefix(ForEcho, v, MaxLoops(timeoutMs));
    acts := LoopIsRun(w, [], v, WaitRun(ForEcho, v, MaxLoops(timeoutMs)), used, [], Ping(w, ip, timeoutMs));
  }

  lemma ResolveIsRun(w: World, host: Bytes) returns (used: nat, acts: seq<Action>)
    requires |host| <= MAX_HOSTNAME
    ensures RunsAs(w, ResolveHostname(w, host), used, acts) && NoConnect(acts)
    ensures Sends(acts) == [] && Arrived(acts) == Arrivals(w.inbox[..used])
  {
    hide RetryRun, RunsAs;
    var v := w.(h := w.h.(dns := w.h.dns.(resolved := false, ip := 0)));
    used := RetryConsumesPrefix(Lookup(host), RetryState(v, 0, 0), TIMEOUT_TCP_LOOPS);
    var u := RetryRun(Lookup(host), RetryState(v, 0, 0), TIMEOUT_TCP_LOOPS).w;
    acts := LoopIsRun(w, [], v, u, used, [], ResolveHostname(w, host));
  }

  lemma ConnectIsRun(w: World, ip: u32, port: u16) returns (used: nat, acts: seq<Action>)
    ensures RunsAs(w, TcpConnect(w, ip, port), used, acts)
    ensures Sends(acts) == [] && Arrived(acts) == Arrivals(w.inbox[..used])
  {
    hide RetryRun, RunsAs, NextSeed, EphemeralPort;
    var s1 := NextSeed(w.h.seed);
    var open := Connect(ip, port, EphemeralPort(s1), NextSeed(s1));
    var v := w.(h := StartConnect(w.h, ip, port));
    used := RetryConsumesPrefix(Handshake, RetryState(v, 0, 0), TIMEOUT_TCP_LOOPS);
    var u := RetryRun(Handshake, RetryState(v, 0, 0), TIMEOUT_TCP_LOOPS).w;
    acts := LoopIsRun(w, [open], v, u, used, [], TcpConnect(w, ip, port));
  }

  lemma GatewayIsRun(w: World) returns (used: nat, acts: seq<Action>)
    ensures RunsAs(w, ResolveGateway(w), used, acts) && NoConnect(acts)
    ensures Sends(acts) == [] && Arrived(acts) == Arrivals(w.inbox[..used])
  {
    hide RetryRun, RunsAs;
    var v := w.(h := w.h.(arp := w.h.arp.(resolved := false, target := w.h.router)));
    used := RetryConsumesPrefix(Gateway, RetryState(v, 0, 0), TIMEOUT_ARP_LOOPS);
    var u := RetryRun(Gateway, RetryState(v, 0, 0), TIMEOUT_ARP_LOOPS).w;
    acts := LoopIsRun(w, [], v, u, used, [], ResolveGateway(w));
  }

  lemma InitIsRun(w: World, seed: u32) returns (used: nat, acts: seq<Action>)
    ensures RunsAs(w, InitNetwork(w, seed), used, acts) && NoConnect(acts) && Sends(acts) == []
  {
    hide ResolveGateway, DhcpRun, NextSeed;
    var xid := NextSeed(seed);
    var c := Handshaken(w, seed);
    var skipped := DhcpSkips(Start(w.h.(seed := xid), w.inbox), xid);
    if c.phase == Bound {
      used, acts := GatewayIsRun(w.(h := c.h, inbox := c.inbox));
      used := skipped + used;
    } else {
      used, acts := skipped, [];
    }
  }

  /** Every API call is a run of the session's state machine over the segments among the frames it
    * consumes. `init_network` alone throws segments away, while it speaks DHCP. */
  lemma CallIsRun(w: World, c: Call) returns (used: nat, acts: seq<Action>)
    requires Fits(c)
    ensures RunsAs(w, Do(w, c), used, acts)
    ensures !c.CallConnect? ==> NoConnect(acts)
    ensures Sends(acts) == if c.CallSend? then [|c.data|] else []
    ensures !c.CallInit? ==> Arrived(acts) == Arrivals(w.inbox[..used])
  {
    hide RunsAs, InitNetwork, InitStatic, ResolveHostname, TcpConnect, TcpReceive, TcpClose, UdpReceive, Ping,
         TcpSend, UdpSend, NoConnect;
    match c
    case CallInit(seed) => used, acts := InitIsRun(w, seed);
    case CallInitStatic(seed, ip, gateway, mask, dns) => used, acts := InitStaticIsRun(w, seed, ip, gateway, mask, dns);
    case CallResolve(host) => used, acts := ResolveIsRun(w, host);
    case CallConnect(ip, port) => used, acts := ConnectIsRun(w, ip, port);
    case CallSend(data) => used, acts := 0, [Send(|data|)]; SendIsRun(w, data);
    case CallReceive(max, ms) => used, acts := ReceiveIsRun(w, max, ms);
    case CallClose => used, acts := CloseIsRun(w);
    case CallUdpSend(ip, port, data) => used, acts := 0, []; UdpSendIsRun(w, ip, port, data);
    case CallUdpReceive(max, ms) => used, acts := UdpReceiveIsRun(w, max, ms);
    case CallPing(ip, ms) => used, acts := PingIsRun(w, ip, ms);
  }

  lemma InitStaticIsRun(w: World, seed: u32, ip: u32, gateway: u32, mask: u32, dns: u32)
    returns (used: nat, acts: seq<Action>)
    ensures RunsAs(w, InitStatic(w, seed, ip, gateway, mask, dns), used, acts) && NoConnect(acts)
    ensures Sends(acts) == [] && Arrived(acts) == Arrivals(w.inbox[..used])
  {
    hide ResolveGateway;
    used, acts :=
      GatewayIsRun(w.(h := w.h.(seed := seed, ip := ip, router := gateway, mask := mask, dnsServer := dns)));
  }

  lemma SendIsRun(w: World, data: Bytes)
    requires |data| <= MAX_TCP_DATA
    ensures RunsAs(w, TcpSend(w, data), 0, [Send(|data|)]) && NoConnect([Send(|data|)])
    ensures Sends([Send(|data|)]) == [|data|] && Arrived([Send(|data|)]) == Arrivals(w.inbox[..0])
  {
    hide TcpBytes, Ipv4Frame, NextSeed;
    var acts := [Send(|data|)];
    assert acts[1..] == [];
    assert Run(w.h.tcp, acts) == Run(Act(w.h.tcp, acts[0]), []) == Act(w.h.tcp, acts[0]);
    assert w.inbox[0..] == w.inbox;
  }

  lemma UdpSendIsRun(w: World, ip: u32, port: u16, data: Bytes)
    requires |data| <= MAX_UDP_DATA
    ensures RunsAs(w, UdpSend(w, ip, port, data), 0, []) && NoConnect([])
    ensures Sends([]) == [] && Arrived([]) == Arrivals(w.inbox[..0])
  {
    hide UdpDatagram, Ipv4Frame, NextSeed, EphemeralPort;
  }

  // ---------- sessions as runs ----------

  predicate NoneConnects(calls: seq<Call>) {
    forall i :: 0 <= i < |calls| ==> !calls[i].CallConnect?
  }

  /** Every session of API calls, in which any call may poll segments, is a run of the session's state
    * machine: over the segments among all frames consumed, in order, with the lengths sent in order,
    * and without opening a session unless a call connects. */
  lemma {:induction false} SessionIsRun(w: World, calls: seq<Call>) returns (used: nat, acts: seq<Action>)
    requires AllFit(calls)
    ensures RunsAs(w, DoAll(w, calls), used, acts)
    ensures NoneConnects(calls) ==> NoConnect(acts)
    ensures Sends(acts) == SendSizes(calls)
    ensures NoDhcp(calls) ==> Arrived(acts) == Arrivals(w.inbox[..used])
    decreases |calls|
  {
    hide Do, NoConnect;
    if |calls| == 0 {
      used, acts := 0, [];
      NothingRuns(w);
    } else {
      assert Fits(calls[0]);
      var n, first := CallIsRun(w, calls[0]);
      var v := Do(w, calls[0]);
      var m, rest := SessionIsRun(v, calls[1..]);
      used, acts := n + m, first + rest;
      RunsAsJoin(w, v, DoAll(w, calls), n, first, m, rest);
      RunAppend(w.h.tcp, first, rest);
      SendsAppend(first, rest);
      ArrivedAppend(first, rest);
      NoConnectJoin(first, rest);
    }
  }

  lemma NothingRuns(w: World)
    ensures RunsAs(w, w, 0, []) && NoConnect([])
    ensures Sends([]) == [] && Arrived([]) == Arrivals(w.inbox[..0])
  {
  }

  /** Over any session of calls without a connect, the phase only moves forward and a closed session
    * stays closed. */
  lemma SessionPhase(w: World, calls: seq<Call>)
    requires AllFit(calls) && NoneConnects(calls)
    ensures Rank(w.h.tcp.phase) <= Rank(DoAll(w, calls).h.tcp.phase)
    ensures w.h.tcp.phase == Closed ==> DoAll(w, calls).h.tcp.phase == Closed
  {
    hide DoAll;
    var used, acts := SessionIsRun(w, calls);
    PhaseNeverGoesBack(w.h.tcp, acts);
  }

  /** Sequence arithmetic over whole sessions: the numbers are right after every send and every segment
    * if and only if the peer's segments are in order and acknowledge everything; then the last answer
    * acknowledges everything taken from the peer, stored or not. */
  lemma SessionNumbers(w: World, calls: seq<Call>, iss: u32, irs: u32, sent: nat, handled: nat)
    returns (used: nat, acts: seq<Action>)
    requires AllFit(calls) && NoneConnects(calls)
    requires w.h.tcp.phase != SynSent && Tracks(w.h.tcp, iss, irs, sent, handled)
    ensures RunsAs(w, DoAll(w, calls), used, acts) && NoConnect(acts) && Sends(acts) == SendSizes(calls)
    ensures NoDhcp(calls) ==> Arrived(acts) == Arrivals(w.inbox[..used])
    ensures var s, r := w.h.tcp, DoAll(w, calls).h.tcp;
      && (AlwaysTracks(s, acts, iss, irs, sent, handled) <==> PeerInOrder(s, acts, iss, irs, sent, handled))
      && (PeerInOrder(s, acts, iss, irs, sent, handled) ==>
            && Tracks(r, iss, irs, sent + GivenIn(s, acts), handled + TakenIn(s, acts))
            && var replies := RunReplies(s, acts);
               TakenIn(s, acts) > 0 ==>
                 replies != [] && replies[|replies| - 1].ack == (irs + 1 + handled + TakenIn(s, acts)) % TWO32)
      && (s.phase == r.phase == Established ==> GivenIn(s, acts) == Sum(SendSizes(calls)))
  {
    hide DoAll, Tracks, PeerInOrder, AlwaysTracks;
    used, acts := SessionIsRun(w, calls);
    NumbersTrackIffInOrder(w.h.tcp, acts, iss, irs, sent, handled);
    if PeerInOrder(w.h.tcp, acts, iss, irs, sent, handled) {
      FinalNumbers(w.h.tcp, acts, iss, irs, sent, handled);
      AcknowledgesEverything(w.h.tcp, acts, iss, irs, sent, handled);
    }
    if w.h.tcp.phase == Established && DoAll(w, calls).h.tcp.phase == Established {
      EstablishedGives(w.h.tcp, acts);
    }
  }
}
