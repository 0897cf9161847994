/** Whole sessions: any sequence of API calls, initialisations included, with any frames arriving
  * while they wait, and what holds throughout. */
module Sessions {
  import opened Words
  import opened Tcp
  import opened Frames
  import opened Hosts
  import opened Runs
  import opened DhcpClient
  import opened Initialisation

  /** The initialisations come with the seed they take from the clock. */
  datatype Call =
    | CallInit(seed: u32)
    | CallInitStatic(seed: u32, ip: u32, gateway: u32, mask: u32, dns: u32)
    | CallResolve(host: Bytes)
    | CallConnect(ip: u32, port: u16)
    | CallSend(data: Bytes)
    | CallReceive(max: nat, timeoutMs: u32)
    | CallClose
    | CallUdpSend(ip: u32, port: u16, data: Bytes)
    | CallUdpReceive(max: nat, timeoutMs: u32)
    | CallPing(ip: u32, timeoutMs: u32)
  {
    predicate Initialises() {
      CallInit? || CallInitStatic?
    }
  }

  /** The data given to a call fits the packet buffer it is built in. */
  predicate Fits(c: Call) {
    match c
    case CallResolve(host) => |host| <= MAX_HOSTNAME
    case CallSend(data) => |data| <= MAX_TCP_DATA
    case CallUdpSend(_, _, data) => |data| <= MAX_UDP_DATA
    case _ => true
  }

  predicate AllFit(calls: seq<Call>) {
    forall i :: 0 <= i < |calls| ==> Fits(calls[i])
  }

  function Do(w: World, c: Call): World
    requires Fits(c)
  {
    match c
    case CallInit(seed) => InitNetwork(w, seed)
    case CallInitStatic(seed, ip, gateway, mask, dns) => InitStatic(w, seed, ip, gateway, mask, dns)
    case CallResolve(host) => ResolveHostname(w, host)
    case CallConnect(ip, port) => TcpConnect(w, ip, port)
    case CallSend(data) => TcpSend(w, data)
    case CallReceive(max, ms) => TcpReceive(w, max, ms).0
    case CallClose => TcpClose(w)
    case CallUdpSend(ip, port, data) => UdpSend(w, ip, port, data)
    case CallUdpReceive(max, ms) => UdpReceive(w, max, ms).0
    case CallPing(ip, ms) => Ping(w, ip, ms)
  }

  function DoAll(w: World, calls: seq<Call>): World
    requires AllFit(calls)
    decreases |calls|
  {
    if |calls| == 0 then w else assert Fits(calls[0]); DoAll(Do(w, calls[0]), calls[1..])
  }

  // ---------- one call ----------

  /** Changes outside the cache, the gateway, the buffers, the session and the frames sent. */
  lemma UnrelatedKeeps(h: Host, seed: u32, dns: DnsState, ping: PingState)
    ensures Kept(h, h.(seed := seed, dns := dns, ping := ping), true)
  {
  }

  /** The session may change as its state machine allows. */
  lemma ActKeeps(h: Host, a: Action)
    requires a.Connect? ==> a.localPort >= EPHEMERAL_PORT_BASE
    ensures Kept(h, h.(tcp := Act(h.tcp, a)), true)
  {
    hide AllVerify, AllFormed;
  }

  lemma PostUdpKeeps(h: Host, port: u16, rx: Option<Posted>, done: bool)
    requires rx == h.udp.rx || rx == None || rx == Some(Posted(rx.value.max, []))
    ensures Kept(h, h.(udp := UdpState(port, rx, done)), true)
  {
  }

  /** A change of the state, a loop, another change. */
  lemma AroundLoop(w: World, g: Host, u: World, r: Host)
    requires Kept(w.h, g, true) && KeptOver(w.(h := g), u) && Kept(u.h, r, true)
    ensures KeptOver(w, u.(h := r))
  {
    KeptAtOnce(w, g);
    KeptAtOnce(u, r);
    hide KeptOver;
    KeptOverJoin(w, w.(h := g), u);
    KeptOverJoin(w, u, u.(h := r));
  }

  lemma Unchanged(h: Host)
    ensures Kept(h, h, true)
  {
    hide Steady, RouterAgrees, AllVerify;
  }

  lemma KeptTwice(h: Host, g: Host, r: Host)
    requires Kept(h, g, true) && Kept(g, r, true)
    ensures Kept(h, r, true)
  {
    hide Steady, RouterAgrees, AllVerify;
  }

  lemma ResolveKeeps(w: World, host: Bytes)
    requires |host| <= MAX_HOSTNAME
    ensures KeptOver(w, ResolveHostname(w, host))
  {
    hide Kept, KeptOver, RetryRun;
    var h := w.h.(dns := w.h.dns.(resolved := false, ip := 0));
    var u := ResolveHostname(w, host);
    UnrelatedKeeps(w.h, h.seed, h.dns, h.ping);
    RetryRunKeeps(Lookup(host), RetryState(w.(h := h), 0, 0), TIMEOUT_TCP_LOOPS);
    Unchanged(u.h);
    AroundLoop(w, h, u, u.h);
  }

  lemma ConnectKeeps(w: World, ip: u32, port: u16)
    ensures KeptOver(w, TcpConnect(w, ip, port))
  {
    hide Kept, KeptOver, RetryRun, Act, NextSeed, EphemeralPort;
    var s1 := NextSeed(w.h.seed);
    var h := w.h.(seed := NextSeed(s1));
    var u := TcpConnect(w, ip, port);
    UnrelatedKeeps(w.h, h.seed, h.dns, h.ping);
    ActKeeps(h, Connect(ip, port, EphemeralPort(s1), h.seed));
    KeptTwice(w.h, h, StartConnect(w.h, ip, port));
    RetryRunKeeps(Handshake, RetryState(w.(h := StartConnect(w.h, ip, port)), 0, 0), TIMEOUT_TCP_LOOPS);
    Unchanged(u.h);
    AroundLoop(w, StartConnect(w.h, ip, port), u, u.h);
  }

  lemma SendKeeps(w: World, data: Bytes)
    requires |data| <= MAX_TCP_DATA
    ensures KeptOver(w, TcpSend(w, data))
  {
    hide Kept, KeptOver, SendTcp, Act;
    var h := SendTcp(w.h, PSH + ACK, w.h.tcp.seqNo, w.h.tcp.ack, data);
    SendTcpKeeps(w.h, PSH + ACK, w.h.tcp.seqNo, w.h.tcp.ack, data);
    ActKeeps(h, Send(|data|));
    KeptTwice(w.h, h, h.(tcp := Act(h.tcp, Send(|data|))));
    KeptAtOnce(w, h.(tcp := Act(h.tcp, Send(|data|))));
    NothingKeeps(w);
  }

  lemma ReceiveKeeps(w: World, max: nat, timeoutMs: u32)
    ensures KeptOver(w, TcpReceive(w, max, timeoutMs).0)
  {
    hide Kept, KeptOver, WaitRun, Act;
    var h := w.h.(tcp := Act(w.h.tcp, Post(max)));
    var u := WaitRun(ForTcpData, w.(h := h), MaxLoops(timeoutMs));
    ActKeeps(w.h, Post(max));
    WaitRunKeeps(ForTcpData, w.(h := h), MaxLoops(timeoutMs));
    ActKeeps(u.h, Unpost);
    AroundLoop(w, h, u, u.h.(tcp := Act(u.h.tcp, Unpost)));
  }

  lemma CloseKeeps(w: World)
    ensures KeptOver(w, TcpClose(w))
  {
    hide Kept, KeptOver, WaitRun, SendTcp, Act;
    var h := SendTcp(w.h, FIN + ACK, w.h.tcp.seqNo, w.h.tcp.ack, []);
    var g := h.(tcp := Act(h.tcp, BeginClose));
    SendTcpKeeps(w.h, FIN + ACK, w.h.tcp.seqNo, w.h.tcp.ack, []);
    ActKeeps(h, BeginClose);
    KeptTwice(w.h, h, g);
    var u := if w.h.tcp.phase == Established then WaitRun(ForTcpClose, w.(h := g), TIMEOUT_CLOSE_LOOPS) else w;
    ActKeeps(u.h, EndClose);
    var end := u.h.(tcp := Act(u.h.tcp, EndClose));
    if w.h.tcp.phase == Established {
      WaitRunKeeps(ForTcpClose, w.(h := g), TIMEOUT_CLOSE_LOOPS);
      AroundLoop(w, g, u, end);
    } else {
      KeptAtOnce(w, end);
    }
  }

  lemma UdpSendKeeps(w: World, ip: u32, port: u16, data: Bytes)
    requires |data| <= MAX_UDP_DATA
    ensures KeptOver(w, UdpSend(w, ip, port, data))
  {
    hide Kept, KeptOver, SendUdp, NextSeed, EphemeralPort;
    var s := NextSeed(w.h.seed);
    var drawn := w.h.(seed := s, udp := w.h.udp.(localPort := EphemeralPort(s)));
    var h := if w.h.udp.localPort == 0 then drawn else w.h;
    UnrelatedKeeps(w.h, s, w.h.dns, w.h.ping);
    PostUdpKeeps(w.h.(seed := s), EphemeralPort(s), w.h.udp.rx, w.h.udp.done);
    KeptTwice(w.h, w.h.(seed := s), drawn);
    Unchanged(w.h);
    SendUdpKeeps(h, ip, port, h.udp.localPort, data);
    KeptTwice(w.h, h, SendUdp(h, ip, port, h.udp.localPort, data));
    KeptAtOnce(w, SendUdp(h, ip, port, h.udp.localPort, data));
  }

  lemma UdpReceiveKeeps(w: World, max: nat, timeoutMs: u32)
    ensures KeptOver(w, UdpReceive(w, max, timeoutMs).0)
  {
    hide Kept, KeptOver, WaitRun;
    var h := w.h.(udp := w.h.udp.(rx := Some(Posted(max, [])), done := false));
    var u := WaitRun(ForUdp, w.(h := h), MaxLoops(timeoutMs));
    PostUdpKeeps(w.h, w.h.udp.localPort, Some(Posted(max, [])), false);
    WaitRunKeeps(ForUdp, w.(h := h), MaxLoops(timeoutMs));
    PostUdpKeeps(u.h, u.h.udp.localPort, None, u.h.udp.done);
    AroundLoop(w, h, u, u.h.(udp := u.h.udp.(rx := None)));
  }

  lemma PingKeeps(w: World, ip: u32, timeoutMs: u32)
    ensures KeptOver(w, Ping(w, ip, timeoutMs))
  {
    hide Kept, KeptOver, WaitRun, NextSeed, BodyVerifies, SendIpv4;
    var s1 := NextSeed(w.h.seed);
    var s2 := NextSeed(s1);
    var h := w.h.(seed := s2, ping := PingState(s1 % 0x1_0000, s2 % 0x1_0000, false));
    var g := SendEcho(h, ip, h.ping.id, h.ping.seqNo);
    UnrelatedKeeps(w.h, s2, w.h.dns, h.ping);
    IcmpVerifies(ECHO_REQUEST, 0, PingRest(h.ping.id, h.ping.seqNo), h.ip, ip);
    SendIpv4Keeps(h, PROTO_ICMP, ip, IcmpMessage(ECHO_REQUEST, 0, PingRest(h.ping.id, h.ping.seqNo)));
    KeptTwice(w.h, h, g);
    WaitRunKeeps(ForEcho, w.(h := g), MaxLoops(timeoutMs));
    var u := Ping(w, ip, timeoutMs);
    Unchanged(u.h);
    AroundLoop(w, g, u, u.h);
  }

  /** The world from which a call polls: DHCP consumes its frames itself. */
  function Polled(w: World, c: Call): World {
    if c.CallInit? then w.(inbox := w.inbox[Spent(w.inbox)..]) else w
  }

  /** One API call keeps the invariants, whatever frames arrive while it waits; an initialisation
    * keeps the gateway-independent one. The frames sent all verify afterwards if and only if they did
    * and no short echo request was polled. */
  lemma DoKeeps(w: World, c: Call)
    requires Fits(c)
    ensures Steady(w.h) ==> Steady(Do(w, c).h)
    ensures !c.Initialises() ==> KeptOver(w, Do(w, c))
    ensures VerifiesOver(Polled(w, c), Do(w, c))
  {
    hide Steady, RouterAgrees, AllVerify, InitNetwork, InitStatic, ResolveHostname, TcpConnect, TcpSend, TcpReceive,
         TcpClose, UdpSend, UdpReceive, Ping, NoShortEcho, Spent, Decide, Answers;
    match c
    case CallInit(seed) =>
      InitNetworkVerifies(w, seed);
      if Steady(w.h) { InitNetworkOutcome(w, seed); }
    case CallInitStatic(seed, ip, gateway, mask, dns) =>
      InitStaticVerifies(w, seed, ip, gateway, mask, dns);
      if Steady(w.h) { InitStaticOutcome(w, seed, ip, gateway, mask, dns); }
    case CallResolve(host) => ResolveKeeps(w, host);
    case CallConnect(ip, port) => ConnectKeeps(w, ip, port);
    case CallSend(data) => SendKeeps(w, data);
    case CallReceive(max, ms) => ReceiveKeeps(w, max, ms);
    case CallClose => CloseKeeps(w);
    case CallUdpSend(ip, port, data) => UdpSendKeeps(w, ip, port, data);
    case CallUdpReceive(max, ms) => UdpReceiveKeeps(w, max, ms);
    case CallPing(ip, ms) => PingKeeps(w, ip, ms);
  }

  // ---------- whole sessions ----------

  /** The initialisation reports success: an address was obtained and the gateway's MAC resolved. */
  predicate Succeeds(w: World, c: Call)
    requires c.Initialises()
  {
    match c
    case CallInit(seed) => Handshaken(w, seed).phase == Bound && InitNetwork(w, seed).h.arp.resolved
    case CallInitStatic(seed, ip, gateway, mask, dns) => InitStatic(w, seed, ip, gateway, mask, dns).h.arp.resolved
  }

  predicate NoInit(calls: seq<Call>) {
    forall i :: 0 <= i < |calls| ==> !calls[i].Initialises()
  }

  /** If there are initialisations among the calls, the last one succeeds. */
  predicate LastInitSucceeds(w: World, calls: seq<Call>)
    requires AllFit(calls)
    decreases |calls|
  {
    |calls| > 0 ==>
      assert Fits(calls[0]);
      && (calls[0].Initialises() && NoInit(calls[1..]) ==> Succeeds(w, calls[0]))
      && LastInitSucceeds(Do(w, calls[0]), calls[1..])
  }

  /** Safety over whole sessions, from any state and with any frames arriving: every frame ever sent
    * has right lengths and checksums, short replies to short echo requests apart, no buffer is overrun,
    * the cache is bounded and free of duplicates; and it agrees with the gateway's MAC after every
    * session that starts in agreement, or initialises, and whose last initialisation, if any, succeeds. */
  lemma {:induction false} SessionKeeps(w: World, calls: seq<Call>)
    requires AllFit(calls) && Steady(w.h)
    ensures Steady(DoAll(w, calls).h)
    ensures (RouterAgrees(w.h) || !NoInit(calls)) && LastInitSucceeds(w, calls) ==> RouterAgrees(DoAll(w, calls).h)
    decreases |calls|
  {
    hide Steady, RouterAgrees, AllVerify, Do, Succeeds, Call.Initialises, Fits, Consumes, NoShortEcho, Polled;
    if |calls| > 0 {
      assert Fits(calls[0]);
      DoKeeps(w, calls[0]);
      if calls[0].Initialises() { SuccessAgrees(w, calls[0]); }
      NoInitSplit(calls);
      SessionKeeps(Do(w, calls[0]), calls[1..]);
    }
  }

  lemma NoInitSplit(calls: seq<Call>)
    requires |calls| > 0
    ensures NoInit(calls) <==> !calls[0].Initialises() && NoInit(calls[1..])
  {
    hide Call.Initialises;
    if !calls[0].Initialises() && NoInit(calls[1..]) {
      forall i | 0 <= i < |calls| ensures !calls[i].Initialises() {
        if i > 0 { assert !calls[1..][i - 1].Initialises(); }
      }
    } else if NoInit(calls) {
      forall i | 0 <= i < |calls[1..]| ensures !calls[1..][i].Initialises() {
        assert !calls[i + 1].Initialises();
      }
    }
  }

  /** A successful initialisation leaves the cache in agreement, whatever it held before. */
  lemma SuccessAgrees(w: World, c: Call)
    requires c.Initialises() && Fits(c) && Steady(w.h)
    ensures Succeeds(w, c) ==> RouterAgrees(Do(w, c).h)
  {
    hide InitNetwork, InitStatic, Handshaken, RouterAgrees, Steady, Answers, NoStaleBinding, Decide, SettingsInUse,
         Spent;
    match c
    case CallInit(seed) => InitNetworkOutcome(w, seed);
    case CallInitStatic(seed, ip, gateway, mask, dns) => InitStaticOutcome(w, seed, ip, gateway, mask, dns);
  }

  // ---------- which sessions send only frames that verify ----------

  predicate NoDhcp(calls: seq<Call>) {
    forall i :: 0 <= i < |calls| ==> !calls[i].CallInit?
  }

  /** The frames a session polls: all it consumes but those the handshakes consume themselves. */
  ghost function PolledIn(w: World, calls: seq<Call>): seq<Rx>
    requires AllFit(calls)
    decreases |calls|
  {
    if |calls| == 0 then [] else
      assert Fits(calls[0]);
      DoKeeps(w, calls[0]);
      Between(Polled(w, calls[0]), Do(w, calls[0])) + PolledIn(Do(w, calls[0]), calls[1..])
  }

  /** The exact condition for every frame to verify: over any session, all frames sent verify if and
    * only if those sent before did and no frame polled is a short echo request. */
  lemma {:induction false} SessionVerifies(w: World, calls: seq<Call>)
    requires AllFit(calls)
    ensures AllVerify(DoAll(w, calls).h.sent) <==> AllVerify(w.h.sent) && NoShortEcho(PolledIn(w, calls))
    decreases |calls|
  {
    hide AllVerify, Do, Fits, NoShortEcho, Spent, Steady, RouterAgrees;
    if |calls| == 0 {
      NothingShort();
    } else {
      assert Fits(calls[0]);
      var v := Do(w, calls[0]);
      DoKeeps(w, calls[0]);
      SessionVerifies(v, calls[1..]);
      NoShortEchoJoin(Between(Polled(w, calls[0]), v), PolledIn(v, calls[1..]));
    }
  }

  /** Without DHCP, the frames polled are all that are consumed. */
  lemma {:induction false} PolledIsConsumed(w: World, calls: seq<Call>)
    requires AllFit(calls) && NoDhcp(calls)
    ensures Consumes(w, DoAll(w, calls)) && PolledIn(w, calls) == Between(w, DoAll(w, calls))
    decreases |calls|
  {
    hide Do, Fits, Spent, Steady, RouterAgrees, AllVerify, NoShortEcho;
    if |calls| > 0 {
      assert Fits(calls[0]) && !calls[0].CallInit?;
      DoKeeps(w, calls[0]);
      PolledIsConsumed(Do(w, calls[0]), calls[1..]);
    }
  }

  /** The state before any call satisfies the invariants, so all of this holds from the start. */
  lemma InitialConsistent(mac: Mac, seed: u32)
    ensures Consistent(Initial(mac, seed)) && Initial(mac, seed).arp.cache == []
  {
  }
}
