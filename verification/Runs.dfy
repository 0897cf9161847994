/** The API calls of api.hpp as functions on a stack and the frames waiting at its network card.
  * Every call is a bounded loop of polls; each loop is a recursive function over the iterations. */
module Runs {
  import opened Words
  import opened Tcp
  import opened Frames
  import opened Hosts

  const TIMEOUT_RETRANSMIT := 5000
  const TIMEOUT_ARP_LOOPS := 200000
  const TIMEOUT_TCP_LOOPS := 500000
  const TIMEOUT_CLOSE_LOOPS := 10000
  const GOOGLE_DNS: u32 := 0x0808_0808
  const MAX_TCP_DATA := MAX_PKT_SIZE - 54
  const MAX_UDP_DATA := MAX_PKT_SIZE - 42
  const MAX_HOSTNAME := 540

  /** The outcome of one receive call on the network card. */
  datatype Rx = Page(bytes: PageBytes) | NotReady | DeviceError

  /** A stack and what its card will deliver, in order; after that it is never ready. `strayed`
    * records that a page has taken the code outside it: from then on the value says nothing about
    * the code. */
  datatype World = World(h: Host, inbox: seq<Rx>, strayed: bool)

  function NextRx(inbox: seq<Rx>): Rx {
    if |inbox| == 0 then NotReady else inbox[0]
  }

  function Rest(inbox: seq<Rx>): seq<Rx> {
    if |inbox| == 0 then [] else inbox[1..]
  }

  /** `core::poll`: one receive call and its dispatch. */
  function Poll(w: World): World {
    match NextRx(w.inbox)
    case Page(b) => World(Deliver(w.h, b), Rest(w.inbox), w.strayed || Strays(w.h, b))
    case _ => w.(inbox := Rest(w.inbox))
  }

  // ---------- waiting loops ----------

  datatype Wait = ForTcpData | ForTcpClose | ForUdp | ForEcho

  predicate Over(k: Wait, h: Host) {
    match k
    case ForTcpData => h.tcp.done || h.tcp.phase == Closed || h.tcp.phase == ClosedDone
    case ForTcpClose => h.tcp.phase == ClosedDone
    case ForUdp => h.udp.done
    case ForEcho => h.ping.replied
  }

  /** At most `n` polls, until the awaited condition holds. */
  function WaitRun(k: Wait, w: World, n: nat): World
    decreases n
  {
    if n == 0 || Over(k, w.h) then w else WaitRun(k, Poll(w), n - 1)
  }

  function MaxLoops(timeoutMs: u32): u32 {
    timeoutMs * 10 % TWO32
  }

  // ---------- retrying loops ----------

  datatype Retry = Gateway | Lookup(host: Bytes) | Handshake

  datatype RetryState = RetryState(w: World, timeout: nat, loops: nat)

  predicate Finished(k: Retry, h: Host) {
    match k
    case Gateway => h.arp.resolved
    case Lookup(_) => h.dns.resolved
    case Handshake => h.tcp.phase == Established || h.tcp.phase == Closed
  }

  predicate FitsRetry(k: Retry) {
    k.Lookup? ==> |k.host| <= MAX_HOSTNAME
  }

  /** The server queries go to. */
  function DnsServer(h: Host): u32 {
    if h.dnsServer != 0 then h.dnsServer else GOOGLE_DNS
  }

  /** `protocols::dns_query`: three random numbers, then the query frame. */
  function SendQuery(h: Host, host: Bytes): Host
    requires |host| <= MAX_HOSTNAME
  {
    var s1 := NextSeed(h.seed);
    var s2 := NextSeed(s1);
    var s3 := NextSeed(s2);
    var dns := h.dns.(port := EphemeralPort(s2), id := s3 % 0x1_0000);
    Transmit(h.(seed := s3, dns := dns),
             Ipv4Frame(h.routerMac, h.mac, s1 % 0x1_0000, PROTO_UDP, h.ip, DnsServer(h),
                       UdpDatagram(h.ip, DnsServer(h), dns.port, PORT_DNS, DnsQuery(dns.id, host))))
  }

  /** The message a retrying loop sends. */
  function Request(k: Retry, h: Host): Host
    requires FitsRetry(k)
  {
    match k
    case Gateway => Transmit(h, ArpFrame(BROADCAST_MAC, ARP_REQUEST, h.mac, h.ip, [0, 0, 0, 0, 0, 0], h.router))
    case Lookup(host) => SendQuery(h, host)
    case Handshake => SendTcp(h, SYN, h.tcp.seqNo, h.tcp.ack, [])
  }

  function RetryStep(k: Retry, s: RetryState): (r: RetryState)
    requires FitsRetry(k)
    ensures r.loops == s.loops + 1
  {
    var h := if s.timeout == 0 then Request(k, s.w.h) else s.w.h;
    var timeout := if s.timeout == 0 then TIMEOUT_RETRANSMIT else s.timeout;
    RetryState(Poll(s.w.(h := h)), timeout - 1, s.loops + 1)
  }

  function RetryRun(k: Retry, s: RetryState, max: nat): RetryState
    requires FitsRetry(k)
    decreases max - s.loops
  {
    if Finished(k, s.w.h) || s.loops >= max then s else RetryRun(k, RetryStep(k, s), max)
  }

  // ---------- API calls ----------

  /** The common tail of both initialisations: resolve the gateway's MAC. */
  function ResolveGateway(w: World): World
  {
    var h := w.h.(arp := w.h.arp.(resolved := false, target := w.h.router));
    RetryRun(Gateway, RetryState(w.(h := h), 0, 0), TIMEOUT_ARP_LOOPS).w
  }

  /** Both initialisations seed the generator from the clock first. */
  function InitStatic(w: World, seed: u32, ip: u32, gateway: u32, mask: u32, dns: u32): World {
    ResolveGateway(w.(h := w.h.(seed := seed, ip := ip, router := gateway, mask := mask, dnsServer := dns)))
  }

  function ResolveHostname(w: World, host: Bytes): World
    requires |host| <= MAX_HOSTNAME
  {
    var h := w.h.(dns := w.h.dns.(resolved := false, ip := 0));
    RetryRun(Lookup(host), RetryState(w.(h := h), 0, 0), TIMEOUT_TCP_LOOPS).w
  }

  function StartConnect(h: Host, ip: u32, port: u16): Host {
    var s1 := NextSeed(h.seed);
    var s2 := NextSeed(s1);
    h.(seed := s2, tcp := Act(h.tcp, Connect(ip, port, EphemeralPort(s1), s2)))
  }

  function TcpConnect(w: World, ip: u32, port: u16): World
  {
    RetryRun(Handshake, RetryState(w.(h := StartConnect(w.h, ip, port)), 0, 0), TIMEOUT_TCP_LOOPS).w
  }

  function TcpSend(w: World, data: Bytes): World
    requires |data| <= MAX_TCP_DATA
  {
    if w.h.tcp.phase != Established then w
    else
      var h := SendTcp(w.h, PSH + ACK, w.h.tcp.seqNo, w.h.tcp.ack, data);
      w.(h := h.(tcp := Act(h.tcp, Send(|data|))))
  }

  /** The wait inside `tcp_receive`, with the buffer posted. */
  function TcpReceiving(w: World, max: nat, timeoutMs: u32): World
  {
    WaitRun(ForTcpData, w.(h := w.h.(tcp := Act(w.h.tcp, Post(max)))), MaxLoops(timeoutMs))
  }

  function TcpReceive(w: World, max: nat, timeoutMs: u32): (World, Bytes)
  {
    var r := TcpReceiving(w, max, timeoutMs);
    (r.(h := r.h.(tcp := Act(r.h.tcp, Unpost))), match r.h.tcp.rx case Some(p) => p.data case None => [])
  }

  function TcpClose(w: World): World
  {
    var r := if w.h.tcp.phase == Established then
               var h := SendTcp(w.h, FIN + ACK, w.h.tcp.seqNo, w.h.tcp.ack, []);
               WaitRun(ForTcpClose, w.(h := h.(tcp := Act(h.tcp, BeginClose))), TIMEOUT_CLOSE_LOOPS)
             else w;
    r.(h := r.h.(tcp := Act(r.h.tcp, EndClose)))
  }

  function UdpSend(w: World, ip: u32, port: u16, data: Bytes): World
    requires |data| <= MAX_UDP_DATA
  {
    var s := NextSeed(w.h.seed);
    var h := if w.h.udp.localPort == 0 then w.h.(seed := s, udp := w.h.udp.(localPort := EphemeralPort(s))) else w.h;
    w.(h := SendUdp(h, ip, port, h.udp.localPort, data))
  }

  function UdpReceive(w: World, max: nat, timeoutMs: u32): (World, Bytes)
  {
    var h := w.h.(udp := w.h.udp.(rx := Some(Posted(max, [])), done := false));
    var r := WaitRun(ForUdp, w.(h := h), MaxLoops(timeoutMs));
    (r.(h := r.h.(udp := r.h.udp.(rx := None))), match r.h.udp.rx case Some(p) => p.data case None => [])
  }

  function Ping(w: World, ip: u32, timeoutMs: u32): World
  {
    var s1 := NextSeed(w.h.seed);
    var s2 := NextSeed(s1);
    var h := w.h.(seed := s2, ping := PingState(s1 % 0x1_0000, s2 % 0x1_0000, false));
    WaitRun(ForEcho, w.(h := SendEcho(h, ip, h.ping.id, h.ping.seqNo)), MaxLoops(timeoutMs))
  }

  // ---------- what no loop changes ----------

  /** The addresses in use and the settings are the same, and frames are only added to those sent. */
  predicate Extends(h: Host, g: Host) {
    && g.mac == h.mac && g.ip == h.ip && g.mask == h.mask && g.router == h.router
    && g.dhcpServer == h.dhcpServer && g.dnsServer == h.dnsServer && g.lease == h.lease
    && h.sent <= g.sent
  }

  lemma {:induction false} RepliesGrow(h: Host, replies: seq<Reply>)
    requires forall i :: 0 <= i < |replies| ==> replies[i].flags < 64
    ensures h.sent <= SendReplies(h, replies).sent
    decreases |replies|
  {
    hide Ipv4Frame, TcpBytes, NextSeed;
    if |replies| > 0 {
      RepliesGrow(SendTcp(h, replies[0].flags, replies[0].seqNo, replies[0].ack, []), replies[1..]);
    }
  }

  lemma SentGrows(h: Host, b: PageBytes)
    ensures h.sent <= Deliver(h, b).sent
  {
    hide OnSegment, SegmentAt, SendReplies, Datagram, DnsAnswer, Ipv4Frame, ArpFrame, IcmpMessage;
    var (t, replies) := OnSegment(h.tcp, SegmentAt(b));
    RepliesSmall(h.tcp, SegmentAt(b));
    RepliesGrow(h.(tcp := t), replies);
  }

  lemma PollExtends(w: World)
    ensures Extends(w.h, Poll(w).h)
  {
    hide Strays;
    if |w.inbox| > 0 && w.inbox[0].Page? {
      DeliverParts(w.h, w.inbox[0].bytes);
      SentGrows(w.h, w.inbox[0].bytes);
      hide Deliver;
    }
  }

  lemma {:induction false} WaitRunExtends(k: Wait, w: World, n: nat)
    ensures Extends(w.h, WaitRun(k, w, n).h)
    decreases n
  {
    hide Poll, Over;
    if n > 0 && !Over(k, w.h) {
      PollExtends(w);
      WaitRunExtends(k, Poll(w), n - 1);
    }
  }

  lemma RequestExtends(k: Retry, h: Host)
    requires FitsRetry(k)
    ensures Extends(h, Request(k, h))
  {
    hide Ipv4Frame, ArpFrame, TcpBytes, UdpDatagram, DnsQuery, NextSeed, EphemeralPort;
  }

  lemma {:induction false} RetryRunExtends(k: Retry, s: RetryState, max: nat)
    requires FitsRetry(k)
    ensures Extends(s.w.h, RetryRun(k, s, max).w.h)
    decreases max - s.loops
  {
    hide Poll, Finished, Request;
    if !Finished(k, s.w.h) && s.loops < max {
      RequestExtends(k, s.w.h);
      PollExtends(s.w.(h := if s.timeout == 0 then Request(k, s.w.h) else s.w.h));
      RetryRunExtends(k, RetryStep(k, s), max);
    }
  }

  // ---------- the loops keep the invariants ----------

  /** From `w` to `r` a prefix of the waiting frames was consumed. */
  predicate Consumes(w: World, r: World) {
    |r.inbox| <= |w.inbox| && r.inbox == w.inbox[|w.inbox| - |r.inbox|..]
  }

  function Between(w: World, r: World): seq<Rx>
    requires Consumes(w, r)
  {
    w.inbox[..|w.inbox| - |r.inbox|]
  }

  predicate NoShortEcho(frames: seq<Rx>) {
    forall i :: 0 <= i < |frames| ==> !(frames[i].Page? && IsShortEcho(frames[i].bytes))
  }

  /** The invariants are kept while a prefix of the frames is polled, and the frames sent all verify
    * afterwards if and only if they did and no short echo request was among the frames polled. */
  ghost predicate KeptOver(w: World, r: World) {
    Consumes(w, r) && Kept(w.h, r.h, NoShortEcho(Between(w, r)))
  }

  /** The part of it that does not depend on the gateway in use. */
  ghost predicate VerifiesOver(w: World, r: World) {
    Consumes(w, r) && (AllVerify(r.h.sent) <==> AllVerify(w.h.sent) && NoShortEcho(Between(w, r)))
  }

  lemma NoShortEchoJoin(a: seq<Rx>, b: seq<Rx>)
    ensures NoShortEcho(a + b) <==> NoShortEcho(a) && NoShortEcho(b)
  {
    hide IsShortEcho;
    var all := a + b;
    if NoShortEcho(all) {
      assert forall i :: 0 <= i < |a| ==> a[i] == all[i];
      assert forall i :: 0 <= i < |b| ==> b[i] == all[|a| + i];
    }
  }

  lemma KeptOverJoin(w: World, v: World, r: World)
    requires KeptOver(w, v) && KeptOver(v, r)
    ensures KeptOver(w, r)
  {
    hide Steady, RouterAgrees, AllVerify, NoShortEcho;
    assert Between(w, r) == Between(w, v) + Between(v, r);
    NoShortEchoJoin(Between(w, v), Between(v, r));
  }

  lemma KeptAtOnce(w: World, g: Host)
    requires Kept(w.h, g, true)
    ensures KeptOver(w, w.(h := g))
  {
    hide Steady, RouterAgrees, AllVerify;
  }

  lemma PollKeeps(w: World)
    ensures KeptOver(w, Poll(w))
  {
    hide Steady, RouterAgrees, AllVerify, Deliver, Strays, IsShortEcho;
    assert Consumes(w, Poll(w));
    if |w.inbox| > 0 {
      assert Between(w, Poll(w)) == [w.inbox[0]];
      if w.inbox[0].Page? { DeliverKeeps(w.h, w.inbox[0].bytes); }
    }
  }

  lemma {:induction false} WaitRunKeeps(k: Wait, w: World, n: nat)
    ensures KeptOver(w, WaitRun(k, w, n))
    decreases n
  {
    hide KeptOver, Poll;
    if n == 0 || Over(k, w.h) {
      NothingKeeps(w);
    } else {
      PollKeeps(w);
      WaitRunKeeps(k, Poll(w), n - 1);
      KeptOverJoin(w, Poll(w), WaitRun(k, w, n));
    }
  }

  lemma NothingKeeps(w: World)
    ensures KeptOver(w, w)
  {
    hide Steady, RouterAgrees, AllVerify;
  }

  lemma RequestKeeps(k: Retry, h: Host)
    requires FitsRetry(k)
    ensures Kept(h, Request(k, h), true)
  {
    hide Kept;
    match k
    case Gateway =>
      ArpVerifies(BROADCAST_MAC, ARP_REQUEST, h.mac, h.ip, [0, 0, 0, 0, 0, 0], h.router);
      TransmitKeeps(h, ArpFrame(BROADCAST_MAC, ARP_REQUEST, h.mac, h.ip, [0, 0, 0, 0, 0, 0], h.router));
    case Lookup(host) => QueryKeeps(h, host);
    case Handshake => SendTcpKeeps(h, SYN, h.tcp.seqNo, h.tcp.ack, []);
  }

  lemma QueryKeeps(h: Host, host: Bytes)
    requires |host| <= MAX_HOSTNAME
    ensures Kept(h, SendQuery(h, host), true)
  {
    hide Verifies, BodyVerifies, IsRunt, Ipv4Frame, UdpDatagram, DnsQuery, NextSeed;
    var r, server, id := SendQuery(h, host), DnsServer(h), NextSeed(h.seed) % 0x1_0000;
    var body := UdpDatagram(h.ip, server, r.dns.port, PORT_DNS, DnsQuery(r.dns.id, host));
    UdpVerifies(h.ip, server, r.dns.port, PORT_DNS, DnsQuery(r.dns.id, host));
    Ipv4FrameVerifies(h.routerMac, h.mac, id, PROTO_UDP, h.ip, server, body);
    TransmitKeeps(h, Ipv4Frame(h.routerMac, h.mac, id, PROTO_UDP, h.ip, server, body));
  }

  lemma {:induction false} RetryRunKeeps(k: Retry, s: RetryState, max: nat)
    requires FitsRetry(k)
    ensures KeptOver(s.w, RetryRun(k, s, max).w)
    decreases max - s.loops
  {
    hide Kept, KeptOver, Poll, Request;
    if Finished(k, s.w.h) || s.loops >= max {
      NothingKeeps(s.w);
    } else {
      var asked := s.w.(h := if s.timeout == 0 then Request(k, s.w.h) else s.w.h);
      if s.timeout == 0 {
        RequestKeeps(k, s.w.h);
        KeptAtOnce(s.w, asked.h);
      } else {
        NothingKeeps(s.w);
      }
      PollKeeps(asked);
      KeptOverJoin(s.w, asked, Poll(asked));
      RetryRunKeeps(k, RetryStep(k, s), max);
      KeptOverJoin(s.w, Poll(asked), RetryRun(k, s, max).w);
    }
  }

  // ---------- straying is for ever ----------

  lemma {:induction false} WaitRunStrayed(k: Wait, w: World, n: nat)
    requires w.strayed
    ensures WaitRun(k, w, n).strayed
    decreases n
  {
    hide Deliver, Strays;
    if n > 0 && !Over(k, w.h) { WaitRunStrayed(k, Poll(w), n - 1); }
  }

  lemma {:induction false} RetryRunStrayed(k: Retry, s: RetryState, max: nat)
    requires FitsRetry(k) && s.w.strayed
    ensures RetryRun(k, s, max).w.strayed
    decreases max - s.loops
  {
    hide Deliver, Strays, Request;
    if !Finished(k, s.w.h) && s.loops < max { RetryRunStrayed(k, RetryStep(k, s), max); }
  }
}
