/** What the two initialisations leave behind (api.hpp): whether the gateway's MAC was learned, and
  * when the ARP cache agrees with it, whatever the cache held before. */
module Initialisation {
  import opened Words
  import opened ArpFifo
  import opened Frames
  import opened Hosts
  import opened Runs
  import opened DhcpClient

  // ---------- what is heard ----------

  /** The bindings announced by the ARP replies among received frames. */
  function Heard(inbox: seq<Rx>): seq<Binding> {
    if |inbox| == 0 then []
    else
      (match inbox[0]
       case Page(b) => (match HeardIn(b) case Some(x) => [x] case None => [])
       case _ => []) + Heard(inbox[1..])
  }

  predicate Answers(ip: u32, inbox: seq<Rx>) {
    exists x :: x in Heard(inbox) && x.ip == ip
  }

  lemma {:induction false} HeardSplit(a: seq<Rx>, b: seq<Rx>)
    ensures Heard(a + b) == Heard(a) + Heard(b)
  {
    if a == [] {
      assert a + b == b;
    } else {
      assert (a + b)[1..] == a[1..] + b;
      HeardSplit(a[1..], b);
    }
  }

  // ---------- the gateway loop ----------

  lemma RequestKeepsArp(h: Host)
    ensures var r := Request(Gateway, h); r.arp == h.arp && r.router == h.router && r.routerMac == h.routerMac
  {
  }

  /** One iteration: the next frame, if it is an ARP reply, is learned; nothing else matters. */
  lemma GatewayStep(s: RetryState)
    requires Bounded(s.w.h.arp.cache) && s.w.h.arp.target == s.w.h.router && !s.w.h.arp.resolved
    ensures var t, h := RetryStep(Gateway, s), s.w.h; var g := t.w.h;
      && t.w.inbox == Rest(s.w.inbox) && g.router == h.router && g.arp.target == h.router
      && g.arp.cache == LearnAll(h.arp.cache, Heard(s.w.inbox[..Min(|s.w.inbox|, 1)])) && Bounded(g.arp.cache)
      && (g.arp.resolved <==> Answers(h.router, s.w.inbox[..Min(|s.w.inbox|, 1)]))
      && (!g.arp.resolved ==> g.routerMac == h.routerMac)
      && (g.arp.resolved ==> Find(g.arp.cache, g.router) == Some(g.routerMac))
  {
    hide Request, Deliver, Learn, Find, Bounded;
    var h := if s.timeout == 0 then Request(Gateway, s.w.h) else s.w.h;
    RequestKeepsArp(s.w.h);
    var first := s.w.inbox[..Min(|s.w.inbox|, 1)];
    if |s.w.inbox| > 0 && s.w.inbox[0].Page? {
      var b := s.w.inbox[0].bytes;
      DeliverParts(h, b);
      assert Heard(first[1..]) == [];
      match HeardIn(b)
      case None => assert Heard(first) == [];
      case Some(x) =>
        assert Heard(first) == [x] && x in Heard(first) && [x][1..] == [];
        assert LearnAll(h.arp.cache, [x]) == Learn(h.arp.cache, x.ip, x.mac);
        LearnKeepsBounded(h.arp.cache, x.ip, x.mac);
        FindAfterLearn(h.arp.cache, x.ip, x.mac, h.router);
    }
  }

  /** The loop consumes frames up to the first reply from the gateway, or until its budget is spent. */
  lemma {:induction false} GatewayRun(s: RetryState, max: nat) returns (used: nat)
    requires Bounded(s.w.h.arp.cache) && s.w.h.arp.target == s.w.h.router && !s.w.h.arp.resolved && s.loops <= max
    ensures used <= Min(|s.w.inbox|, max - s.loops)
    ensures var r, taken := RetryRun(Gateway, s, max).w, s.w.inbox[..used];
      && r.inbox == s.w.inbox[used..] && r.h.router == s.w.h.router
      && r.h.arp.cache == LearnAll(s.w.h.arp.cache, Heard(taken))
      && (r.h.arp.resolved <==> Answers(s.w.h.router, taken))
      && (!r.h.arp.resolved ==> used == Min(|s.w.inbox|, max - s.loops) && r.h.routerMac == s.w.h.routerMac)
      && (r.h.arp.resolved ==> Find(r.h.arp.cache, r.h.router) == Some(r.h.routerMac))
    decreases max - s.loops
  {
    hide RetryStep, Find, Bounded, Learn;
    var inbox, t := s.w.inbox, RetryStep(Gateway, s);
    if s.loops == max {
      used := 0;
    } else {
      GatewayStep(s);
      if t.w.h.arp.resolved {
        used := 1;
      } else {
        var more := GatewayRun(t, max);
        used := if |inbox| == 0 then 0 else 1 + more;
        if |inbox| > 0 {
          assert inbox[..used] == inbox[..1] + inbox[1..][..more];
          HeardSplit(inbox[..1], inbox[1..][..more]);
          LearnAllSplit(s.w.h.arp.cache, Heard(inbox[..1]), Heard(inbox[1..][..more]));
        }
      }
    }
  }

  lemma {:induction false} LearnAllSplit(q: Queue, a: seq<Binding>, b: seq<Binding>)
    ensures LearnAll(q, a + b) == LearnAll(LearnAll(q, a), b)
    decreases |a|
  {
    if a == [] {
      assert a + b == b;
    } else {
      assert (a + b)[1..] == a[1..] + b;
      LearnAllSplit(Learn(q, a[0].ip, a[0].mac), a[1..], b);
    }
  }

  // ---------- the outcome ----------

  /** The frames the gateway loop can look at. */
  function InTime(inbox: seq<Rx>): seq<Rx> {
    inbox[..Min(|inbox|, TIMEOUT_ARP_LOOPS)]
  }

  /** The cache holds no other MAC than `mac` for the gateway, or the replies push its binding out. */
  predicate NoStaleBinding(q: Queue, gateway: u32, mac: Mac, heard: seq<Binding>)
    requires |q| <= CACHE_SIZE
  {
    Find(q, gateway) == None || Find(q, gateway) == Some(mac) || PushesOut(q, heard, gateway)
  }

  /** Resolving the gateway, from any cache: it succeeds if and only if a reply from the gateway
    * arrives in time, after which the cache agrees with the gateway's MAC; otherwise it agrees if and
    * only if no stale binding is left. */
  lemma GatewayOutcome(w: World)
    requires Bounded(w.h.arp.cache)
    ensures var r, within := ResolveGateway(w).h, InTime(w.inbox);
      && r.router == w.h.router
      && (r.arp.resolved <==> Answers(w.h.router, within))
      && (RouterAgrees(r) <==>
          (Answers(w.h.router, within) || NoStaleBinding(w.h.arp.cache, w.h.router, w.h.routerMac, Heard(within))))
  {
    hide RetryRun, Find, PushesOut;
    var h := w.h.(arp := w.h.arp.(resolved := false, target := w.h.router));
    var used := GatewayRun(RetryState(w.(h := h), 0, 0), TIMEOUT_ARP_LOOPS);
    var within := InTime(w.inbox);
    var taken, later := w.inbox[..used], within[used..];
    assert within == taken + later;
    HeardSplit(taken, later);
    if !Answers(w.h.router, taken) {
      assert taken == within;
      FindAfterOthers(w.h.arp.cache, Heard(taken), w.h.router);
    }
  }

  lemma ResolveGatewayKeeps(w: World)
    ensures Steady(w.h) ==> Steady(ResolveGateway(w).h)
    ensures VerifiesOver(w, ResolveGateway(w))
  {
    hide Verifies, IsRunt, RetryRun;
    var h := w.h.(arp := w.h.arp.(resolved := false, target := w.h.router));
    RetryRunKeeps(Gateway, RetryState(w.(h := h), 0, 0), TIMEOUT_ARP_LOOPS);
  }

  lemma ResolveGatewayExtends(w: World)
    ensures Extends(w.h, ResolveGateway(w).h)
  {
    hide RetryRun;
    var h := w.h.(arp := w.h.arp.(resolved := false, target := w.h.router));
    RetryRunExtends(Gateway, RetryState(w.(h := h), 0, 0), TIMEOUT_ARP_LOOPS);
  }

  // ---------- the two initialisations ----------

  /** Static initialisation, whatever the stack did before. It stores what it is given. */
  lemma InitStaticOutcome(w: World, seed: u32, ip: u32, gateway: u32, mask: u32, dns: u32)
    requires Steady(w.h)
    ensures var r, within := InitStatic(w, seed, ip, gateway, mask, dns).h, InTime(w.inbox);
      && Steady(r) && r.ip == ip && r.router == gateway && r.mask == mask && r.dnsServer == dns
      && (r.arp.resolved <==> Answers(gateway, within))
      && (RouterAgrees(r) <==>
          (Answers(gateway, within) || NoStaleBinding(w.h.arp.cache, gateway, w.h.routerMac, Heard(within))))
  {
    hide ResolveGateway, AllFormed, AllVerify, RouterAgrees, Answers, NoStaleBinding;
    var v := w.(h := w.h.(seed := seed, ip := ip, router := gateway, mask := mask, dnsServer := dns));
    GatewayOutcome(v);
    ResolveGatewayKeeps(v);
    ResolveGatewayExtends(v);
  }

  lemma InitStaticVerifies(w: World, seed: u32, ip: u32, gateway: u32, mask: u32, dns: u32)
    ensures VerifiesOver(w, InitStatic(w, seed, ip, gateway, mask, dns))
  {
    hide ResolveGateway, AllVerify, NoShortEcho;
    ResolveGatewayKeeps(w.(h := w.h.(seed := seed, ip := ip, router := gateway, mask := mask, dnsServer := dns)));
  }

  /** The handshake on the stack: what it leaves, told from the frames waiting. */
  lemma AfterHandshake(w: World, seed: u32)
    ensures var c := Handshaken(w, seed);
      && c.inbox == w.inbox[Spent(w.inbox)..] && SettingsOf(c.h) == SettingsInUse(SettingsOf(w.h), w.inbox)
      && (Decide(w.inbox).NoOffer? ==> Terms(c.h) == Terms(w.h))
      && (!Decide(w.inbox).NoOffer? ==>
            Terms(c.h) == (OfferedIp(Decide(w.inbox).offer), ServerOf(Decide(w.inbox).offer)))
      && (c.phase == Bound <==> Decide(w.inbox).Obtained?)
      && (Steady(w.h) ==> Steady(c.h)) && (AllVerify(c.h.sent) <==> AllVerify(w.h.sent))
      && c.h.arp == w.h.arp && c.h.routerMac == w.h.routerMac
  {
    hide Decide, Spent, SettingsInUse, DhcpRun, NextSeed, AllVerify, AllFormed, AcceptedIn, OfferedIp, ServerOf;
    var xid := NextSeed(seed);
    DhcpKeeps(Start(w.h.(seed := xid), w.inbox), xid);
    HandshakeOutcome(w.h.(seed := xid), w.inbox, xid);
  }

  /** Initialisation by DHCP, whatever the stack did before, told from its state and the frames waiting.
    * Gateway, DNS server, mask and lease are the last options of their kind among the frames the
    * handshake consumes, accepted or not; the server stands in for the gateway; the own address is that
    * of the first offer. If an address is obtained, resolving the gateway then depends on the frames
    * behind; if not, the cache agrees if and only if it holds no other MAC for that gateway. */
  lemma InitNetworkOutcome(w: World, seed: u32)
    requires Steady(w.h)
    ensures var r, conf := InitNetwork(w, seed).h, SettingsInUse(SettingsOf(w.h), w.inbox);
      var within := InTime(w.inbox[Spent(w.inbox)..]);
      && Steady(r) && SettingsOf(r) == conf && Bounded(w.h.arp.cache)
      && r.ip == (if Decide(w.inbox).NoOffer? then w.h.ip else OfferedIp(Decide(w.inbox).offer))
      && (Handshaken(w, seed).phase == Bound <==> Decide(w.inbox).Obtained?)
      && if Decide(w.inbox).Obtained? then
           && (r.arp.resolved <==> Answers(conf.router, within))
           && (RouterAgrees(r) <==>
               (Answers(conf.router, within) ||
                NoStaleBinding(w.h.arp.cache, conf.router, w.h.routerMac, Heard(within))))
         else
           RouterAgrees(r) <==>
           (Find(w.h.arp.cache, conf.router) == None || Find(w.h.arp.cache, conf.router) == Some(w.h.routerMac))
  {
    hide ResolveGateway, AllFormed, AllVerify, Answers, Find, InTime, Decide, Spent, SettingsInUse, Handshaken,
         NoStaleBinding, Consumes, NoShortEcho, OfferedIp, ServerOf;
    AfterHandshake(w, seed);
    var c := Handshaken(w, seed);
    var v := w.(h := c.h, inbox := c.inbox);
    GatewayOutcome(v);
    ResolveGatewayKeeps(v);
    ResolveGatewayExtends(v);
  }

  /** The frames consumed by the handshake are not polled; on those behind, the frames sent fare as in
    * any loop. */
  lemma InitNetworkVerifies(w: World, seed: u32)
    ensures VerifiesOver(w.(inbox := w.inbox[Spent(w.inbox)..]), InitNetwork(w, seed))
    ensures !Decide(w.inbox).Obtained? ==> InitNetwork(w, seed).inbox == w.inbox[Spent(w.inbox)..]
  {
    hide ResolveGateway, AllVerify, Decide, Spent, SettingsInUse, NoShortEcho, Handshaken, Steady;
    AfterHandshake(w, seed);
    var c := Handshaken(w, seed);
    var v := w.(h := c.h, inbox := c.inbox);
    ResolveGatewayKeeps(v);
    NothingShort();
    assert Consumes(v, v) && Between(v, v) == [];
  }

  lemma NothingShort()
    ensures NoShortEcho([])
  {
  }
}
