/** Retransmission pacing of the gateway, DNS and connect loops (api.hpp): how many requests a loop
  * can put on the wire, whatever frames arrive while it runs. */
module Pacing {
  import opened Words
  import opened Tcp
  import opened Frames
  import opened Hosts
  import opened Runs

  /** The frame is a request of the loop's kind, told from its bytes. */
  predicate IsRequest(k: Retry, f: Bytes) {
    match k
    case Gateway => |f| >= 22 && Be16At(f, 12) == ETHERTYPE_ARP && Be16At(f, 20) == ARP_REQUEST
    case Lookup(_) => |f| >= 38 && Be16At(f, 12) == ETHERTYPE_IPV4 && f[23] == PROTO_UDP && Be16At(f, 36) == PORT_DNS
    case Handshake => |f| >= 48 && Be16At(f, 12) == ETHERTYPE_IPV4 && f[23] == PROTO_TCP && f[47] == SYN
  }

  function Count(k: Retry, frames: seq<Bytes>): nat {
    if |frames| == 0 then 0
    else Count(k, frames[..|frames| - 1]) + if IsRequest(k, frames[|frames| - 1]) then 1 else 0
  }

  lemma CountAppend(k: Retry, frames: seq<Bytes>, f: Bytes)
    ensures Count(k, frames + [f]) == Count(k, frames) + if IsRequest(k, f) then 1 else 0
  {
  }

  // ---------- which frames are requests ----------

  lemma QueryIsRequest(k: Retry, dst: Mac, src: Mac, id: u16, s: u32, d: u32, sport: u16, data: Bytes)
    requires FitsUdp(data)
    ensures var f := Ipv4Frame(dst, src, id, PROTO_UDP, s, d, UdpDatagram(s, d, sport, PORT_DNS, data));
      IsRequest(k, f) <==> k.Lookup?
  {
  }

  lemma ArpIsRequest(k: Retry, dst: Mac, oper: u16, sha: Mac, spa: u32, tha: Mac, tpa: u32)
    ensures IsRequest(k, ArpFrame(dst, oper, sha, spa, tha, tpa)) <==> k.Gateway? && oper == ARP_REQUEST
  {
  }

  // ---------- what a step sends ----------

  /** Handling a received frame never sends a request of any kind. */
  lemma DeliverSendsNoRequest(k: Retry, h: Host, b: PageBytes)
    ensures Count(k, Deliver(h, b).sent) == Count(k, h.sent)
  {
    hide IsRequest, Ipv4Frame, ArpFrame, TcpBytes, IcmpMessage, Count;
    if Be16At(b, 12) == ETHERTYPE_ARP {
      var f := ArpFrame(b[22..28], ARP_REPLY, h.mac, h.ip, b[22..28], Le32At(b, 28));
      ArpIsRequest(k, b[22..28], ARP_REPLY, h.mac, h.ip, b[22..28], Le32At(b, 28));
      CountAppend(k, h.sent, f);
    } else if IsIpv4(b, PROTO_ICMP) {
      EchoCounts(k, h, b);
    } else if IsIpv4(b, PROTO_TCP) {
      var (t, replies) := OnSegment(h.tcp, SegmentAt(b));
      RepliesSendNoRequest(k, h.(tcp := t), replies);
    }
  }

  lemma EchoCounts(k: Retry, h: Host, b: PageBytes)
    ensures Count(k, OnIcmp(h, b).sent) == Count(k, h.sent)
  {
  }

  lemma TcpCounts(k: Retry, h: Host, flags: byte, seqNo: u32, ack: u32, data: Bytes)
    requires flags < 64 && FitsTcp(data)
    ensures Count(k, SendTcp(h, flags, seqNo, ack, data).sent) ==
      Count(k, h.sent) + if k.Handshake? && flags == SYN then 1 else 0
  {
  }

  lemma {:induction false} RepliesSendNoRequest(k: Retry, h: Host, replies: seq<Reply>)
    requires forall i :: 0 <= i < |replies| ==> replies[i].flags < 64 && replies[i].flags != SYN
    ensures Count(k, SendReplies(h, replies).sent) == Count(k, h.sent)
    decreases |replies|
  {
    hide SendTcp, Count;
    if |replies| > 0 {
      TcpCounts(k, h, replies[0].flags, replies[0].seqNo, replies[0].ack, []);
      RepliesSendNoRequest(k, SendTcp(h, replies[0].flags, replies[0].seqNo, replies[0].ack, []), replies[1..]);
    }
  }

  lemma RequestCountsOnce(k: Retry, h: Host)
    requires FitsRetry(k)
    ensures Count(k, Request(k, h).sent) == Count(k, h.sent) + 1
  {
    hide IsRequest, Ipv4Frame, ArpFrame, SendTcp, UdpDatagram, DnsQuery, Count;
    match k
    case Gateway =>
      ArpIsRequest(k, BROADCAST_MAC, ARP_REQUEST, h.mac, h.ip, [0, 0, 0, 0, 0, 0], h.router);
      CountAppend(k, h.sent, ArpFrame(BROADCAST_MAC, ARP_REQUEST, h.mac, h.ip, [0, 0, 0, 0, 0, 0], h.router));
    case Lookup(host) =>
      var r, server := SendQuery(h, host), DnsServer(h);
      var id, data := NextSeed(h.seed) % 0x1_0000, DnsQuery(r.dns.id, host);
      QueryIsRequest(k, h.routerMac, h.mac, id, h.ip, server, r.dns.port, data);
      CountAppend(k, h.sent, Ipv4Frame(h.routerMac, h.mac, id, PROTO_UDP, h.ip, server,
                                       UdpDatagram(h.ip, server, r.dns.port, PORT_DNS, data)));
    case Handshake =>
      TcpCounts(k, h, SYN, h.tcp.seqNo, h.tcp.ack, []);
  }

  lemma PollSendsNoRequest(k: Retry, w: World)
    ensures Count(k, Poll(w).h.sent) == Count(k, w.h.sent)
  {
    hide Count, Deliver;
    if |w.inbox| > 0 && w.inbox[0].Page? {
      DeliverSendsNoRequest(k, w.h, w.inbox[0].bytes);
    }
  }

  // ---------- the pacing law ----------

  /** After any number of iterations, iterations done plus ticks to go are 5000 times the requests
    * sent, whatever frames arrived. */
  lemma {:induction false} PacingLaw(k: Retry, s: RetryState, max: nat, before: nat)
    requires FitsRetry(k) && s.timeout < TIMEOUT_RETRANSMIT && s.loops <= max
    requires Count(k, s.w.h.sent) >= before
    requires s.loops + s.timeout == TIMEOUT_RETRANSMIT * (Count(k, s.w.h.sent) - before)
    ensures var r := RetryRun(k, s, max);
      && r.loops <= max && r.timeout < TIMEOUT_RETRANSMIT
      && r.loops + r.timeout == TIMEOUT_RETRANSMIT * (Count(k, r.w.h.sent) - before)
    decreases max - s.loops
  {
    hide Count, Request, Poll;
    if !Finished(k, s.w.h) && s.loops < max {
      RequestCountsOnce(k, s.w.h);
      PollSendsNoRequest(k, s.w.(h := if s.timeout == 0 then Request(k, s.w.h) else s.w.h));
      PacingLaw(k, RetryStep(k, s), max, before);
    }
  }

  /** At most 40 ARP requests per initialisation, 100 queries per lookup and 100 SYNs per connect. */
  lemma RequestLimits(w: World, host: Bytes, ip: u32, port: u16)
    requires |host| <= MAX_HOSTNAME
    ensures Count(Gateway, ResolveGateway(w).h.sent) - Count(Gateway, w.h.sent) <= 40
    ensures Count(Lookup(host), ResolveHostname(w, host).h.sent) - Count(Lookup(host), w.h.sent) <= 100
    ensures Count(Handshake, TcpConnect(w, ip, port).h.sent) - Count(Handshake, w.h.sent) <= 100
  {
    hide Count, RetryRun, NextSeed, Act;
    var h := w.h;
    PacingLaw(Gateway, RetryState(w.(h := h.(arp := h.arp.(resolved := false, target := h.router))), 0, 0),
              TIMEOUT_ARP_LOOPS, Count(Gateway, h.sent));
    PacingLaw(Lookup(host), RetryState(w.(h := h.(dns := h.dns.(resolved := false, ip := 0))), 0, 0),
              TIMEOUT_TCP_LOOPS, Count(Lookup(host), h.sent));
    PacingLaw(Handshake, RetryState(w.(h := StartConnect(h, ip, port)), 0, 0),
              TIMEOUT_TCP_LOOPS, Count(Handshake, h.sent));
  }
}
