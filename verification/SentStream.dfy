/** The stream a session sends (api.hpp `tcp_send`): over any calls and any frames arriving, the payloads of
  * the segments put on the wire are exactly the data the application gave while established. */
module SentStream {
  import opened Words
  import opened Tcp
  import opened Frames
  import opened Hosts
  import opened Runs
  import opened Wire
  import opened TwoStacks
  import opened Traffic
  import opened Requests
  import opened DhcpOptions
  import opened DhcpClient
  import opened Sessions
  import Delivery

  /** The payload of a frame, if it is a segment. */
  function PayloadOf(f: Bytes): Bytes {
    match Decode(f)
    case IpPacket(_, _, _, _, _, TcpPart(_, _, _, _, _, _, data)) => data
    case _ => []
  }

  /** The payloads of the segments among frames, in order. */
  function StreamOut(frames: seq<Bytes>): Bytes {
    if |frames| == 0 then [] else StreamOut(frames[..|frames| - 1]) + PayloadOf(frames[|frames| - 1])
  }

  lemma StreamAppend(frames: seq<Bytes>, f: Bytes)
    ensures StreamOut(frames + [f]) == StreamOut(frames) + PayloadOf(f)
  {
    hide PayloadOf;
    assert (frames + [f])[..|frames|] == frames;
  }

  /** Frames are added whose payloads make up `data`. */
  predicate Adds(h: Host, g: Host, data: Bytes) {
    StreamOut(g.sent) == StreamOut(h.sent) + data
  }

  lemma OneAdds(h: Host, g: Host, f: Bytes)
    requires g.sent == h.sent + [f]
    ensures Adds(h, g, PayloadOf(f))
  {
    hide PayloadOf;
    StreamAppend(h.sent, f);
  }

  lemma AddsTwice(h: Host, g: Host, r: Host, a: Bytes, b: Bytes)
    requires Adds(h, g, a) && Adds(g, r, b)
    ensures Adds(h, r, a + b)
  {
    hide StreamOut;
    assert StreamOut(h.sent) + a + b == StreamOut(h.sent) + (a + b);
  }

  lemma CarriesData(f: Bytes, h: Host, daddr: u32, part: Part)
    requires Carries(f, h, daddr, part)
    ensures PayloadOf(f) == match part case TcpPart(_, _, _, _, _, _, data) => data case _ => []
  {
    hide Decode;
  }

  // ---------- what arrives makes the stack send no data ----------

  lemma {:induction false} EmptyPartsAdd(h: Host, frames: seq<Bytes>, daddr: u32, parts: seq<Part>)
    requires |frames| == |h.sent| + |parts| && h.sent <= frames
    requires forall i :: 0 <= i < |parts| ==> Carries(frames[|h.sent| + i], h, daddr, parts[i])
    requires forall i :: 0 <= i < |parts| && parts[i].TcpPart? ==> parts[i].data == []
    ensures StreamOut(frames) == StreamOut(h.sent)
    decreases |parts|
  {
    hide Carries, PayloadOf;
    if |parts| == 0 {
      assert frames == h.sent;
    } else {
      var n := |parts| - 1;
      EmptyPartsAdd(h, frames[..|frames| - 1], daddr, parts[..n]);
      CarriesData(frames[|h.sent| + n], h, daddr, parts[n]);
    }
  }

  lemma DueEmpty(s: Session, g: Segment)
    ensures forall i :: 0 <= i < |Due(s, g)| ==> Due(s, g)[i].TcpPart? && Due(s, g)[i].data == []
  {
    hide Segment.Has;
  }

  lemma DeliverAddsNothing(h: Host, b: PageBytes)
    ensures Adds(h, Deliver(h, b), [])
  {
    hide Deliver, Carries, Due, SegmentAt, AsksForUs, IsEchoRequest, StreamOut;
    var g := Deliver(h, b);
    if Be16At(b, 12) == ETHERTYPE_ARP {
      ArpAnswered(h, b);
      if AsksForUs(h, b) {
        assert g.sent == h.sent + [LastSent(g)];
        OneAdds(h, g, LastSent(g));
        ArpHasNoData(LastSent(g));
      }
    } else if IsIpv4(b, PROTO_ICMP) {
      EchoOnWire(h, b);
      var o, len := Layer4(b), IcmpLen(b);
      if IsEchoRequest(b) && 0 <= len <= MAX_PKT_SIZE - 34 {
        OneAdds(h, g, LastSent(g));
        CarriesData(LastSent(g), h, Le32At(b, 26),
                    if len < 4 then Malformed else IcmpPart(ECHO_REPLY, 0, b[o + 4..o + len]));
      }
    } else if IsIpv4(b, PROTO_TCP) {
      SegmentAnswered(h, b);
      DueEmpty(h.tcp, SegmentAt(b));
      EmptyPartsAdd(h, g.sent, h.tcp.remoteIp, Due(h.tcp, SegmentAt(b)));
    } else {
      NothingAnswered(h, b);
    }
  }

  lemma ArpHasNoData(f: Bytes)
    requires |f| == 42 && Be16At(f, 12) == ETHERTYPE_ARP
    ensures PayloadOf(f) == []
  {
  }

  lemma PollAddsNothing(w: World)
    ensures Adds(w.h, Poll(w).h, [])
  {
    hide Deliver, Strays, StreamOut;
    if |w.inbox| > 0 && w.inbox[0].Page? {
      DeliverAddsNothing(w.h, w.inbox[0].bytes);
    }
  }

  lemma {:induction false} WaitAddsNothing(k: Wait, w: World, n: nat)
    ensures Adds(w.h, WaitRun(k, w, n).h, [])
    decreases n
  {
    hide Poll, Over, StreamOut;
    if n > 0 && !Over(k, w.h) {
      PollAddsNothing(w);
      WaitAddsNothing(k, Poll(w), n - 1);
      AddsTwice(w.h, Poll(w).h, WaitRun(k, w, n).h, [], []);
    }
  }

  lemma ProperHasNoData(k: Retry, h: Host, f: Bytes)
    requires FitsRetry(k) && Proper(k, h, f)
    ensures PayloadOf(f) == []
  {
    hide Decode, DnsQuery;
  }

  lemma RequestAddsNothing(k: Retry, h: Host)
    requires FitsRetry(k)
    ensures Adds(h, Request(k, h), [])
  {
    hide Request, StreamOut, PayloadOf, Proper;
    RequestProper(k, h);
    OneAdds(h, Request(k, h), LastSent(Request(k, h)));
    ProperHasNoData(k, h, LastSent(Request(k, h)));
  }

  lemma {:induction false} RetryAddsNothing(k: Retry, s: RetryState, max: nat)
    requires FitsRetry(k)
    ensures Adds(s.w.h, RetryRun(k, s, max).w.h, [])
    decreases max - s.loops
  {
    hide Poll, Finished, Request, StreamOut;
    if !Finished(k, s.w.h) && s.loops < max {
      var h := if s.timeout == 0 then Request(k, s.w.h) else s.w.h;
      RequestAddsNothing(k, s.w.h);
      PollAddsNothing(s.w.(h := h));
      RetryAddsNothing(k, RetryStep(k, s), max);
    }
  }

  lemma DhcpFrameHasNoData(kind: byte, xid: u32, mac: Mac, ip: u32, server: u32)
    ensures PayloadOf(DhcpFrame(kind, xid, mac, ip, server)) == []
  {
    hide Decode, DhcpDatagram, Ipv4Frame;
    IpDecoded(BROADCAST_MAC, mac, 1, PROTO_UDP, 0, BROADCAST_IP, DhcpDatagram(kind, xid, mac, ip, server));
  }

  lemma {:induction false} DhcpAddsNothing(c: Client, xid: u32)
    ensures Adds(c.h, DhcpRun(c, xid).h, [])
    decreases TIMEOUT_DHCP_LOOPS - c.loops
  {
    if c.phase != Bound && c.loops < TIMEOUT_DHCP_LOOPS {
      DhcpStepAddsNothing(c, xid);
      hide Step, StreamOut;
      DhcpAddsNothing(Step(c, xid), xid);
    }
  }

  lemma DhcpStepAddsNothing(c: Client, xid: u32)
    ensures Adds(c.h, Step(c, xid).h, [])
  {
    hide DhcpFrame, Scanned, IsDhcp, OfferedIp, ServerOf, StreamOut, PayloadOf;
    var kind := if c.phase == Discover then MSG_DISCOVER else MSG_REQUEST;
    var f := DhcpFrame(kind, xid, c.h.mac, c.h.ip, c.h.dhcpServer);
    OneAdds(c.h, SendDhcp(c, xid).h, f);
    DhcpFrameHasNoData(kind, xid, c.h.mac, c.h.ip, c.h.dhcpServer);
  }

  // ---------- calls ----------

  lemma ResolveGatewayAddsNothing(w: World)
    ensures Adds(w.h, ResolveGateway(w).h, [])
  {
    hide RetryRun, StreamOut;
    RetryAddsNothing(Gateway, RetryState(w.(h := w.h.(arp := w.h.arp.(resolved := false, target := w.h.router))), 0, 0),
                     TIMEOUT_ARP_LOOPS);
  }

  lemma InitAddsNothing(w: World, seed: u32)
    ensures Adds(w.h, InitNetwork(w, seed).h, [])
  {
    hide ResolveGateway, DhcpRun, NextSeed, StreamOut;
    var xid := NextSeed(seed);
    var c := Handshaken(w, seed);
    DhcpAddsNothing(Start(w.h.(seed := xid), w.inbox), xid);
    ResolveGatewayAddsNothing(w.(h := c.h, inbox := c.inbox));
  }

  lemma WaitingCallsAddNothing(w: World, c: Call)
    requires Fits(c) && (c.CallReceive? || c.CallUdpReceive? || c.CallResolve? || c.CallConnect?)
    ensures Adds(w.h, Do(w, c).h, [])
  {
    hide RetryRun, WaitRun, StreamOut, NextSeed, Act;
    match c
    case CallReceive(max, ms) =>
      WaitAddsNothing(ForTcpData, w.(h := w.h.(tcp := Act(w.h.tcp, Post(max)))), MaxLoops(ms));
    case CallUdpReceive(max, ms) =>
      WaitAddsNothing(ForUdp, w.(h := w.h.(udp := w.h.udp.(rx := Some(Posted(max, [])), done := false))), MaxLoops(ms));
    case CallResolve(host) =>
      RetryAddsNothing(Lookup(host), RetryState(w.(h := w.h.(dns := w.h.dns.(resolved := false, ip := 0))), 0, 0),
                       TIMEOUT_TCP_LOOPS);
    case CallConnect(ip, port) =>
      RetryAddsNothing(Handshake, RetryState(w.(h := StartConnect(w.h, ip, port)), 0, 0), TIMEOUT_TCP_LOOPS);
  }

  lemma SendAdds(w: World, data: Bytes)
    requires |data| <= MAX_TCP_DATA
    ensures Adds(w.h, TcpSend(w, data).h, if w.h.tcp.phase == Established then data else [])
  {
    hide TcpSend, Carries, StreamOut, SegmentAt, Received, PayloadOf;
    var r, t := TcpSend(w, data), w.h.tcp;
    SendOnWire(w, data);
    if t.phase == Established {
      OneAdds(w.h, r.h, LastSent(r.h));
      CarriesData(LastSent(r.h), w.h, t.remoteIp,
                  TcpPart(t.localPort, t.remotePort, t.seqNo, t.ack, PSH + ACK, 0x2000, data));
    }
  }

  lemma CloseAddsNothing(w: World)
    ensures Adds(w.h, TcpClose(w).h, [])
  {
    hide WaitRun, SendTcp, Carries, StreamOut, PayloadOf;
    var t := w.h.tcp;
    if t.phase == Established {
      var h := SendTcp(w.h, FIN + ACK, t.seqNo, t.ack, []);
      var v := w.(h := h.(tcp := Act(h.tcp, BeginClose)));
      TcpSent(w.h, FIN + ACK, t.seqNo, t.ack, []);
      OneAdds(w.h, h, LastSent(h));
      CarriesData(LastSent(h), w.h, t.remoteIp,
                  TcpPart(t.localPort, t.remotePort, t.seqNo, t.ack, FIN + ACK, 0x2000, []));
      WaitAddsNothing(ForTcpClose, v, TIMEOUT_CLOSE_LOOPS);
    }
  }

  lemma UdpSendAddsNothing(w: World, ip: u32, port: u16, data: Bytes)
    requires |data| <= MAX_UDP_DATA
    ensures Adds(w.h, UdpSend(w, ip, port, data).h, [])
  {
    hide UdpSend, Carries, StreamOut, PayloadOf;
    var r := UdpSend(w, ip, port, data);
    UdpSendOnWire(w, ip, port, data);
    OneAdds(w.h, r.h, LastSent(r.h));
    CarriesData(LastSent(r.h), w.h, ip, UdpPart(r.h.udp.localPort, port, data));
  }

  lemma PingAddsNothing(w: World, ip: u32, timeoutMs: u32)
    ensures Adds(w.h, Ping(w, ip, timeoutMs).h, [])
  {
    hide WaitRun, NextSeed, PingRest, SendEcho, Carries, StreamOut, PayloadOf;
    var s1 := NextSeed(w.h.seed);
    var s2 := NextSeed(s1);
    var h := w.h.(seed := s2, ping := PingState(s1 % 0x1_0000, s2 % 0x1_0000, false));
    var g := SendEcho(h, ip, h.ping.id, h.ping.seqNo);
    EchoSent(h, ip, h.ping.id, h.ping.seqNo);
    OneAdds(h, g, LastSent(g));
    CarriesData(LastSent(g), h, ip, IcmpPart(ECHO_REQUEST, 0, PingRest(h.ping.id, h.ping.seqNo)));
    WaitAddsNothing(ForEcho, w.(h := g), MaxLoops(timeoutMs));
  }

  /** The data a call hands to the peer: that of a send while the session is established. */
  function GivenBy(w: World, c: Call): Bytes {
    if c.CallSend? && w.h.tcp.phase == Established then c.data else []
  }

  function DataGiven(w: World, calls: seq<Call>): Bytes
    requires AllFit(calls)
    decreases |calls|
  {
    if |calls| == 0 then [] else assert Fits(calls[0]); GivenBy(w, calls[0]) + DataGiven(Do(w, calls[0]), calls[1..])
  }

  /** A call puts exactly the data it hands to the peer on the wire as payload, and nothing else. */
  lemma CallAdds(w: World, c: Call)
    requires Fits(c)
    ensures Adds(w.h, Do(w, c).h, GivenBy(w, c))
  {
    hide InitNetwork, ResolveGateway, TcpSend, TcpClose, UdpSend, Ping, StreamOut;
    match c
    case CallInit(seed) => InitAddsNothing(w, seed);
    case CallInitStatic(seed, ip, gateway, mask, dns) =>
      ResolveGatewayAddsNothing(
        w.(h := w.h.(seed := seed, ip := ip, router := gateway, mask := mask, dnsServer := dns)));
    case CallSend(data) => SendAdds(w, data);
    case CallClose => CloseAddsNothing(w);
    case CallUdpSend(ip, port, data) => UdpSendAddsNothing(w, ip, port, data);
    case CallPing(ip, ms) => PingAddsNothing(w, ip, ms);
    case _ => WaitingCallsAddNothing(w, c);
  }

  /** Conservation over whole sessions, from any state and with any frames arriving: the payloads of all
    * segments put on the wire, concatenated, are the data given to the sends made while the session was
    * established, in order; nothing is lost, repeated, changed or invented. */
  lemma {:induction false} StreamConserved(w: World, calls: seq<Call>)
    requires AllFit(calls)
    ensures StreamOut(DoAll(w, calls).h.sent) == StreamOut(w.h.sent) + DataGiven(w, calls)
    decreases |calls|
  {
    hide Do, Fits, StreamOut, GivenBy;
    if |calls| > 0 {
      assert Fits(calls[0]);
      CallAdds(w, calls[0]);
      StreamConserved(Do(w, calls[0]), calls[1..]);
    }
  }

  // ---------- from one application to another ----------

  predicate OnlySends(calls: seq<Call>) {
    forall i :: 0 <= i < |calls| ==> calls[i].CallSend?
  }

  /** The pages receive the frames, in order. */
  predicate Carry(inbox: seq<Rx>, frames: seq<Bytes>) {
    |inbox| == |frames| && forall i :: 0 <= i < |inbox| ==> inbox[i].Page? && Received(inbox[i].bytes, frames[i])
  }

  /** A page that receives what a send puts on the wire. */
  lemma SendReceived(w: World, data: Bytes, p: PageBytes)
    requires |data| <= MAX_TCP_DATA && w.h.tcp.phase == Established && Received(p, LastSent(SendTcp(w.h, PSH + ACK,
      w.h.tcp.seqNo, w.h.tcp.ack, data)))
    ensures Delivery.IsFor(w.h.tcp.remotePort, Page(p)) && SegmentFits(p)
    ensures Delivery.DataOf(w.h.tcp.remotePort, Page(p)) == data && SegmentAt(p).seqNo == w.h.tcp.seqNo
  {
    hide SendTcp, SegmentAt, Received, SegmentFits;
    TcpRoundTrip(w.h, PSH + ACK, w.h.tcp.seqNo, w.h.tcp.ack, data, p);
  }

  lemma OneSend(w: World, data: Bytes)
    requires |data| <= MAX_TCP_DATA && w.h.tcp.phase == Established
    ensures var r, t := TcpSend(w, data).h, w.h.tcp;
      && r.tcp == t.(seqNo := (t.seqNo + |data|) % TWO32) && |r.sent| == |w.h.sent| + 1 && w.h.sent <= r.sent
      && r.sent == SendTcp(w.h, PSH + ACK, t.seqNo, t.ack, data).sent
  {
    hide Ipv4Frame, TcpBytes, NextSeed;
  }

  lemma FirstSend(w: World, calls: seq<Call>)
    requires AllFit(calls) && OnlySends(calls) && w.h.tcp.phase == Established && |calls| > 0
    ensures calls[0].CallSend? && |calls[0].data| <= MAX_TCP_DATA && AllFit(calls[1..]) && OnlySends(calls[1..])
    ensures var data, v := calls[0].data, TcpSend(w, calls[0].data);
      && v.h.tcp.phase == Established && v.h.tcp.remotePort == w.h.tcp.remotePort
      && DoAll(w, calls) == DoAll(v, calls[1..]) && DataGiven(w, calls) == data + DataGiven(v, calls[1..])
  {
    hide TcpSend;
    assert Fits(calls[0]) && calls[0].CallSend?;
    OneSend(w, calls[0].data);
  }

  lemma {:induction false} SendsGrow(w: World, calls: seq<Call>)
    requires AllFit(calls) && OnlySends(calls) && w.h.tcp.phase == Established
    ensures var r := DoAll(w, calls).h.sent; |r| == |w.h.sent| + |calls| && w.h.sent <= r
    decreases |calls|
  {
    hide TcpSend, SendTcp, Do, Fits;
    if |calls| > 0 {
      FirstSend(w, calls);
      OneSend(w, calls[0].data);
      SendsGrow(TcpSend(w, calls[0].data), calls[1..]);
    }
  }

  /** The segments of successive sends, received in order, are the stream given, under the numbers of an
    * in-order peer. */
  lemma {:induction false} SendsArrive(w: World, calls: seq<Call>, inbox: seq<Rx>, irs: u32, before: Bytes, all: Bytes)
    requires AllFit(calls) && OnlySends(calls) && w.h.tcp.phase == Established
    requires |DoAll(w, calls).h.sent| >= |w.h.sent| && Carry(inbox, DoAll(w, calls).h.sent[|w.h.sent|..])
    requires w.h.tcp.seqNo == (irs + 1 + |before|) % TWO32 && all == before + DataGiven(w, calls)
    ensures Delivery.StreamOf(w.h.tcp.remotePort, inbox) == DataGiven(w, calls)
    ensures Delivery.SegmentsFit(w.h.tcp.remotePort, inbox)
    ensures Delivery.PeerSends(w.h.tcp.remotePort, inbox, irs, all, |before|)
    decreases |calls|
  {
    hide TcpSend, SendTcp, Received, SegmentAt, SegmentFits, Delivery.DataOf, Delivery.IsFor, LastSent, Do, Fits;
    SendsGrow(w, calls);
    if |calls| > 0 {
      FirstSend(w, calls);
      var data, v, rest := calls[0].data, TcpSend(w, calls[0].data), calls[1..];
      OneSend(w, data);
      SendsGrow(v, rest);
      FirstCarried(w, data, inbox, DoAll(v, rest).h.sent);
      NextNumber(irs, |before|, |data|);
      assert before + data + DataGiven(v, rest) == all;
      SendsArrive(v, rest, inbox[1..], irs, before + data, all);
    }
  }

  /** The first of the pages receives the segment of the first send, the others what follows it. */
  lemma FirstCarried(w: World, data: Bytes, inbox: seq<Rx>, out: seq<Bytes>)
    requires |data| <= MAX_TCP_DATA && w.h.tcp.phase == Established
    requires TcpSend(w, data).h.sent <= out && |w.h.sent| < |out| && Carry(inbox, out[|w.h.sent|..])
    ensures |inbox| > 0 && inbox[0].Page? && Carry(inbox[1..], out[|w.h.sent| + 1..])
    ensures var p, port := inbox[0].bytes, w.h.tcp.remotePort;
      && Delivery.IsFor(port, inbox[0]) && SegmentFits(p)
      && Delivery.DataOf(port, inbox[0]) == data && SegmentAt(p).seqNo == w.h.tcp.seqNo
  {
    hide TcpSend, SendTcp, Received, SegmentAt, SegmentFits, Delivery.DataOf, Delivery.IsFor;
    OneSend(w, data);
    var sent := TcpSend(w, data).h.sent;
    assert out[|w.h.sent|..][0] == sent[|w.h.sent|];
    SendReceived(w, data, inbox[0].bytes);
    assert out[|w.h.sent| + 1..] == out[|w.h.sent|..][1..];
  }

  lemma NextNumber(irs: u32, sent: nat, more: nat)
    ensures ((irs + 1 + sent) % TWO32 + more) % TWO32 == (irs + 1 + (sent + more)) % TWO32
  {
  }

  /** From one application to another: let a stack with an established session send, in any pieces, and let
    * the frames it puts on the wire arrive in order at a stack whose session has the peer's port. What
    * that stack's receives return, followed by what is still waiting, is exactly the data sent, whatever
    * it sends in between, if its buffers hold 4062 bytes. */
  lemma SentIsReceived(w: World, sends: seq<Call>, v: World, calls: seq<Call>)
    requires AllFit(sends) && OnlySends(sends) && w.h.tcp.phase == Established
    requires |DoAll(w, sends).h.sent| >= |w.h.sent| && Carry(v.inbox, DoAll(w, sends).h.sent[|w.h.sent|..])
    requires v.h.tcp.localPort == w.h.tcp.remotePort && Sound(v.h.tcp) && v.h.tcp.phase != SynSent
    requires AllFit(calls) && Delivery.Streaming(calls) && Delivery.LargeBuffers(calls)
    ensures Delivery.Concat(Delivery.Received(v, calls)) +
      Delivery.StreamOf(v.h.tcp.localPort, DoAll(v, calls).inbox) == DataGiven(w, sends)
    ensures DataGiven(w, sends) == DataOfSends(sends)
  {
    hide Delivery.Received, Delivery.StreamOf, Delivery.PeerSends, Carry, DoAll, Delivery.SegmentsFit, DataGiven;
    var irs := (w.h.tcp.seqNo + TWO32 - 1) % TWO32;
    SendsArrive(w, sends, v.inbox, irs, [], DataGiven(w, sends));
    Delivery.LargeBuffersLoseNothing(v, calls);
    AllGiven(w, sends);
  }

  function DataOfSends(calls: seq<Call>): Bytes {
    if |calls| == 0 then [] else (if calls[0].CallSend? then calls[0].data else []) + DataOfSends(calls[1..])
  }

  lemma {:induction false} AllGiven(w: World, calls: seq<Call>)
    requires AllFit(calls) && OnlySends(calls) && w.h.tcp.phase == Established
    ensures DataGiven(w, calls) == DataOfSends(calls)
    decreases |calls|
  {
    hide TcpSend, SendTcp, Do, Fits;
    if |calls| > 0 {
      FirstSend(w, calls);
      AllGiven(TcpSend(w, calls[0].data), calls[1..]);
    }
  }
}
