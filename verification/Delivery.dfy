/** Stream delivery over whole runs: what successive `tcp_receive` calls hand to the application,
  * with sends in between, against what the peer's segments carried (api.hpp, core.hpp). */
module Delivery {
  import opened Words
  import opened Tcp
  import opened Hosts
  import opened Runs
  import opened Sessions
  import opened TcpRuns
  import Frames

  /** No payload of a segment with right lengths is longer: the page minus the Ethernet and shortest IPv4
    * headers. */
  const MAX_PAYLOAD := Frames.PAGE_SIZE - 34

  // ---------- what arrives ----------

  predicate IsFor(port: u16, e: Rx) {
    CarriesSegment(e) && SegmentAt(e.bytes).dstPort == port
  }

  /** The bytes a received frame adds to the stream of connection `port`. */
  function DataOf(port: u16, e: Rx): Bytes {
    if IsFor(port, e) && !SegmentAt(e.bytes).Has(RST) then SegmentAt(e.bytes).payload else []
  }

  /** A received frame that ends the connection. */
  predicate Ends(port: u16, e: Rx) {
    IsFor(port, e) && (SegmentAt(e.bytes).Has(RST) || SegmentAt(e.bytes).Has(FIN))
  }

  function StreamOf(port: u16, inbox: seq<Rx>): Bytes {
    if |inbox| == 0 then [] else DataOf(port, inbox[0]) + StreamOf(port, inbox[1..])
  }

  function DataSegments(port: u16, inbox: seq<Rx>): nat {
    if |inbox| == 0 then 0 else (if DataOf(port, inbox[0]) != [] then 1 else 0) + DataSegments(port, inbox[1..])
  }

  lemma {:induction false} StreamSplit(port: u16, a: seq<Rx>, b: seq<Rx>)
    ensures StreamOf(port, a + b) == StreamOf(port, a) + StreamOf(port, b)
  {
    hide DataOf;
    if a == [] {
      assert a + b == b;
    } else {
      assert (a + b)[1..] == a[1..] + b;
      StreamSplit(port, a[1..], b);
      assert DataOf(port, a[0]) + (StreamOf(port, a[1..]) + StreamOf(port, b)) == StreamOf(port, a) + StreamOf(port, b);
    }
  }

  // ---------- what one call takes, read off the frames ----------

  /** How many of the frames waiting one receive takes: those up to the first that carries data or
    * ends the connection, within its budget. */
  function Reach(port: u16, inbox: seq<Rx>, n: nat): (u: nat)
    ensures u <= |inbox| && u <= n
    decreases n
  {
    if n == 0 || |inbox| == 0 then 0
    else if DataOf(port, inbox[0]) != [] || Ends(port, inbox[0]) then 1
    else 1 + Reach(port, inbox[1..], n - 1)
  }

  /** The first data within the budget. */
  function FirstData(port: u16, inbox: seq<Rx>, n: nat): Bytes {
    var u := Reach(port, inbox, n);
    if u == 0 then [] else DataOf(port, inbox[u - 1])
  }

  predicate EndsAt(port: u16, inbox: seq<Rx>, u: nat)
    requires u <= |inbox|
  {
    u > 0 && Ends(port, inbox[u - 1])
  }

  lemma {:induction false} StreamOfReach(port: u16, inbox: seq<Rx>, n: nat)
    ensures StreamOf(port, inbox[..Reach(port, inbox, n)]) == FirstData(port, inbox, n)
    decreases n
  {
    hide DataOf, Ends;
    var u := Reach(port, inbox, n);
    if u > 0 {
      assert inbox[..u][1..] == inbox[1..][..u - 1];
      if DataOf(port, inbox[0]) == [] && !Ends(port, inbox[0]) {
        StreamOfReach(port, inbox[1..], n - 1);
      }
    }
  }

  lemma {:induction false} StreamHas(port: u16, inbox: seq<Rx>, i: nat)
    requires i < |inbox|
    ensures |StreamOf(port, inbox)| >= |DataOf(port, inbox[i])|
  {
    hide DataOf;
    if i > 0 { StreamHas(port, inbox[1..], i - 1); }
  }

  // ---------- one call ----------

  function Cut(s: Bytes, max: nat): Bytes {
    s[..Min(|s|, max)]
  }

  lemma CutJoin(data: Bytes, rest: Bytes, max: nat)
    requires Min(|data|, max) == 0
    ensures Cut(data, max) == [] && Cut(data + rest, max) == Cut(rest, max)
  {
  }

  /** What one segment does to a posted, still empty buffer of an open session. */
  lemma SegmentStores(s: Session, g: Segment, max: nat)
    requires Open(s.phase) && s.localPort != 0 && s.rx == Some(Posted(max, []))
    ensures var t, data := OnSegment(s, g).0, if g.dstPort == s.localPort && !g.Has(RST) then g.payload else [];
      && t.localPort == s.localPort
      && t.rx == Some(Posted(max, Cut(data, max)))
      && (t.done <==> s.done || Min(|data|, max) > 0 || (g.dstPort == s.localPort && g.Has(RST)))
      && t.phase == (if g.dstPort == s.localPort && g.Has(RST) then Closed
                     else if g.dstPort == s.localPort && g.Has(FIN) then ClosedDone else s.phase)
  {
    hide Segment.Has;
    assert [] + g.payload[..Min(|g.payload|, max)] == Cut(g.payload, max);
  }

  /** The same for one poll of a loop. */
  lemma PollStores(w: World, max: nat)
    requires |w.inbox| > 0 && Open(w.h.tcp.phase) && w.h.tcp.localPort != 0 && w.h.tcp.rx == Some(Posted(max, []))
    ensures Poll(w).inbox == w.inbox[1..]
    ensures var s, t, e := w.h.tcp, Poll(w).h.tcp, w.inbox[0]; var data := DataOf(s.localPort, e);
      && t.localPort == s.localPort
      && t.rx == Some(Posted(max, Cut(data, max)))
      && (s.done || Min(|data|, max) > 0 ==> t.done)
      && (!Ends(s.localPort, e) ==> t.phase == s.phase && (t.done <==> s.done || Min(|data|, max) > 0))
      && (Ends(s.localPort, e) ==> t.phase == Closed || t.phase == ClosedDone)
  {
    hide SegmentAt, OnSegment, Poll, Segment.Has;
    PollSession(w);
    if CarriesSegment(w.inbox[0]) {
      SegmentStores(w.h.tcp, SegmentAt(w.inbox[0].bytes), max);
    }
  }

  /** The law of one wait: the buffer holds the stream carried by the frames it consumed, cut to the
    * buffer's size; unless the buffer is empty, at most one data segment is consumed. */
  lemma {:induction false} ReceiveLaw(w: World, n: nat, max: nat) returns (used: nat)
    requires Sound(w.h.tcp) && w.h.tcp.phase != SynSent && w.h.tcp.rx == Some(Posted(max, []))
    ensures used <= |w.inbox| && WaitRun(ForTcpData, w, n).inbox == w.inbox[used..]
    ensures var port, r := w.h.tcp.localPort, WaitRun(ForTcpData, w, n);
      && r.h.tcp.rx == Some(Posted(max, Cut(StreamOf(port, w.inbox[..used]), max)))
      && r.h.tcp.localPort == port && r.h.tcp.phase != SynSent && Sound(r.h.tcp)
      && (max > 0 ==> DataSegments(port, w.inbox[..used]) <= 1)
    decreases n
  {
    hide Poll, DataOf, Ends;
    var port, v := w.h.tcp.localPort, Poll(w);
    if n == 0 || Over(ForTcpData, w.h) {
      used := 0;
      assert StreamOf(port, []) == [];
    } else if |w.inbox| == 0 {
      PollSession(w);
      used := ReceiveLaw(v, n - 1, max);
    } else {
      PollStores(w, max);
      var data := DataOf(port, w.inbox[0]);
      if Min(|data|, max) > 0 {
        used := 1;
        assert w.inbox[..1][1..] == [] && StreamOf(port, []) == [] && data + [] == data;
      } else {
        var more := ReceiveLaw(v, n - 1, max);
        used := 1 + more;
        assert w.inbox[..used][1..] == w.inbox[1..][..more];
        CutJoin(data, StreamOf(port, w.inbox[1..][..more]), max);
      }
    }
  }

  /** A wait never stops before the frame that carries the first data or ends the connection. */
  lemma {:induction false} WaitReaches(w: World, n: nat, max: nat)
    requires Open(w.h.tcp.phase) && w.h.tcp.localPort != 0 && w.h.tcp.rx == Some(Posted(max, [])) && !w.h.tcp.done
    ensures |WaitRun(ForTcpData, w, n).inbox| <= |w.inbox| - Reach(w.h.tcp.localPort, w.inbox, n)
    decreases n
  {
    hide Poll, DataOf, Ends;
    if n > 0 && |w.inbox| > 0 {
      PollStores(w, max);
      if DataOf(w.h.tcp.localPort, w.inbox[0]) == [] && !Ends(w.h.tcp.localPort, w.inbox[0]) {
        WaitReaches(Poll(w), n - 1, max);
      } else {
        var more := WaitConsumesPrefix(ForTcpData, Poll(w), n - 1);
      }
    } else if n > 0 {
      PollSession(w);
      WaitReaches(Poll(w), n - 1, max);
    }
  }

  /** When the first data fits, a wait stops exactly there, and the connection is open afterwards
    * unless that frame ended it. */
  lemma {:induction false} WaitStopsAtReach(w: World, n: nat, max: nat)
    requires Open(w.h.tcp.phase) && w.h.tcp.localPort != 0 && w.h.tcp.rx == Some(Posted(max, [])) && !w.h.tcp.done
    requires |FirstData(w.h.tcp.localPort, w.inbox, n)| <= max
    ensures var u, r := Reach(w.h.tcp.localPort, w.inbox, n), WaitRun(ForTcpData, w, n);
      && r.inbox == w.inbox[u..]
      && (Open(r.h.tcp.phase) <==> !EndsAt(w.h.tcp.localPort, w.inbox, u))
    decreases n
  {
    hide Poll, DataOf, Ends;
    if n > 0 && |w.inbox| > 0 {
      PollStores(w, max);
      if DataOf(w.h.tcp.localPort, w.inbox[0]) == [] && !Ends(w.h.tcp.localPort, w.inbox[0]) {
        WaitStopsAtReach(Poll(w), n - 1, max);
      }
    } else if n > 0 {
      PollSession(w);
      WaitStopsAtReach(Poll(w), n - 1, max);
    }
  }

  /** One call takes no more than its buffer holds: the first data waiting for the connection within
    * the call's budget, before a reset or FIN, has at most `max` bytes. */
  predicate BufferSuffices(port: u16, open: bool, inbox: seq<Rx>, max: nat, n: nat) {
    open ==> |FirstData(port, inbox, n)| <= max
  }

  function Takes(port: u16, open: bool, inbox: seq<Rx>, n: nat): (u: nat)
    ensures u <= |inbox|
  {
    if open then Reach(port, inbox, n) else 0
  }

  /** One call: what it returned, what it consumed, when nothing is lost, and what is left then. */
  lemma OneReceive(w: World, max: nat, timeoutMs: u32) returns (used: nat)
    requires Sound(w.h.tcp) && w.h.tcp.phase != SynSent
    ensures var (v, data) := TcpReceive(w, max, timeoutMs); var port := w.h.tcp.localPort;
      && used <= |w.inbox| && v.inbox == w.inbox[used..]
      && data == Cut(StreamOf(port, w.inbox[..used]), max)
      && v.h.tcp.localPort == port && v.h.tcp.phase != SynSent && v.h.tcp.rx == None && Sound(v.h.tcp)
      && (max > 0 ==> DataSegments(port, w.inbox[..used]) <= 1)
    ensures var v, n := TcpReceive(w, max, timeoutMs).0, timeoutMs * 10 % TWO32;
      var port, open := w.h.tcp.localPort, Open(w.h.tcp.phase);
      && (|StreamOf(port, w.inbox[..used])| <= max <==> BufferSuffices(port, open, w.inbox, max, n))
      && (BufferSuffices(port, open, w.inbox, max, n) ==>
            && v.inbox == w.inbox[Takes(port, open, w.inbox, n)..]
            && (Open(v.h.tcp.phase) <==> open && !EndsAt(port, w.inbox, Takes(port, open, w.inbox, n))))
  {
    hide WaitRun, StreamOf, DataSegments, Reach, FirstData, EndsAt;
    var n, port := MaxLoops(timeoutMs), w.h.tcp.localPort;
    var v := w.(h := w.h.(tcp := Act(w.h.tcp, Post(max))));
    used := ReceiveLaw(v, n, max);
    if Open(w.h.tcp.phase) {
      WaitReaches(v, n, max);
      ReachMeasures(port, w.inbox, n, used);
      if |FirstData(port, w.inbox, n)| <= max {
        WaitStopsAtReach(v, n, max);
        assert used == Reach(port, w.inbox, n);
      }
    } else {
      NotWaiting(v, n);
      assert w.inbox[..0] == [] && StreamOf(port, []) == [] by { NoStream(port); }
    }
  }

  lemma NoStream(port: u16)
    ensures StreamOf(port, []) == []
  {
  }

  lemma NotWaiting(w: World, n: nat)
    requires w.h.tcp.phase == Closed || w.h.tcp.phase == ClosedDone
    ensures WaitRun(ForTcpData, w, n) == w
  {
  }

  lemma ReachMeasures(port: u16, inbox: seq<Rx>, n: nat, used: nat)
    requires Reach(port, inbox, n) <= used <= |inbox|
    ensures |StreamOf(port, inbox[..used])| >= |FirstData(port, inbox, n)|
    ensures used == Reach(port, inbox, n) ==> StreamOf(port, inbox[..used]) == FirstData(port, inbox, n)
  {
    hide StreamOf, Reach, DataOf;
    var u := Reach(port, inbox, n);
    StreamOfReach(port, inbox, n);
    if u > 0 {
      StreamHas(port, inbox[..used], u - 1);
      assert inbox[..used][u - 1] == inbox[u - 1];
    }
  }

  // ---------- successive calls ----------

  /** Calls that leave the frames waiting alone unless they receive. */
  predicate Streaming(calls: seq<Call>) {
    forall i :: 0 <= i < |calls| ==> calls[i].CallReceive? || calls[i].CallSend? || calls[i].CallUdpSend?
  }

  /** The buffers that the receives among the calls return, in order. */
  function Received(w: World, calls: seq<Call>): seq<Bytes>
    requires AllFit(calls)
    decreases |calls|
  {
    if |calls| == 0 then []
    else
      assert Fits(calls[0]);
      (if calls[0].CallReceive? then [TcpReceive(w, calls[0].max, calls[0].timeoutMs).1] else []) +
      Received(Do(w, calls[0]), calls[1..])
  }

  function Concat(bufs: seq<Bytes>): Bytes {
    if |bufs| == 0 then [] else bufs[0] + Concat(bufs[1..])
  }

  /** Every receive's buffer holds the first data it meets, judged from the frames waiting. */
  predicate BuffersSuffice(port: u16, open: bool, inbox: seq<Rx>, calls: seq<Call>)
    decreases |calls|
  {
    |calls| > 0 ==>
      match calls[0]
      case CallReceive(max, ms) =>
        var u := Takes(port, open, inbox, MaxLoops(ms));
        && BufferSuffices(port, open, inbox, max, MaxLoops(ms))
        && BuffersSuffice(port, open && !EndsAt(port, inbox, u), inbox[u..], calls[1..])
      case _ => BuffersSuffice(port, open, inbox, calls[1..])
  }

  /** Sends leave the waiting frames, the connection's port, buffer and phase alone. */
  lemma SendLeaves(w: World, c: Call)
    requires Fits(c) && (c.CallSend? || c.CallUdpSend?)
    ensures var v := Do(w, c); v.inbox == w.inbox && v.h.tcp == w.h.tcp.(seqNo := v.h.tcp.seqNo)
  {
    hide Frames.TcpBytes, Frames.UdpDatagram, Frames.Ipv4Frame, NextSeed, EphemeralPort;
  }

  /** Stream delivery, with its exact condition: over any receives with any sends in between, the
    * buffers returned, followed by what is still waiting, are the whole stream that was waiting, if
    * and only if every receive's buffer is large enough for the first data it meets. What does not
    * fit is lost although it was acknowledged. */
  lemma {:induction false} DeliveredIffFits(w: World, calls: seq<Call>)
    requires AllFit(calls) && Streaming(calls) && Sound(w.h.tcp) && w.h.tcp.phase != SynSent
    ensures var port, left, read := w.h.tcp.localPort, DoAll(w, calls).inbox, Concat(Received(w, calls));
      && |read| + |StreamOf(port, left)| <= |StreamOf(port, w.inbox)|
      && (read + StreamOf(port, left) == StreamOf(port, w.inbox) <==>
          BuffersSuffice(port, Open(w.h.tcp.phase), w.inbox, calls))
    decreases |calls|
  {
    hide TcpReceive, TcpSend, UdpSend, StreamOf, BufferSuffices, Takes, EndsAt, DataSegments;
    if |calls| > 0 {
      var port, c := w.h.tcp.localPort, calls[0];
      assert Fits(c);
      var v := Do(w, c);
      if c.CallReceive? {
        var used := OneReceive(w, c.max, c.timeoutMs);
        DeliveredIffFits(v, calls[1..]);
        var data, rest := TcpReceive(w, c.max, c.timeoutMs).1, Received(v, calls[1..]);
        StreamSplit(port, w.inbox[..used], w.inbox[used..]);
        assert w.inbox == w.inbox[..used] + w.inbox[used..];
        assert ([data] + rest)[1..] == rest;
        CutSplit(StreamOf(port, w.inbox[..used]), c.max, Concat(rest), StreamOf(port, DoAll(v, calls[1..]).inbox),
                 StreamOf(port, v.inbox));
      } else {
        SendLeaves(w, c);
        DeliveredIffFits(v, calls[1..]);
        assert [] + Received(v, calls[1..]) == Received(v, calls[1..]);
      }
    }
  }

  lemma CutSplit(taken: Bytes, max: nat, read: Bytes, left: Bytes, rest: Bytes)
    requires |read| + |left| <= |rest|
    ensures |Cut(taken, max) + read| + |left| <= |taken + rest|
    ensures Cut(taken, max) + read + left == taken + rest <==> |taken| <= max && read + left == rest
  {
    if |taken| <= max {
      assert Cut(taken, max) == taken && taken + read + left == taken + (read + left);
      assert (taken + rest)[|taken|..] == rest && (taken + (read + left))[|taken|..] == read + left;
    }
  }

  /** The segments for the connection have right lengths. */
  predicate SegmentsFit(port: u16, inbox: seq<Rx>) {
    forall i :: 0 <= i < |inbox| && IsFor(port, inbox[i]) ==> SegmentFits(inbox[i].bytes)
  }

  predicate LargeBuffers(calls: seq<Call>) {
    forall i :: 0 <= i < |calls| && calls[i].CallReceive? ==> calls[i].max >= MAX_PAYLOAD
  }

  /** For segments with right lengths a buffer of 4062 bytes always suffices, so with such buffers
    * nothing is lost, whatever else arrives. */
  lemma {:induction false} LargeBuffersSuffice(port: u16, open: bool, inbox: seq<Rx>, calls: seq<Call>)
    requires Streaming(calls) && LargeBuffers(calls) && SegmentsFit(port, inbox)
    ensures BuffersSuffice(port, open, inbox, calls)
    decreases |calls|
  {
    hide Takes, EndsAt, Reach, FirstData, SegmentFits, IsFor;
    if |calls| > 0 {
      if calls[0].CallReceive? {
        var n := MaxLoops(calls[0].timeoutMs);
        var u := Takes(port, open, inbox, n);
        FirstDataFits(port, inbox, n);
        assert SegmentsFit(port, inbox[u..]);
        LargeBuffersSuffice(port, open && !EndsAt(port, inbox, u), inbox[u..], calls[1..]);
      } else {
        LargeBuffersSuffice(port, open, inbox, calls[1..]);
      }
    }
  }

  lemma FirstDataFits(port: u16, inbox: seq<Rx>, n: nat)
    requires SegmentsFit(port, inbox)
    ensures |FirstData(port, inbox, n)| <= MAX_PAYLOAD
  {
    hide Reach, PayloadAt, Segment.Has;
    var u := Reach(port, inbox, n);
    if u > 0 && IsFor(port, inbox[u - 1]) {
      assert SegmentFits(inbox[u - 1].bytes);
    }
  }

  lemma LargeBuffersLoseNothing(w: World, calls: seq<Call>)
    requires AllFit(calls) && Streaming(calls) && Sound(w.h.tcp) && w.h.tcp.phase != SynSent
    requires LargeBuffers(calls) && SegmentsFit(w.h.tcp.localPort, w.inbox)
    ensures Concat(Received(w, calls)) + StreamOf(w.h.tcp.localPort, DoAll(w, calls).inbox) ==
      StreamOf(w.h.tcp.localPort, w.inbox)
  {
    hide Received, DoAll, StreamOf, BuffersSuffice;
    LargeBuffersSuffice(w.h.tcp.localPort, Open(w.h.tcp.phase), w.inbox, calls);
    DeliveredIffFits(w, calls);
  }

  // ---------- a peer that sends its stream in order ----------

  /** The data segments waiting carry `stream` from offset `off` on, each once and in order, with
    * the sequence numbers to match, while the peer's initial sequence number is `irs`. */
  predicate PeerSends(port: u16, inbox: seq<Rx>, irs: u32, stream: Bytes, off: nat)
    decreases |inbox|
  {
    |inbox| > 0 ==>
      var data := DataOf(port, inbox[0]);
      && (data != [] ==>
            && SegmentAt(inbox[0].bytes).seqNo == (irs + 1 + off) % TWO32
            && off + |data| <= |stream| && data == stream[off..off + |data|])
      && PeerSends(port, inbox[1..], irs, stream, off + |data|)
  }

  lemma {:induction false} PeerStream(port: u16, inbox: seq<Rx>, irs: u32, stream: Bytes, off: nat)
    requires off <= |stream| && PeerSends(port, inbox, irs, stream, off)
    ensures var got := StreamOf(port, inbox); off + |got| <= |stream| && got == stream[off..off + |got|]
    decreases |inbox|
  {
    hide DataOf, SegmentAt;
    if |inbox| > 0 {
      var data := DataOf(port, inbox[0]);
      PeerStream(port, inbox[1..], irs, stream, off + |data|);
    }
  }

  /** End to end: from a peer that sends its stream in order and once, any receives whose buffers
    * suffice, with any sends in between, read exactly a prefix of that stream. */
  lemma ReadsPrefixOfPeerStream(w: World, calls: seq<Call>, irs: u32, stream: Bytes)
    requires AllFit(calls) && Streaming(calls) && Sound(w.h.tcp) && w.h.tcp.phase != SynSent
    requires PeerSends(w.h.tcp.localPort, w.inbox, irs, stream, 0)
    requires BuffersSuffice(w.h.tcp.localPort, Open(w.h.tcp.phase), w.inbox, calls)
    ensures Concat(Received(w, calls)) <= stream
  {
    hide PeerSends, BuffersSuffice, Received, DoAll, StreamOf;
    DeliveredIffFits(w, calls);
    PeerStream(w.h.tcp.localPort, w.inbox, irs, stream, 0);
    var read, got := Concat(Received(w, calls)), StreamOf(w.h.tcp.localPort, w.inbox);
    assert read == got[..|read|] == stream[..|read|];
  }

  // ---------- the numbers of an established session ----------

  lemma {:induction false} PayloadIsStream(port: u16, inbox: seq<Rx>)
    ensures PayloadIn(port, Arrivals(inbox)) == |StreamOf(port, inbox)|
  {
    hide SegmentAt, IsIpv4, Segment.Has;
    if |inbox| > 0 {
      PayloadIsStream(port, inbox[1..]);
      if CarriesSegment(inbox[0]) {
        assert Arrivals(inbox)[1..] == Arrivals(inbox[1..]);
      } else {
        assert Arrivals(inbox) == Arrivals(inbox[1..]);
      }
    }
  }

  lemma {:induction false} PayloadOfArrived(port: u16, acts: seq<Action>)
    ensures PayloadIn(port, Arrived(acts)) == PayloadIn(port, acts)
  {
    hide Segment.Has;
    if |acts| > 0 {
      PayloadOfArrived(port, acts[1..]);
      if acts[0].Arrive? {
        assert Arrived(acts)[1..] == Arrived(acts[1..]);
      } else {
        assert Arrived(acts) == Arrived(acts[1..]);
      }
    }
  }

  /** Over any session of calls that stays established, with a peer in order: modulo 2^32, the
    * sequence number has advanced by exactly the bytes given to `tcp_send`, and the acknowledgement
    * number by exactly the payload carried by the frames consumed, whichever calls consumed them. */
  lemma EstablishedNumbers(w: World, calls: seq<Call>, iss: u32, irs: u32, sent: nat, handled: nat)
    returns (used: nat, acts: seq<Action>)
    requires AllFit(calls) && NoneConnects(calls) && NoDhcp(calls) && Sound(w.h.tcp)
    requires w.h.tcp.phase == DoAll(w, calls).h.tcp.phase == Established && Tracks(w.h.tcp, iss, irs, sent, handled)
    ensures RunsAs(w, DoAll(w, calls), used, acts) && Arrived(acts) == Arrivals(w.inbox[..used])
    ensures PeerInOrder(w.h.tcp, acts, iss, irs, sent, handled) ==>
      Tracks(DoAll(w, calls).h.tcp, iss, irs, sent + Sum(SendSizes(calls)),
             handled + |StreamOf(w.h.tcp.localPort, w.inbox[..used])|)
  {
    hide DoAll, Tracks, PeerInOrder, AlwaysTracks, Run, Arrivals, Arrived, Sends, SendSizes, PayloadIn, StreamOf,
         GivenIn, TakenIn, NoConnect, PortsEphemeral;
    used, acts := SessionNumbers(w, calls, iss, irs, sent, handled);
    OpenTakes(w.h.tcp, acts);
    PayloadOfArrived(w.h.tcp.localPort, acts);
    PayloadIsStream(w.h.tcp.localPort, w.inbox[..used]);
  }
}
