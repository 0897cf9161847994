/** Concrete inputs on which the code does not do what its documentation or the protocols suggest,
  * each at the level of a received page or of an API call. The exact conditions are proved where the
  * functions concerned are. */
module Witnesses {
  import opened Words
  import opened Tcp
  import opened Frames
  import opened Hosts
  import opened Runs
  import opened TcpRuns
  import opened TwoStacks
  import opened ArpFifo
  import opened DhcpOptions
  import opened DhcpClient
  import opened DhcpWire
  import opened Initialisation
  import Dns

  // ---------- two stacks with a connection between them ----------

  function Here(): Host {
    Initial([2, 0, 0, 0, 0, 1], 7).(ip := 1, tcp := Session(0xC000, 80, 2, 100, 200, Established, None, false))
  }

  function There(): Host {
    Initial([2, 0, 0, 0, 0, 2], 9).(ip := 2, tcp := Session(80, 0xC000, 1, 200, 100, Established, None, false))
  }

  /** The page that receives `f` after a reset of the card. */
  function PageOf(f: Bytes): PageBytes
    requires |f| <= PAGE_SIZE
  {
    f + Zeros(PAGE_SIZE - |f|)
  }

  lemma PageReceives(f: Bytes)
    requires |f| <= PAGE_SIZE
    ensures Received(PageOf(f), f) && forall i :: |f| <= i < PAGE_SIZE ==> PageOf(f)[i] == 0
  {
  }

  /** The peer's data segment with sequence number `seqNo`. */
  function DataPage(seqNo: u32, data: Bytes): PageBytes
    requires |data| <= MAX_TCP_DATA
  {
    PageOf(LastSent(SendTcp(There(), PSH + ACK, seqNo, 100, data)))
  }

  lemma DataArrives(seqNo: u32, data: Bytes)
    requires |data| <= MAX_TCP_DATA
    ensures var p := DataPage(seqNo, data);
      && IsIpv4(p, PROTO_TCP) && SegmentFits(p) && SegmentAt(p) == Segment(0xC000, PSH + ACK, seqNo, 100, data)
  {
    hide Ipv4Frame, TcpBytes, NextSeed, SegmentAt, SegmentFits, IsIpv4, Received;
    var f := LastSent(SendTcp(There(), PSH + ACK, seqNo, 100, data));
    PageReceives(f);
    TcpRoundTrip(There(), PSH + ACK, seqNo, 100, data, PageOf(f));
  }

  // ---------- what happens ----------

  lemma OneByteStored()
    ensures var s := Act(Here().tcp, Post(1));
      OnSegment(s, Segment(0xC000, PSH + ACK, 200, 100, [1, 2])).0 ==
        s.(seqNo := 100, ack := 202, rx := Some(Posted(1, [1])), done := true)
  {
    var g := Segment(0xC000, PSH + ACK, 200, 100, [1, 2]);
    assert !g.Has(RST) && !g.Has(FIN);
    assert [] + g.payload[..1] == [1];
  }

  lemma OneByteReceived(p: PageBytes)
    requires IsIpv4(p, PROTO_TCP) && SegmentFits(p) && SegmentAt(p) == Segment(0xC000, PSH + ACK, 200, 100, [1, 2])
    ensures var v := World(Here().(tcp := Act(Here().tcp, Post(1))), [Page(p)], false);
      var r := WaitRun(ForTcpData, v, 10);
      r.h.tcp.rx == Some(Posted(1, [1])) && r.h.tcp.ack == 202 && r.inbox == [] && !r.strayed
  {
    OneByteStored();
    var v := World(Here().(tcp := Act(Here().tcp, Post(1))), [Page(p)], false);
    assert !Strays(v.h, p);
    hide SegmentAt, SegmentFits, Deliver, Strays, OnSegment, Here, IsIpv4;
    PollSession(v);
    assert !Poll(v).strayed;
    hide Poll;
    assert WaitRun(ForTcpData, v, 10) == WaitRun(ForTcpData, Poll(v), 9) == Poll(v);
  }

  /** Two bytes arrive for a buffer of one: the call returns the first, the second is acknowledged all
    * the same, and nothing is left of it. */
  lemma LostThoughAcknowledged()
    ensures var w := World(Here(), [Page(DataPage(200, [1, 2]))], false);
      var (v, data) := TcpReceive(w, 1, 1);
      data == [1] && v.inbox == [] && v.h.tcp.ack == 202 && !v.strayed
  {
    hide DataPage, SegmentAt, SegmentFits, IsIpv4, Here, WaitRun;
    DataArrives(200, [1, 2]);
    OneByteReceived(DataPage(200, [1, 2]));
  }

  /** A segment that leaves a gap of 300 bytes is taken and acknowledged like the next one in order. */
  lemma OutOfOrderAccepted()
    ensures var h, p := Here(), DataPage(500, [1]);
      && !Strays(h, p) && Tracks(h.tcp, 99, 199, 0, 0)
      && Deliver(h, p).tcp.ack == 501 && !Tracks(Deliver(h, p).tcp, 99, 199, 0, 1)
  {
    hide DataPage;
    DataArrives(500, [1]);
    GapTaken(DataPage(500, [1]));
  }

  lemma GapTaken(p: PageBytes)
    requires IsIpv4(p, PROTO_TCP) && SegmentFits(p) && SegmentAt(p) == Segment(0xC000, PSH + ACK, 500, 100, [1])
    ensures var h := Here(); !Strays(h, p) && Deliver(h, p).tcp.ack == 501
  {
    var g := Segment(0xC000, PSH + ACK, 500, 100, [1]);
    assert !g.Has(RST) && !g.Has(FIN);
    assert OnSegment(Here().tcp, g).0.ack == 501;
    assert !Strays(Here(), p);
    hide SegmentAt, SegmentFits, Deliver, OnSegment, Strays;
    DeliverParts(Here(), p);
  }

  /** The query for "a." does not decode to the labels of the host name, "a" and the empty one. */
  lemma EmptyLabelLost(p: PageBytes)
    requires Received(p, LastSent(SendQuery(Here(), [97, Dns.DOT])))
    ensures Dns.Split([97, Dns.DOT]) == [[97], []] && Dns.Decode(p, 54) != Some([[97], []])
  {
    DottedSplit();
    hide SendQuery, Received, Dns.Decode, Dns.Split, Dns.Sized;
    QueryOnWire(Here(), [97, Dns.DOT], p);
  }

  lemma DottedSplit()
    ensures Dns.Split([97, Dns.DOT]) == [[97], []] && !Dns.Sized([[97], []], 1, Dns.MAX_LABEL)
  {
    var host: Bytes, dot: Bytes := [97, Dns.DOT], [Dns.DOT];
    var labels: seq<Dns.Label>, rest: seq<Dns.Label>, both: seq<Dns.Label> := [[97], []], [[]], [[], []];
    assert host[1..] == dot && dot[1..] == [];
    assert Dns.Split(dot) == rest + rest == both;
    assert [97] + both[0] == labels[0] && both[1..] == rest;
    assert Dns.Split(host) == [labels[0]] + rest == labels;
    assert labels[1..] == rest && |rest[0]| == 0;
    assert !Dns.Sized(rest, 1, Dns.MAX_LABEL);
  }

  /** Nor does the query for a label of 64 bytes, one more than a name server accepts. */
  lemma LongLabelLost(p: PageBytes, host: Bytes)
    requires host == seq(64, _ => 97) && Received(p, LastSent(SendQuery(Here(), host)))
    ensures Dns.Split(host) == [host] && Dns.Decode(p, 54) != Some([host])
  {
    Dns.OneLabel(host);
    assert !Dns.Sized([host], 1, Dns.MAX_LABEL);
    hide SendQuery, Received, Dns.Decode, Dns.Split, Dns.Sized;
    QueryOnWire(Here(), host, p);
  }

  /** The A record of a name made of the label "a" and a pointer. */
  function MixedRecord(): Dns.Record {
    Dns.Record(Dns.Pointed([[97]], 0xC0, 12), Dns.TYPE_A, Dns.CLASS_IN, 60, [1, 2, 3, 4])
  }

  lemma MixedBytes()
    ensures MixedRecord().name.Valid() && !MixedRecord().name.Skippable()
    ensures Dns.FirstAddress([MixedRecord()]) == Some(Le32At([1, 2, 3, 4], 0))
    ensures MixedRecord().Bytes() == [1, 97, 0xC0, 12, 0, 1, 0, 1, 0, 0, 0, 60, 0, 4, 1, 2, 3, 4]
  {
    var r := MixedRecord();
    assert [[97]][1..] == [];
    assert Dns.EncodeLabels([[97]]) == [1, 97];
    assert r.name.Bytes() == [1, 97, 0xC0, 12];
    assert r.Fixed() == [0, 1, 0, 1, 0, 0, 0, 60, 0, 4];
  }

  /** The response that holds this record, sent to the port and with the id the stack waits for. */
  function MixedResponse(): Bytes {
    DnsHeader(7, 0x8000, 0, 1, 0, 0) + MixedRecord().Bytes()
  }

  function MixedPage(): PageBytes {
    MixedBytes();
    PageOf(LastSent(SendUdp(There(), 1, 0xC001, PORT_DNS, MixedResponse())))
  }

  /** What the handler reads in that page. */
  predicate MixedFields(p: PageBytes) {
    && IsIpv4(p, PROTO_UDP) && Layer4(p) == 34
    && Be16At(p, 34) == PORT_DNS && Be16At(p, 36) == 0xC001 && Be16At(p, 38) == 38
    && Be16At(p, 42) == 7 && Be16At(p, 44) == 0x8000 && Be16At(p, 46) == 0 && Be16At(p, 48) == 1
    && p[54] == 1 && p[56] == 0xC0 && forall i :: 72 <= i < PAGE_SIZE ==> p[i] == 0
  }

  lemma MixedArrives()
    ensures MixedFields(MixedPage())
  {
    MixedBytes();
    var m, t := MixedResponse(), There();
    var f := LastSent(SendUdp(t, 1, 0xC001, PORT_DNS, m));
    assert |f| == 72 && f == Ipv4Frame(t.routerMac, t.mac, NextSeed(t.seed) % 0x1_0000, PROTO_UDP, t.ip, 1,
                                       UdpDatagram(t.ip, 1, PORT_DNS, 0xC001, m));
    PageReceives(f);
    hide PageOf, Received, There, Ipv4Frame, UdpDatagram, NextSeed, DnsHeader, MixedRecord, At;
    MixedRead(PageOf(f), t.routerMac, t.mac, NextSeed(t.seed) % 0x1_0000, t.ip);
  }

  lemma MixedRead(p: PageBytes, dst: Mac, src: Mac, n: u16, ip: u32)
    requires |MixedRecord().Bytes()| == 18 && |MixedResponse()| == 30
    requires Received(p, Ipv4Frame(dst, src, n, PROTO_UDP, ip, 1,
      UdpDatagram(ip, 1, PORT_DNS, 0xC001, MixedResponse())))
    requires forall i :: 72 <= i < PAGE_SIZE ==> p[i] == 0
    ensures MixedFields(p)
  {
    MixedBytes();
    var m, r := MixedResponse(), MixedRecord().Bytes();
    assert r[0] == 1 && r[2] == 0xC0;
    hide Received, MixedRecord, Ipv4Frame, UdpDatagram, At, IsIpv4, Layer4, Be16At, DnsHeader;
    BodyAt(p, dst, src, n, PROTO_UDP, ip, 1, UdpDatagram(ip, 1, PORT_DNS, 0xC001, m));
    UdpBody(p, ip, 1, PORT_DNS, 0xC001, m);
    AtSplit(p, 42, DnsHeader(7, 0x8000, 0, 1, 0, 0), r);
    DnsHeaderFields(p, 42, 7, 0x8000, 0, 1, 0, 0);
    AtWord(p, 54, r, 0);
    AtWord(p, 54, r, 2);
  }

  /** The walk takes the pointer for a label of 192 bytes and ends up behind the message. */
  lemma WalkLost(p: PageBytes)
    requires p[54] == 1 && p[56] == 0xC0 && forall i :: 72 <= i < PAGE_SIZE ==> p[i] == 0
    ensures Dns.WalkMessage(p, 54, 0, 1) == Dns.NoAddress
  {
    assert Dns.SkipLabels(p, 54) == Dns.SkipLabels(p, 56) == Dns.SkipLabels(p, 249) == Some(249);
    assert Dns.SkipQuestions(p, 54, 0) == Some(54);
    assert Dns.SkipName(p, 54) == Some(250);
    assert Be16At(p, 250) == 0 && Be16At(p, 258) == 0;
    assert Dns.FindA(p, 54, 1) == Dns.FindA(p, 260, 0);
  }

  /** The answer is missed: the page leaves the stack as it was. */
  lemma MixedNameMissed()
    ensures MixedRecord().name.Valid() && Dns.FirstAddress([MixedRecord()]).Some?
    ensures var h := Here().(dns := DnsState(7, 0xC001, 0, false));
      !Strays(h, MixedPage()) && Deliver(h, MixedPage()) == h
  {
    MixedBytes();
    hide MixedPage, MixedRecord;
    MixedArrives();
    AnswerMissed(MixedPage());
  }

  lemma AnswerMissed(p: PageBytes)
    requires MixedFields(p)
    ensures var h := Here().(dns := DnsState(7, 0xC001, 0, false)); !Strays(h, p) && Deliver(h, p) == h
  {
    hide Dns.WalkMessage, Layer4, Be16At;
    WalkLost(p);
  }
  // ---------- a short echo request ----------

  /** A ping cut to its IPv4 header; the type and code read behind it are those of an echo request. */
  function BarePing(): PageBytes {
    Zeros(12) + [8, 0, 0x45, 0] + BE16(20) + Zeros(5) + [PROTO_ICMP] + Zeros(10) + [ECHO_REQUEST, 0] +
    Zeros(PAGE_SIZE - 36)
  }

  lemma BarePingFields()
    ensures var p := BarePing(); IsIpv4(p, PROTO_ICMP) && Layer4(p) == 34 && IsEchoRequest(p) && IcmpLen(p) == 0
  {
  }

  /** It is answered by a frame without an ICMP header, which no checking receiver accepts. */
  lemma BarePingAnswered(h: Host)
    ensures var r := Deliver(h, BarePing());
      && !Strays(h, BarePing()) && |r.sent| == |h.sent| + 1
      && |LastSent(r)| == 34 && !Verifies(LastSent(r))
  {
    BarePingFields();
    hide BarePing, Ipv4Frame, EchoReplyBody, Verifies, DatagramAt, SegmentAt, Dns.WalkMessage;
    var p, s := BarePing(), NextSeed(h.seed);
    assert p[34..34] == [];
    EchoReplyVerifiesIff(h.routerMac, h.mac, s % 0x1_0000, h.ip, Le32At(p, 26), []);
  }

  // ---------- DHCP messages ----------

  function NoticePage(m: Notice): PageBytes
    requires m.Valid() && |m.Message()| <= 1000
  {
    PageOf(ServerFrame(Route(BROADCAST_MAC, BROADCAST_MAC, 0, 9, 0), m))
  }

  lemma NoticePageRead(m: Notice)
    requires m.Valid() && |m.Message()| <= 1000
    ensures var p := NoticePage(m);
      && IsDhcp(p) && Message(p) == 42 && p[42] == m.op && Be32At(p, 46) == m.xid && OfferedIp(p) == m.yiaddr
      && MsgType(p) == m.Type() && At(p, 282, OptBytes(m.opts) + [OPT_END])
  {
    hide PageOf, ServerFrame, At, IsDhcp, OfferedIp, ServerOf, MsgType, Notice.Type, OptBytes;
    var r := Route(BROADCAST_MAC, BROADCAST_MAC, 0, 9, 0);
    FrameLength(r, m);
    PageReceives(ServerFrame(r, m));
    NoticeRead(NoticePage(m), r, m);
  }

  lemma FrameLength(r: Route, m: Notice)
    requires m.Valid()
    ensures |ServerFrame(r, m)| == 42 + |m.Message()|
  {
  }

  /** A bare reply: no options at all. */
  function Bare(xid: u32): Notice {
    Notice(OP_REPLY, xid, 5, 0, BROADCAST_MAC, [])
  }

  /** A reply with another transaction id than the one sent is taken for the offer. */
  lemma ForeignReplyAccepted(c: Client, xid: u32)
    requires c.phase == Discover
    ensures var p := NoticePage(Bare((xid + 1) % TWO32));
      Be32At(p, Message(p) + 4) != xid && OnReply(c, p).phase == OfferReceived && OnReply(c, p).h.ip == 5
  {
    var p := NoticePage(Bare((xid + 1) % TWO32));
    NoticePageRead(Bare((xid + 1) % TWO32));
    AbsorbedType(c.h, p);
    hide NoticePage, Scanned, IsDhcp, OfferedIp, ServerOf, MsgType;
  }

  /** A message that is no reply, naming an address the cache knows as the router: its option is taken,
    * the handshake fails, and the cache contradicts the gateway. */
  function RouterNotice(): Notice {
    Notice(1, 0, 0, 0, BROADCAST_MAC, [Tlv(OPT_ROUTER, [2, 0, 0, 0])])
  }

  function RouterPage(): PageBytes {
    RouterNoticeFits();
    NoticePage(RouterNotice())
  }

  lemma RouterNoticeFits()
    ensures RouterNotice().Valid() && |RouterNotice().Message()| <= 1000
    ensures Reached(RouterNotice().opts, MAX_SCAN) == RouterNotice().opts
    ensures Last(RouterNotice().opts, OPT_ROUTER, 4) == Some([2, 0, 0, 0])
  {
    var opts := RouterNotice().opts;
    assert opts[1..] == [] && OptBytes([]) == [];
    assert OptBytes(opts) == opts[0].Bytes() + [];
    assert Reached(opts[1..], MAX_SCAN - 6) == [];
    assert Last(opts[1..], OPT_ROUTER, 4) == None;
  }

  lemma RouterTaken()
    ensures IsDhcp(RouterPage()) && RouterPage()[Message(RouterPage())] == 1
    ensures SettingsStep(Settings(1, 0, 0, 0), Page(RouterPage())).router == 2
  {
    RouterNoticeFits();
    NoticePageRead(RouterNotice());
    hide NoticePage, IsDhcp, At, Last, Reached, OptBytes, SettingsStep;
    SettingsLearned(Settings(1, 0, 0, 0), RouterPage(), RouterNotice().opts);
  }

  /** A stack that knows the gateway 1 and another station 2. */
  function Knowing(): Host {
    var a, b := [2, 0, 0, 0, 0, 1], [2, 0, 0, 0, 0, 2];
    var h := Initial([2, 0, 0, 0, 0, 9], 7);
    h.(router := 1, routerMac := a, arp := h.arp.(cache := [Binding(1, a), Binding(2, b)]))
  }

  lemma KnowingConsistent()
    ensures Consistent(Knowing()) && Find(Knowing().arp.cache, 2) == Some([2, 0, 0, 0, 0, 2])
    ensures SettingsOf(Knowing()) == Settings(1, 0, 0, 0) && Knowing().routerMac == [2, 0, 0, 0, 0, 1]
  {
    assert Knowing().arp.cache[1..] == [Binding(2, [2, 0, 0, 0, 0, 2])];
  }

  /** An initialisation that breaks the agreement: the gateway is changed to an address the cache knows,
    * and nothing arrives. */
  lemma StaleGateway(seed: u32, ip: u32, mask: u32, dns: u32)
    ensures Consistent(Knowing())
    ensures !RouterAgrees(InitStatic(World(Knowing(), [], false), seed, ip, 2, mask, dns).h)
  {
    KnowingConsistent();
    hide Find, InitStatic;
    InitStaticOutcome(World(Knowing(), [], false), seed, ip, 2, mask, dns);
  }

  /** The same by DHCP, with no more than that message arriving. */
  lemma StaleGatewayByDhcp(seed: u32)
    ensures !RouterAgrees(InitNetwork(World(Knowing(), [Page(RouterPage())], false), seed).h)
  {
    KnowingConsistent();
    RouterTaken();
    hide RouterPage, IsDhcp, Find, InitNetwork, Handshaken, Knowing, SettingsStep;
    var w := World(Knowing(), [Page(RouterPage())], false);
    OnlyRouter(w.inbox);
    InitNetworkOutcome(w, seed);
  }

  lemma OnlyRouter(inbox: seq<Rx>)
    requires |inbox| == 1 && inbox[0].Page? && inbox[0].bytes[Message(inbox[0].bytes)] == 1
    requires SettingsStep(Settings(1, 0, 0, 0), inbox[0]).router == 2
    ensures Decide(inbox) == NoOffer && SettingsInUse(Settings(1, 0, 0, 0), inbox).router == 2
  {
    hide SettingsStep, IsDhcp, MsgType;
    assert !IsReply(inbox[0].bytes, MSG_OFFER);
    assert FirstReply(MSG_OFFER, inbox[1..], TIMEOUT_DHCP_LOOPS - 1) == None;
    assert Spent(inbox) == 1 && inbox[..1] == inbox && inbox[1..] == [];
    SettingsOfFirst(Settings(1, 0, 0, 0), inbox);
  }
}
