/** DHCP on the wire: what the client's messages say, and what it makes of a server's (RFC 2131 section 2,
  * RFC 951). */
module DhcpWire {
  import opened Words
  import opened DhcpOptions
  import opened Frames
  import opened Hosts
  import opened Runs
  import opened Wire
  import opened TwoStacks
  import opened DhcpClient
  import opened Initialisation

  // ---------- the client's messages ----------

  /** The fixed fields of a client's message found at `p`. */
  lemma DhcpFixedFields(b: Bytes, p: nat, xid: u32, mac: Mac)
    requires At(b, p, DhcpFixed(xid, mac))
    ensures |b| >= p + 240 && b[p] == 1 && b[p + 1] == 1 && b[p + 2] == 6 && b[p + 3] == 0
    ensures Be32At(b, p + 4) == xid && Be16At(b, p + 10) == 0x8000 && b[p + 12..p + 28] == Zeros(16)
    ensures b[p + 28..p + 34] == mac && Be32At(b, p + 236) == DHCP_MAGIC
  {
    hide At, BE32, BE16, Be32At, Be16At, Zeros;
    var kinds, flags: Bytes := [1, 1, 6, 0], [0, 0];
    var tail := mac + (Zeros(202) + BE32(DHCP_MAGIC));
    assert DhcpFixed(xid, mac) == kinds + (BE32(xid) + (flags + (BE16(0x8000) + (Zeros(16) + tail))));
    AtSplit(b, p, kinds, BE32(xid) + (flags + (BE16(0x8000) + (Zeros(16) + tail))));
    AtSplit(b, p + 4, BE32(xid), flags + (BE16(0x8000) + (Zeros(16) + tail)));
    AtSplit(b, p + 8, flags, BE16(0x8000) + (Zeros(16) + tail));
    AtSplit(b, p + 10, BE16(0x8000), Zeros(16) + tail);
    AtSplit(b, p + 12, Zeros(16), tail);
    AtSplit(b, p + 28, mac, Zeros(202) + BE32(DHCP_MAGIC));
    AtSplit(b, p + 34, Zeros(202), BE32(DHCP_MAGIC));
    AtWord(b, p, kinds, 0);
    AtWord(b, p, kinds, 1);
    AtWord(b, p, kinds, 2);
    AtWord(b, p, kinds, 3);
    ReadDouble(b, p + 4, xid);
    ReadWord(b, p + 10, 0x8000);
    AtSlice(b, p + 12, Zeros(16));
    AtSlice(b, p + 28, mac);
    ReadDouble(b, p + 236, DHCP_MAGIC);
  }

  /** A DHCP message on the wire: broadcast from port 68 of an address-less host to port 67, a boot request
    * with the transaction id, the broadcast flag, no addresses, the client's MAC, the cookie, and the
    * options of its kind up to END. */
  lemma DhcpOnWire(kind: byte, xid: u32, mac: Mac, ip: u32, server: u32)
    ensures var m := DhcpMessage(kind, xid, mac, ip, server);
      && Decode(DhcpFrame(kind, xid, mac, ip, server)) ==
           IpPacket(BROADCAST_MAC, mac, 1, 0, BROADCAST_IP, UdpPart(68, 67, m))
      && m[0] == 1 && m[1] == 1 && m[2] == 6 && m[3] == 0 && Be32At(m, 4) == xid && Be16At(m, 10) == 0x8000
      && m[12..28] == Zeros(16) && m[28..34] == mac && Be32At(m, 236) == 0x63825363
      && At(m, 240, OptBytes(RequestOptions(kind, ip, server)) + [OPT_END])
  {
    hide Decode, PartOf, DhcpFixed, OptionField, Be16At, Be32At, At, Zeros, RequestOptions, OptBytes, Ipv4Frame;
    var m := DhcpMessage(kind, xid, mac, ip, server);
    var fixed, field := DhcpFixed(xid, mac), OptionField(kind, ip, server);
    IpDecoded(BROADCAST_MAC, mac, 1, PROTO_UDP, 0, BROADCAST_IP, DhcpDatagram(kind, xid, mac, ip, server));
    DhcpUdpDecoded(kind, xid, mac, ip, server);
    OptionFieldShape(kind, ip, server);
    var rest := Zeros(300 - |field|);
    assert m == fixed + (field + rest);
    WholeAt(m);
    AtSplit(m, 0, fixed, field + rest);
    AtSplit(m, 240, field, rest);
    DhcpFixedFields(m, 0, xid, mac);
  }

  lemma DhcpUdpDecoded(kind: byte, xid: u32, mac: Mac, ip: u32, server: u32)
    ensures PartOf(PROTO_UDP, DhcpDatagram(kind, xid, mac, ip, server)) ==
      UdpPart(68, 67, DhcpMessage(kind, xid, mac, ip, server))
  {
    hide DhcpMessage;
    var d, m := DhcpDatagram(kind, xid, mac, ip, server), DhcpMessage(kind, xid, mac, ip, server);
    assert d[8..] == m;
  }

  lemma {:induction false} DhcpExtends(c: Client, xid: u32)
    ensures c.h.sent <= DhcpRun(c, xid).h.sent
    decreases TIMEOUT_DHCP_LOOPS - c.loops
  {
    if c.phase != Bound && c.loops < TIMEOUT_DHCP_LOOPS {
      DhcpStepExtends(c, xid);
      hide Step;
      DhcpExtends(Step(c, xid), xid);
    }
  }

  lemma DhcpStepExtends(c: Client, xid: u32)
    ensures var d := if c.timeout == 0 then SendDhcp(c, xid) else c;
      c.h.sent <= d.h.sent == Step(c, xid).h.sent
  {
    hide DhcpFrame, Scanned, IsDhcp, OfferedIp, ServerOf;
  }

  /** Initialisation by DHCP on the wire: its first frame is a DISCOVER with the transaction id drawn first
    * from the new seed, asking for mask, router and DNS server. */
  lemma InitOnWire(w: World, seed: u32)
    ensures var sent := InitNetwork(w, seed).h.sent;
      && |sent| > |w.h.sent| && w.h.sent <= sent
      && var m := DhcpMessage(MSG_DISCOVER, NextSeed(seed), w.h.mac, w.h.ip, w.h.dhcpServer);
         && Decode(sent[|w.h.sent|]) == IpPacket(BROADCAST_MAC, w.h.mac, 1, 0, BROADCAST_IP, UdpPart(68, 67, m))
         && Be32At(m, 4) == NextSeed(seed) && m[28..34] == w.h.mac
         && At(m, 240, OptBytes([Tlv(53, [1]), Tlv(55, [1, 3, 6])]) + [255])
  {
    hide DhcpFrame, DhcpMessage, Decode, At, ResolveGateway, NextSeed, Step, OptBytes, Be32At;
    var xid := NextSeed(seed);
    var c := Start(w.h.(seed := xid), w.inbox);
    DhcpStepExtends(c, xid);
    DhcpExtends(Step(c, xid), xid);
    DhcpOnWire(MSG_DISCOVER, xid, w.h.mac, w.h.ip, w.h.dhcpServer);
    var v := w.(h := Handshaken(w, seed).h, inbox := Handshaken(w, seed).inbox);
    ResolveGatewayExtends(v);
    assert SendDhcp(c, xid).h.sent[|w.h.sent|] == DhcpFrame(MSG_DISCOVER, xid, w.h.mac, w.h.ip, w.h.dhcpServer);
  }

  // ---------- a server's messages ----------

  /** What a server writes: operation, transaction id, the client's address, the next server's, the
    * client's MAC, and options. */
  datatype Notice = Notice(op: byte, xid: u32, yiaddr: u32, siaddr: u32, mac: Mac, opts: seq<Opt>) {
    predicate Valid() {
      AllValid(opts) && |OptBytes(opts)| < 0xF000
    }

    function Fixed(): (r: Bytes)
      ensures |r| == 240
    {
      [op, 1, 6, 0] + BE32(xid) + Zeros(8) + LE32(yiaddr) + LE32(siaddr) + Zeros(4) + mac + Zeros(202) +
      BE32(DHCP_MAGIC)
    }

    /** The options are closed by END. */
    function Message(): (r: Bytes)
      requires Valid()
      ensures |r| == 241 + |OptBytes(opts)|
    {
      Fixed() + (OptBytes(opts) + [OPT_END])
    }

    /** The message type, or zero without one among the options scanned. */
    function Type(): byte
      requires Valid()
    {
      match Last(Reached(opts, MAX_SCAN), OPT_MSG_TYPE, 1) case Some(d) => if |d| > 0 then d[0] else 0 case None => 0
    }

    /** The server it names: the next server, or else its sender. */
    function Server(sender: u32): u32 {
      if siaddr == 0 then sender else siaddr
    }
  }

  /** The way a frame takes. */
  datatype Route = Route(dst: Mac, src: Mac, id: u16, saddr: u32, daddr: u32)

  function ServerFrame(r: Route, m: Notice): Bytes
    requires m.Valid()
  {
    Ipv4Frame(r.dst, r.src, r.id, PROTO_UDP, r.saddr, r.daddr,
              UdpDatagram(r.saddr, r.daddr, PORT_DHCP_SERVER, PORT_DHCP_CLIENT, m.Message()))
  }

  lemma FixedAt(p: Bytes, o: nat, m: Notice)
    requires At(p, o, m.Fixed())
    ensures |p| >= o + 240 && p[o] == m.op && Be32At(p, o + 4) == m.xid
    ensures Le32At(p, o + 16) == m.yiaddr && Le32At(p, o + 20) == m.siaddr && Be32At(p, o + 236) == DHCP_MAGIC
  {
    hide At, BE32, LE32, Be32At, Le32At;
    var kinds: Bytes := [m.op, 1, 6, 0];
    var addresses, last := LE32(m.yiaddr) + LE32(m.siaddr), Zeros(4) + m.mac + Zeros(202);
    assert m.Fixed() == kinds + (BE32(m.xid) + (Zeros(8) + (addresses + (last + BE32(DHCP_MAGIC)))));
    AtSplit(p, o, kinds, BE32(m.xid) + (Zeros(8) + (addresses + (last + BE32(DHCP_MAGIC)))));
    AtSplit(p, o + 4, BE32(m.xid), Zeros(8) + (addresses + (last + BE32(DHCP_MAGIC))));
    AtSplit(p, o + 8, Zeros(8), addresses + (last + BE32(DHCP_MAGIC)));
    AtSplit(p, o + 16, addresses, last + BE32(DHCP_MAGIC));
    AtSplit(p, o + 16, LE32(m.yiaddr), LE32(m.siaddr));
    AtSplit(p, o + 24, last, BE32(DHCP_MAGIC));
    AtWord(p, o, kinds, 0);
    ReadDouble(p, o + 4, m.xid);
    ReadAddress(p, o + 16, m.yiaddr);
    ReadAddress(p, o + 20, m.siaddr);
    ReadDouble(p, o + 236, DHCP_MAGIC);
  }

  /** What the client reads in a server's message: that it is one, its operation and type, the address
    * offered, the server, and the options. */
  lemma NoticeRead(p: PageBytes, r: Route, m: Notice)
    requires m.Valid() && Received(p, ServerFrame(r, m))
    ensures IsDhcp(p) && Message(p) == 42 && p[42] == m.op && Be32At(p, 46) == m.xid && MsgType(p) == m.Type()
    ensures OfferedIp(p) == m.yiaddr && ServerOf(p) == m.Server(r.saddr)
    ensures At(p, 282, OptBytes(m.opts) + [OPT_END])
  {
    var d := m.Message();
    hide Ipv4Frame, UdpDatagram, At, Notice.Fixed, Be16At, Be32At, Le32At, OptBytes, MsgType, Reached, Last;
    BodyAt(p, r.dst, r.src, r.id, PROTO_UDP, r.saddr, r.daddr,
           UdpDatagram(r.saddr, r.daddr, PORT_DHCP_SERVER, PORT_DHCP_CLIENT, d));
    UdpBody(p, r.saddr, r.daddr, PORT_DHCP_SERVER, PORT_DHCP_CLIENT, d);
    AtSplit(p, 42, m.Fixed(), OptBytes(m.opts) + [OPT_END]);
    FixedAt(p, 42, m);
    TypeRead(p, m.opts);
  }

  lemma TypeRead(p: PageBytes, opts: seq<Opt>)
    requires Message(p) == 42 && AllValid(opts) && At(p, 282, OptBytes(opts) + [OPT_END])
    ensures MsgType(p) ==
      match Last(Reached(opts, MAX_SCAN), OPT_MSG_TYPE, 1) case Some(d) => if |d| > 0 then d[0] else 0 case None => 0
  {
    hide Message, At, Reached, Last, Fold, Scan, OptBytes;
    var c := Config(0, 0, 0, 0, 0);
    ScanIsFold(opts, p, 282, 282 + MAX_SCAN, c);
    FoldIsLast(Reached(opts, MAX_SCAN), c);
  }

  // ---------- a lease, end to end ----------

  /** The settings a server's message gives, over those before it. */
  function Given(s: Settings, m: Notice): Settings
    requires m.Valid()
  {
    var seen := Reached(m.opts, MAX_SCAN);
    Settings(Setting(Last(seen, OPT_ROUTER, 4), s.router), Setting(Last(seen, OPT_DNS, 4), s.dns),
             Setting(Last(seen, OPT_SUBNET_MASK, 4), s.mask),
             match Last(seen, OPT_LEASE_TIME, 4)
             case Some(d) => if |d| >= 4 then Be32At(d, 0) else 0
             case None => s.lease)
  }

  /** A lease, end to end: when a server's offer and then its acknowledgement are the first frames to
    * arrive, the stack takes the address offered, and router, DNS server, mask and lease time from the
    * options of the two messages, whatever ids they carry; without a router the server is the gateway. */
  lemma LeaseObtained(w: World, seed: u32, p: PageBytes, q: PageBytes, r: Route, s: Route, offer: Notice, ack: Notice)
    requires offer.Valid() && offer.op == OP_REPLY && offer.Type() == MSG_OFFER && Received(p, ServerFrame(r, offer))
    requires ack.Valid() && ack.op == OP_REPLY && ack.Type() == MSG_ACK && Received(q, ServerFrame(s, ack))
    requires |w.inbox| >= 2 && w.inbox[0] == Page(p) && w.inbox[1] == Page(q)
    ensures var c := Handshaken(w, seed);
      && c.phase == Bound && c.h.ip == offer.yiaddr && c.h.dhcpServer == offer.Server(r.saddr)
      && c.inbox == w.inbox[2..]
      && SettingsOf(c.h) == WithGateway(Given(Given(SettingsOf(w.h), offer), ack), offer.Server(r.saddr))
    ensures var h := InitNetwork(w, seed).h;
      h.ip == offer.yiaddr && SettingsOf(h) == SettingsOf(Handshaken(w, seed).h)
  {
    hide ServerFrame, Received, Handshaken, Given, IsDhcp, OfferedIp, ServerOf, MsgType, At, Notice.Type, Notice.Valid,
         SettingsStep, ResolveGateway, WithGateway, AllVerify, Steady;
    NoticeRead(p, r, offer);
    NoticeRead(q, s, ack);
    FirstTwo(w.inbox);
    Learned(SettingsOf(w.h), p, offer);
    Learned(Given(SettingsOf(w.h), offer), q, ack);
    TwoSteps(SettingsOf(w.h), w.inbox);
    AfterHandshake(w, seed);
    ResolveGatewayExtends(w.(h := Handshaken(w, seed).h, inbox := Handshaken(w, seed).inbox));
  }

  lemma Learned(s: Settings, p: PageBytes, m: Notice)
    requires m.Valid() && IsDhcp(p) && Message(p) == 42 && At(p, 282, OptBytes(m.opts) + [OPT_END])
    ensures SettingsStep(s, Page(p)) == Given(s, m)
  {
    hide IsDhcp, At, SettingsStep, Last, Reached, OptBytes;
    SettingsLearned(s, p, m.opts);
  }

  lemma TwoSteps(s: Settings, inbox: seq<Rx>)
    requires |inbox| >= 2
    ensures SettingsAfter(s, inbox[..2]) == SettingsStep(SettingsStep(s, inbox[0]), inbox[1])
  {
    hide SettingsStep;
    var two := inbox[..2];
    assert two[1..][1..] == [];
    assert SettingsAfter(s, two) == SettingsAfter(SettingsStep(s, two[0]), two[1..]);
    SettingsOfFirst(SettingsStep(s, two[0]), two[1..]);
  }

  /** The verdict when an offer and an acknowledgement come first. */
  lemma FirstTwo(inbox: seq<Rx>)
    requires |inbox| >= 2 && inbox[0].Page? && inbox[1].Page?
    requires IsReply(inbox[0].bytes, MSG_OFFER) && IsReply(inbox[1].bytes, MSG_ACK)
    ensures Decide(inbox) == Obtained(inbox[0].bytes, inbox[1].bytes, 2) && Spent(inbox) == 2
  {
    hide IsReply;
    assert FirstReply(MSG_OFFER, inbox, TIMEOUT_DHCP_LOOPS) == Some(0);
    assert FirstReply(MSG_ACK, inbox[1..], TIMEOUT_DHCP_LOOPS - 1) == Some(0);
  }
}
