/** The DHCP handshake of `api::init_network` (RFC 2131 section 3.1) as a run over the frames that
  * arrive, with the trace of what was sent and accepted. Pages are arbitrary bytes here: the scan
  * needs no well-formedness. */
module DhcpClient {
  import opened Words
  import opened DhcpOptions
  import opened Frames
  import opened Hosts
  import opened Runs

  const TIMEOUT_DHCP_LOOPS := 500000
  const OP_REPLY: byte := 2

  datatype Phase = Discover | OfferReceived | Bound

  datatype Event = Sent(kind: byte, frame: Bytes) | Accepted(page: PageBytes)

  datatype Client = Client(h: Host, inbox: seq<Rx>, phase: Phase, timeout: nat, loops: nat, log: seq<Event>)

  // ---------- reading a reply ----------

  function Message(b: PageBytes): (d: nat)
    ensures 42 <= d <= 82
  {
    Layer4(b) + 8
  }

  predicate IsDhcp(b: PageBytes) {
    IsIpv4(b, PROTO_UDP) && Be16At(b, Layer4(b) + 2) == PORT_DHCP_CLIENT && Be32At(b, Message(b) + 236) == DHCP_MAGIC
  }

  function OfferedIp(b: PageBytes): u32 {
    Le32At(b, Message(b) + 16)
  }

  /** The server address: `siaddr`, or the sender when that is zero. */
  function ServerOf(b: PageBytes): u32 {
    var siaddr := Le32At(b, Message(b) + 20);
    if siaddr == 0 then Le32At(b, 26) else siaddr
  }

  function Scanned(b: PageBytes, c: Config): Config {
    var start := Message(b) + 240;
    Scan(b, start, start + MAX_SCAN, c).config
  }

  function MsgType(b: PageBytes): byte {
    Scanned(b, Config(0, 0, 0, 0, 0)).msgType
  }

  /** A reply of type `kind`, or without any message type, is taken for it. */
  predicate IsReply(b: PageBytes, kind: byte) {
    IsDhcp(b) && b[Message(b)] == OP_REPLY && (MsgType(b) == kind || MsgType(b) == 0)
  }

  // ---------- one iteration ----------

  /** Every DHCP message that arrives leaves its settings, accepted or not. */
  function Absorb(h: Host, b: PageBytes): (Host, byte) {
    var c := Scanned(b, Config(0, h.router, h.dnsServer, h.mask, h.lease));
    (h.(router := c.router, dnsServer := c.dns, mask := c.mask, lease := c.lease), c.msgType)
  }

  function OnReply(c: Client, b: PageBytes): (r: Client)
    ensures r.inbox == c.inbox && r.loops == c.loops
  {
    if !IsDhcp(b) then c
    else
      var (h, kind) := Absorb(c.h, b);
      var d := c.(h := h);
      if b[Message(b)] != OP_REPLY then d
      else if c.phase == Discover && (kind == MSG_OFFER || kind == 0) then
        d.(h := h.(ip := OfferedIp(b), dhcpServer := ServerOf(b)), phase := OfferReceived, timeout := 0,
           log := c.log + [Accepted(b)])
      else if c.phase == OfferReceived && (kind == MSG_ACK || kind == 0) then
        d.(h := if h.router == 0 then h.(router := h.dhcpServer) else h, phase := Bound, log := c.log + [Accepted(b)])
      else d
  }

  function SendDhcp(c: Client, xid: u32): Client {
    var kind := if c.phase == Discover then MSG_DISCOVER else MSG_REQUEST;
    var f := DhcpFrame(kind, xid, c.h.mac, c.h.ip, c.h.dhcpServer);
    c.(h := Transmit(c.h, f), timeout := TIMEOUT_RETRANSMIT, log := c.log + [Sent(kind, f)])
  }

  function Step(c: Client, xid: u32): (r: Client)
    ensures r.loops == c.loops + 1
  {
    var d := if c.timeout == 0 then SendDhcp(c, xid) else c;
    var e := d.(inbox := Rest(d.inbox), loops := d.loops + 1);
    match NextRx(d.inbox)
    case Page(b) => OnReply(e, b)
    case NotReady => e.(timeout := e.timeout - 1)
    case DeviceError => e
  }

  function DhcpRun(c: Client, xid: u32): Client
    decreases TIMEOUT_DHCP_LOOPS - c.loops
  {
    if c.phase == Bound || c.loops >= TIMEOUT_DHCP_LOOPS then c else DhcpRun(Step(c, xid), xid)
  }

  function Start(h: Host, inbox: seq<Rx>): Client {
    Client(h, inbox, Discover, 0, 0, [])
  }

  /** The handshake of `init_network`, with the generator seeded from the clock; the transaction id is
    * drawn first. */
  function Handshaken(w: World, seed: u32): Client {
    var xid := NextSeed(seed);
    DhcpRun(Start(w.h.(seed := xid), w.inbox), xid)
  }

  /** `init_network` from the handshake on: the gateway is resolved only when an address was obtained. */
  function InitNetwork(w: World, seed: u32): World {
    var c := Handshaken(w, seed);
    var v := w.(h := c.h, inbox := c.inbox);
    if c.phase == Bound then ResolveGateway(v) else v
  }

  // ---------- the message type does not depend on earlier settings ----------

  lemma {:induction false} TypeIndependent(b: Bytes, p: nat, limit: nat, c: Config, d: Config)
    requires p <= limit + 256 && limit + 257 <= |b| && c.msgType == d.msgType
    ensures Scan(b, p, limit, c).config.msgType == Scan(b, p, limit, d).config.msgType
    decreases limit + 257 - p
  {
    if b[p] != OPT_END && p < limit {
      var next := if b[p] == OPT_PAD then p + 1 else p + b[p + 1] + 2;
      TypeIndependent(b, next, limit, Apply(c, OptionAt(b, p)), Apply(d, OptionAt(b, p)));
    }
  }

  lemma AbsorbedType(h: Host, b: PageBytes)
    ensures Absorb(h, b).1 == MsgType(b)
  {
    var start := Message(b) + 240;
    TypeIndependent(b, start, start + MAX_SCAN, Config(0, h.router, h.dnsServer, h.mask, h.lease),
      Config(0, 0, 0, 0, 0));
  }

  // ---------- what decides the handshake ----------

  /** Where the first reply taken for `kind` stands among the first `n` frames. */
  function FirstReply(kind: byte, inbox: seq<Rx>, n: nat): (r: Option<nat>)
    ensures r.Some? ==>
      r.value < n && r.value < |inbox| && inbox[r.value].Page? && IsReply(inbox[r.value].bytes, kind)
    decreases n
  {
    if n == 0 || |inbox| == 0 then None
    else if inbox[0].Page? && IsReply(inbox[0].bytes, kind) then Some(0)
    else match FirstReply(kind, inbox[1..], n - 1)
      case None => None
      case Some(i) => Some(i + 1)
  }

  datatype Verdict = NoOffer | OnlyOffer(offer: PageBytes) | Obtained(offer: PageBytes, ack: PageBytes, used: nat)

  /** What the waiting frames decide: the first offer within the budget, and the first acknowledgement
    * behind it within what the budget leaves. */
  function Decide(inbox: seq<Rx>): (v: Verdict)
    ensures v.Obtained? ==> v.used <= |inbox|
  {
    match FirstReply(MSG_OFFER, inbox, TIMEOUT_DHCP_LOOPS)
    case None => NoOffer
    case Some(i) =>
      match FirstReply(MSG_ACK, inbox[i + 1..], TIMEOUT_DHCP_LOOPS - (i + 1))
      case None => OnlyOffer(inbox[i].bytes)
      case Some(j) => Obtained(inbox[i].bytes, inbox[i + 1 + j].bytes, i + j + 2)
  }

  /** How many frames the handshake consumes. */
  function Spent(inbox: seq<Rx>): (n: nat)
    ensures n <= |inbox|
  {
    match Decide(inbox)
    case Obtained(_, _, used) => used
    case _ => Min(|inbox|, TIMEOUT_DHCP_LOOPS)
  }

  /** The settings learned from options. */
  datatype Settings = Settings(router: u32, dns: u32, mask: u32, lease: u32)

  function SettingsOf(h: Host): Settings {
    Settings(h.router, h.dnsServer, h.mask, h.lease)
  }

  /** The settings after one frame: the options of any DHCP message are taken, whatever its type or
    * operation. */
  function SettingsStep(s: Settings, e: Rx): Settings {
    if e.Page? && IsDhcp(e.bytes) then
      var c := Scanned(e.bytes, Config(0, s.router, s.dns, s.mask, s.lease));
      Settings(c.router, c.dns, c.mask, c.lease)
    else s
  }

  function SettingsAfter(s: Settings, inbox: seq<Rx>): Settings
    decreases |inbox|
  {
    if |inbox| == 0 then s else SettingsAfter(SettingsStep(s, inbox[0]), inbox[1..])
  }

  /** Without any router option the server stands in, once an address is obtained. */
  function WithGateway(s: Settings, server: u32): Settings {
    if s.router == 0 then s.(router := server) else s
  }

  /** The settings in use after the handshake. */
  function SettingsInUse(s: Settings, inbox: seq<Rx>): Settings {
    var last := SettingsAfter(s, inbox[..Spent(inbox)]);
    match Decide(inbox)
    case Obtained(offer, _, _) => WithGateway(last, ServerOf(offer))
    case _ => last
  }

  lemma AbsorbedSettings(h: Host, b: PageBytes)
    requires IsDhcp(b)
    ensures SettingsOf(Absorb(h, b).0) == SettingsStep(SettingsOf(h), Page(b))
  {
    hide Scanned;
  }

  /** What a DHCP message sets, told from its options: each setting is the last option of its kind with
    * at least four bytes among those that start below the scan limit, or stays as it was. */
  lemma SettingsLearned(s: Settings, b: PageBytes, opts: seq<Opt>)
    requires IsDhcp(b) && AllValid(opts) && At(b, Message(b) + 240, OptBytes(opts) + [OPT_END])
    ensures var r, seen := SettingsStep(s, Page(b)), Reached(opts, MAX_SCAN);
      && r.router == Setting(Last(seen, OPT_ROUTER, 4), s.router)
      && r.dns == Setting(Last(seen, OPT_DNS, 4), s.dns)
      && r.mask == Setting(Last(seen, OPT_SUBNET_MASK, 4), s.mask)
      && r.lease == match Last(seen, OPT_LEASE_TIME, 4)
                    case Some(d) => if |d| >= 4 then Be32At(d, 0) else 0
                    case None => s.lease
  {
    hide IsDhcp, At, Reached, Last, Fold, Scan;
    var start, c := Message(b) + 240, Config(0, s.router, s.dns, s.mask, s.lease);
    ScanIsFold(opts, b, start, start + MAX_SCAN, c);
    FoldIsLast(Reached(opts, MAX_SCAN), c);
  }

  /** The pages a log accepts. */
  function AcceptedIn(log: seq<Event>): seq<PageBytes> {
    if |log| == 0 then []
    else AcceptedIn(log[..|log| - 1]) + match log[|log| - 1] case Sent(_, _) => [] case Accepted(b) => [b]
  }

  lemma AcceptedAppend(log: seq<Event>, e: seq<Event>)
    requires |e| == 1
    ensures AcceptedIn(log + e) == AcceptedIn(log) + match e[0] case Sent(_, _) => [] case Accepted(b) => [b]
  {
    assert (log + e)[..|log|] == log;
  }

  /** The addresses of the offer, once there is one. */
  function Terms(h: Host): (u32, u32) {
    (h.ip, h.dhcpServer)
  }

  /** Whether the next frame moves the handshake on. */
  predicate Advances(c: Client) {
    |c.inbox| > 0 && c.inbox[0].Page? &&
    IsReply(c.inbox[0].bytes, if c.phase == Discover then MSG_OFFER else MSG_ACK)
  }

  /** One iteration, whatever the timer says. */
  lemma StepDecides(c: Client, xid: u32)
    requires c.phase != Bound
    ensures var d, after := Step(c, xid), SettingsAfter(SettingsOf(c.h), c.inbox[..Min(|c.inbox|, 1)]);
      && d.inbox == Rest(c.inbox) && d.loops == c.loops + 1
      && (!Advances(c) ==>
            && d.phase == c.phase && SettingsOf(d.h) == after && Terms(d.h) == Terms(c.h)
            && AcceptedIn(d.log) == AcceptedIn(c.log))
      && (Advances(c) && c.phase == Discover ==>
            var b := c.inbox[0].bytes;
            && d.phase == OfferReceived && SettingsOf(d.h) == after && Terms(d.h) == (OfferedIp(b), ServerOf(b))
            && AcceptedIn(d.log) == AcceptedIn(c.log) + [b])
      && (Advances(c) && c.phase == OfferReceived ==>
            && d.phase == Bound && SettingsOf(d.h) == WithGateway(after, c.h.dhcpServer)
            && Terms(d.h) == Terms(c.h)
            && AcceptedIn(d.log) == AcceptedIn(c.log) + [c.inbox[0].bytes])
  {
    hide DhcpFrame, Scanned, IsDhcp, OfferedIp, ServerOf, MsgType, AcceptedIn, SettingsAfter, SettingsStep;
    var first, sent := c.inbox[..Min(|c.inbox|, 1)], if c.timeout == 0 then SendDhcp(c, xid) else c;
    var kind := if c.phase == Discover then MSG_DISCOVER else MSG_REQUEST;
    AcceptedAppend(c.log, [Sent(kind, DhcpFrame(kind, xid, c.h.mac, c.h.ip, c.h.dhcpServer))]);
    assert AcceptedIn(sent.log) == AcceptedIn(c.log);
    SettingsOfFirst(SettingsOf(c.h), first);
    if |c.inbox| > 0 {
      if c.inbox[0].Page? && IsDhcp(c.inbox[0].bytes) {
        var b := c.inbox[0].bytes;
        AbsorbedType(sent.h, b);
        AbsorbedSettings(sent.h, b);
        AcceptedAppend(sent.log, [Accepted(b)]);
      } else {
        NothingLearned(SettingsOf(c.h), c.inbox[0]);
      }
    }
  }

  lemma NothingLearned(s: Settings, e: Rx)
    requires !(e.Page? && IsDhcp(e.bytes))
    ensures SettingsStep(s, e) == s
  {
  }

  lemma SettingsOfFirst(s: Settings, first: seq<Rx>)
    requires |first| <= 1
    ensures SettingsAfter(s, first) == if |first| == 1 then SettingsStep(s, first[0]) else s
  {
    hide SettingsStep;
    if |first| == 1 {
      assert SettingsAfter(SettingsStep(s, first[0]), first[1..]) == SettingsStep(s, first[0]);
    }
  }

  lemma {:induction false} SettingsSplit(s: Settings, a: seq<Rx>, b: seq<Rx>)
    ensures SettingsAfter(s, a + b) == SettingsAfter(SettingsAfter(s, a), b)
    decreases |a|
  {
    hide SettingsStep;
    if a == [] {
      assert a + b == b;
    } else {
      assert (a + b)[1..] == a[1..] + b;
      SettingsSplit(SettingsStep(s, a[0]), a[1..], b);
    }
  }

  /** From `c` to `d`, `used` frames were consumed: up to the one that ends the phase, or all that the
    * budget allows. */
  ghost predicate PhaseDone(c: Client, d: Client, used: nat)
    requires c.phase != Bound && c.loops <= TIMEOUT_DHCP_LOOPS
  {
    && used <= |c.inbox| && d.inbox == c.inbox[used..]
    && var after := SettingsAfter(SettingsOf(c.h), c.inbox[..used]);
       var kind, n := if c.phase == Discover then MSG_OFFER else MSG_ACK, TIMEOUT_DHCP_LOOPS - c.loops;
       match FirstReply(kind, c.inbox, n)
       case None =>
         && used == Min(|c.inbox|, n) && d.phase == c.phase && d.loops == TIMEOUT_DHCP_LOOPS
         && SettingsOf(d.h) == after && Terms(d.h) == Terms(c.h) && AcceptedIn(d.log) == AcceptedIn(c.log)
       case Some(i) =>
         var b := c.inbox[i].bytes;
         && used == i + 1 && d.loops == c.loops + used && AcceptedIn(d.log) == AcceptedIn(c.log) + [b]
         && (c.phase == Discover ==>
               d.phase == OfferReceived && SettingsOf(d.h) == after && Terms(d.h) == (OfferedIp(b), ServerOf(b)))
         && (c.phase == OfferReceived ==>
               && d.phase == Bound && SettingsOf(d.h) == WithGateway(after, c.h.dhcpServer)
               && Terms(d.h) == Terms(c.h))
  }

  lemma PhaseBudgetSpent(c: Client)
    requires c.phase != Bound && c.loops == TIMEOUT_DHCP_LOOPS
    ensures PhaseDone(c, c, 0)
  {
    hide IsReply, AcceptedIn;
    SettingsOfFirst(SettingsOf(c.h), []);
  }

  lemma PhaseEnds(c: Client, xid: u32)
    requires c.phase != Bound && c.loops < TIMEOUT_DHCP_LOOPS && Advances(c)
    ensures PhaseDone(c, Step(c, xid), 1)
  {
    hide Step, IsReply, OfferedIp, ServerOf, AcceptedIn, SettingsAfter;
    StepDecides(c, xid);
  }

  lemma FirstReplyBehind(kind: byte, inbox: seq<Rx>, n: nat)
    requires n > 0 && !(|inbox| > 0 && inbox[0].Page? && IsReply(inbox[0].bytes, kind))
    ensures |inbox| == 0 ==> FirstReply(kind, inbox, n) == None && FirstReply(kind, inbox, n - 1) == None
    ensures |inbox| > 0 && FirstReply(kind, inbox[1..], n - 1).None? ==> FirstReply(kind, inbox, n) == None
    ensures |inbox| > 0 && FirstReply(kind, inbox[1..], n - 1).Some? ==>
      FirstReply(kind, inbox, n) == Some(FirstReply(kind, inbox[1..], n - 1).value + 1)
  {
    hide IsReply;
  }

  lemma PhaseContinues(c: Client, xid: u32, d: Client, more: nat)
    requires c.phase != Bound && c.loops < TIMEOUT_DHCP_LOOPS && !Advances(c)
    requires var t := Step(c, xid); t.phase == c.phase && t.loops == c.loops + 1 && PhaseDone(t, d, more)
    ensures PhaseDone(c, d, if |c.inbox| == 0 then 0 else 1 + more)
  {
    hide Step, IsReply, OfferedIp, ServerOf, AcceptedIn, SettingsAfter, FirstReply;
    var t := Step(c, xid);
    var kind, n := if c.phase == Discover then MSG_OFFER else MSG_ACK, TIMEOUT_DHCP_LOOPS - c.loops;
    StepDecides(c, xid);
    FirstReplyBehind(kind, c.inbox, n);
    if |c.inbox| == 0 {
      assert t.inbox == c.inbox && t.inbox[..more] == [];
      SettingsOfFirst(SettingsOf(t.h), []);
    } else {
      var first, rest := c.inbox[..1], c.inbox[1..][..more];
      assert c.inbox[..1 + more] == first + rest;
      SettingsSplit(SettingsOf(c.h), first, rest);
      assert d.inbox == c.inbox[1 + more..];
    }
  }

  /** The phase in which `c` is, run to the frame that ends it or to the end of the budget. */
  lemma {:induction false} PhaseRun(c: Client, xid: u32) returns (d: Client, used: nat)
    requires c.phase != Bound && c.loops <= TIMEOUT_DHCP_LOOPS
    ensures PhaseDone(c, d, used) && DhcpRun(d, xid) == DhcpRun(c, xid)
    decreases TIMEOUT_DHCP_LOOPS - c.loops
  {
    hide Step, PhaseDone, Advances, AcceptedIn, SettingsAfter, Terms;
    if c.loops == TIMEOUT_DHCP_LOOPS {
      PhaseBudgetSpent(c);
      d, used := c, 0;
    } else if Advances(c) {
      PhaseEnds(c, xid);
      d, used := Step(c, xid), 1;
    } else {
      StepDecides(c, xid);
      var more;
      d, more := PhaseRun(Step(c, xid), xid);
      PhaseContinues(c, xid, d, more);
      used := if |c.inbox| == 0 then 0 else 1 + more;
    }
  }

  /** The state at the end of the handshake, told from the frames that were waiting: its phase, the
    * frames it leaves, the settings and the addresses in use, and the messages it accepted. */
  ghost predicate Concluded(h: Host, inbox: seq<Rx>, r: Client) {
    && r.inbox == inbox[Spent(inbox)..] && SettingsOf(r.h) == SettingsInUse(SettingsOf(h), inbox)
    && match Decide(inbox)
       case NoOffer => r.phase == Discover && Terms(r.h) == Terms(h) && AcceptedIn(r.log) == []
       case OnlyOffer(offer) =>
         r.phase == OfferReceived && Terms(r.h) == (OfferedIp(offer), ServerOf(offer)) && AcceptedIn(r.log) == [offer]
       case Obtained(offer, ack, _) =>
         r.phase == Bound && Terms(r.h) == (OfferedIp(offer), ServerOf(offer)) && AcceptedIn(r.log) == [offer, ack]
  }

  lemma ConcludedWithoutOffer(h: Host, inbox: seq<Rx>, d: Client, used: nat)
    requires PhaseDone(Start(h, inbox), d, used) && d.phase == Discover
    ensures Concluded(h, inbox, d) && d.loops == TIMEOUT_DHCP_LOOPS
  {
    hide IsReply, OfferedIp, ServerOf, SettingsAfter, FirstReply, AcceptedIn;
    NothingAccepted();
  }

  lemma SettingsOver(s: Settings, inbox: seq<Rx>, used: nat, more: nat)
    requires used <= |inbox| && more <= |inbox| - used
    ensures inbox[used..][more..] == inbox[used + more..]
    ensures SettingsAfter(SettingsAfter(s, inbox[..used]), inbox[used..][..more])
         == SettingsAfter(s, inbox[..used + more])
  {
    hide SettingsAfter;
    SettingsSplit(s, inbox[..used], inbox[used..][..more]);
    assert inbox[..used + more] == inbox[..used] + inbox[used..][..more];
  }

  lemma AfterOffer(c: Client, d: Client, used: nat)
    requires c.phase == Discover && c.loops == 0 && PhaseDone(c, d, used) && d.phase == OfferReceived
    ensures FirstReply(MSG_OFFER, c.inbox, TIMEOUT_DHCP_LOOPS) == Some(used - 1)
    ensures d.loops == used <= |c.inbox| && d.inbox == c.inbox[used..]
    ensures AcceptedIn(d.log) == AcceptedIn(c.log) + [c.inbox[used - 1].bytes]
    ensures SettingsOf(d.h) == SettingsAfter(SettingsOf(c.h), c.inbox[..used])
    ensures Terms(d.h) == (OfferedIp(c.inbox[used - 1].bytes), ServerOf(c.inbox[used - 1].bytes))
    ensures d.h.dhcpServer == ServerOf(c.inbox[used - 1].bytes)
  {
    hide IsReply, OfferedIp, ServerOf, SettingsAfter, FirstReply, AcceptedIn;
  }

  lemma AfterAck(d: Client, e: Client, more: nat)
    requires d.phase == OfferReceived && d.loops <= TIMEOUT_DHCP_LOOPS && PhaseDone(d, e, more)
    ensures more <= |d.inbox| && e.inbox == d.inbox[more..] && Terms(e.h) == Terms(d.h)
    ensures var after, n := SettingsAfter(SettingsOf(d.h), d.inbox[..more]), TIMEOUT_DHCP_LOOPS - d.loops;
      match FirstReply(MSG_ACK, d.inbox, n)
      case None =>
        && e.phase == OfferReceived && more == Min(|d.inbox|, n) && e.loops == TIMEOUT_DHCP_LOOPS
        && SettingsOf(e.h) == after && AcceptedIn(e.log) == AcceptedIn(d.log)
      case Some(j) =>
        && e.phase == Bound && more == j + 1 && AcceptedIn(e.log) == AcceptedIn(d.log) + [d.inbox[j].bytes]
        && SettingsOf(e.h) == WithGateway(after, d.h.dhcpServer)
  {
    hide IsReply, OfferedIp, ServerOf, SettingsAfter, FirstReply, AcceptedIn;
  }

  lemma DecideWithOffer(inbox: seq<Rx>, used: nat)
    requires FirstReply(MSG_OFFER, inbox, TIMEOUT_DHCP_LOOPS) == Some(used - 1)
    ensures var offer := inbox[used - 1].bytes;
      match FirstReply(MSG_ACK, inbox[used..], TIMEOUT_DHCP_LOOPS - used)
      case None => Decide(inbox) == OnlyOffer(offer)
      case Some(j) => Decide(inbox) == Obtained(offer, inbox[used + j].bytes, used + j + 1)
  {
    hide FirstReply, IsReply;
  }

  lemma ConcludedUnanswered(h: Host, inbox: seq<Rx>, r: Client, offer: PageBytes)
    requires Decide(inbox) == OnlyOffer(offer) && r.phase == OfferReceived
    requires Terms(r.h) == (OfferedIp(offer), ServerOf(offer)) && AcceptedIn(r.log) == [offer]
    requires var n := Min(|inbox|, TIMEOUT_DHCP_LOOPS);
      r.inbox == inbox[n..] && SettingsOf(r.h) == SettingsAfter(SettingsOf(h), inbox[..n])
    ensures Concluded(h, inbox, r)
  {
    hide Decide, OfferedIp, ServerOf, SettingsAfter, AcceptedIn;
  }

  lemma ConcludedBound(h: Host, inbox: seq<Rx>, r: Client, offer: PageBytes, ack: PageBytes, used: nat)
    requires Decide(inbox) == Obtained(offer, ack, used) && r.phase == Bound
    requires Terms(r.h) == (OfferedIp(offer), ServerOf(offer)) && AcceptedIn(r.log) == [offer, ack]
    requires r.inbox == inbox[used..]
    requires SettingsOf(r.h) == WithGateway(SettingsAfter(SettingsOf(h), inbox[..used]), ServerOf(offer))
    ensures Concluded(h, inbox, r)
  {
    hide Decide, OfferedIp, ServerOf, SettingsAfter, AcceptedIn;
  }

  lemma BudgetBehind(inbox: seq<Rx>, used: nat)
    requires used <= |inbox| && used <= TIMEOUT_DHCP_LOOPS
    ensures used + Min(|inbox[used..]|, TIMEOUT_DHCP_LOOPS - used) == Min(|inbox|, TIMEOUT_DHCP_LOOPS)
  {
  }

  lemma ConcludedWithOffer(c: Client, d: Client, used: nat, e: Client, more: nat)
    requires c.phase == Discover && c.loops == 0 && AcceptedIn(c.log) == []
    requires PhaseDone(c, d, used) && d.phase == OfferReceived && d.loops <= TIMEOUT_DHCP_LOOPS
    requires PhaseDone(d, e, more)
    ensures Concluded(c.h, c.inbox, e) && (e.phase == Bound || e.loops == TIMEOUT_DHCP_LOOPS)
  {
    hide *;
    var inbox := c.inbox;
    AfterOffer(c, d, used);
    AfterAck(d, e, more);
    DecideWithOffer(inbox, used);
    SettingsOver(SettingsOf(c.h), inbox, used, more);
    var offer := inbox[used - 1].bytes;
    if e.phase == Bound {
      ConcludedBound(c.h, inbox, e, offer, inbox[used + more - 1].bytes, used + more);
    } else {
      BudgetBehind(inbox, used);
      ConcludedUnanswered(c.h, inbox, e, offer);
    }
  }

  lemma PhaseStays(c: Client, d: Client, used: nat)
    requires c.phase == Discover && c.loops <= TIMEOUT_DHCP_LOOPS && PhaseDone(c, d, used)
    ensures d.phase == Discover || d.phase == OfferReceived
    ensures d.loops <= TIMEOUT_DHCP_LOOPS
  {
    hide IsReply, OfferedIp, ServerOf, SettingsAfter, AcceptedIn;
  }

  lemma HandshakeOutcome(h: Host, inbox: seq<Rx>, xid: u32)
    ensures Concluded(h, inbox, DhcpRun(Start(h, inbox), xid))
  {
    hide Step, DhcpRun, PhaseDone, Concluded;
    var c := Start(h, inbox);
    var d, used := PhaseRun(c, xid);
    PhaseStays(c, d, used);
    if d.phase == OfferReceived {
      var e, more := PhaseRun(d, xid);
      NothingAccepted();
      ConcludedWithOffer(Start(h, inbox), d, used, e, more);
      Settled(e, xid);
    } else {
      ConcludedWithoutOffer(h, inbox, d, used);
      Settled(d, xid);
    }
  }

  lemma NothingAccepted()
    ensures AcceptedIn([]) == []
  {
  }

  lemma Settled(c: Client, xid: u32)
    requires c.phase == Bound || c.loops >= TIMEOUT_DHCP_LOOPS
    ensures DhcpRun(c, xid) == c
  {
  }

  // ---------- the shape of a trace ----------

  function Repeat(e: Event, n: nat): (r: seq<Event>)
    ensures |r| == n
  {
    seq(n, _ => e)
  }

  function Discovery(mac: Mac, xid: u32): Event {
    Sent(MSG_DISCOVER, DhcpFrame(MSG_DISCOVER, xid, mac, 0, 0))
  }

  function RequestFor(offer: PageBytes, mac: Mac, xid: u32): Event {
    Sent(MSG_REQUEST, DhcpFrame(MSG_REQUEST, xid, mac, OfferedIp(offer), ServerOf(offer)))
  }

  /** `n` DISCOVERs, an accepted offer, `m` REQUESTs for exactly what it offered. */
  function UpToRequests(mac: Mac, xid: u32, n: nat, offer: PageBytes, m: nat): seq<Event> {
    Repeat(Discovery(mac, xid), n) + [Accepted(offer)] + Repeat(RequestFor(offer, mac, xid), m)
  }

  /** What holds between iterations, with the numbers of DISCOVERs and REQUESTs sent so far. */
  ghost predicate Shaped(c: Client, xid: u32, n: nat, offer: PageBytes, m: nat, ack: PageBytes) {
    && n + m <= 101
    && TIMEOUT_RETRANSMIT * (n + m) <= c.loops + c.timeout + (if c.phase == Discover then 0 else TIMEOUT_RETRANSMIT)
    && c.timeout <= TIMEOUT_RETRANSMIT
    && match c.phase
       case Discover => c.log == Repeat(Discovery(c.h.mac, xid), n) && m == 0 && (c.timeout > 0 ==> n > 0)
       case OfferReceived =>
         && n > 0 && IsReply(offer, MSG_OFFER) && Leased(c, offer)
         && c.log == UpToRequests(c.h.mac, xid, n, offer, m) && (c.timeout > 0 ==> m > 0)
       case Bound =>
         && n > 0 && m > 0 && IsReply(offer, MSG_OFFER) && IsReply(ack, MSG_ACK) && Leased(c, offer)
         && c.log == UpToRequests(c.h.mac, xid, n, offer, m) + [Accepted(ack)]
  }

  /** The address and server in use are those of the offer. */
  predicate Leased(c: Client, offer: PageBytes) {
    c.h.ip == OfferedIp(offer) && c.h.dhcpServer == ServerOf(offer)
  }

  lemma DiscoverIgnoresAddresses(xid: u32, mac: Mac, ip: u32, server: u32)
    ensures DhcpFrame(MSG_DISCOVER, xid, mac, ip, server) == DhcpFrame(MSG_DISCOVER, xid, mac, 0, 0)
  {
  }

  lemma RepeatMore(e: Event, n: nat)
    ensures Repeat(e, n) + [e] == Repeat(e, n + 1)
  {
  }

  lemma SendShaped(c: Client, xid: u32, n: nat, offer: PageBytes, m: nat, ack: PageBytes)
    requires Shaped(c, xid, n, offer, m, ack) && c.phase != Bound && c.timeout == 0 && c.loops < TIMEOUT_DHCP_LOOPS
    ensures c.phase == Discover ==> Shaped(SendDhcp(c, xid), xid, n + 1, offer, m, ack)
    ensures c.phase == OfferReceived ==> Shaped(SendDhcp(c, xid), xid, n, offer, m + 1, ack)
  {
    DiscoverIgnoresAddresses(xid, c.h.mac, c.h.ip, c.h.dhcpServer);
    hide DhcpFrame, IsReply, OfferedIp, ServerOf;
    RepeatMore(Discovery(c.h.mac, xid), n);
    RepeatMore(RequestFor(offer, c.h.mac, xid), m);
    if c.phase == OfferReceived {
      var r := RequestFor(offer, c.h.mac, xid);
      assert UpToRequests(c.h.mac, xid, n, offer, m) + [r] == UpToRequests(c.h.mac, xid, n, offer, m + 1);
    }
  }

  /** What a page does to a shaped client that has something on the wire. */
  lemma ReplyShaped(c: Client, b: PageBytes, xid: u32, n: nat, offer: PageBytes, m: nat, ack: PageBytes)
    requires Shaped(c, xid, n, offer, m, ack) && c.phase != Bound && c.timeout > 0
    ensures Shaped(OnReply(c, b), xid, n, if c.phase == Discover then b else offer, m, b)
  {
    AbsorbedType(c.h, b);
    hide DhcpFrame, OfferedIp, ServerOf, Scanned, MsgType, IsDhcp, Repeat;
    assert Repeat(RequestFor(b, c.h.mac, xid), 0) == [];
  }

  lemma StepShaped(c: Client, xid: u32, n: nat, offer: PageBytes, m: nat, ack: PageBytes)
    returns (n': nat, offer': PageBytes, m': nat, ack': PageBytes)
    requires Shaped(c, xid, n, offer, m, ack) && c.phase != Bound && c.loops < TIMEOUT_DHCP_LOOPS
    ensures Shaped(Step(c, xid), xid, n', offer', m', ack')
  {
    hide DhcpFrame, IsReply, Discovery, RequestFor, UpToRequests, OfferedIp, ServerOf;
    n', offer', m', ack' := n, offer, m, ack;
    var d := c;
    if c.timeout == 0 {
      SendShaped(c, xid, n, offer, m, ack);
      d := SendDhcp(c, xid);
      if c.phase == Discover { n' := n + 1; } else { m' := m + 1; }
    }
    match NextRx(d.inbox)
    case Page(b) =>
      ReplyShaped(d.(inbox := Rest(d.inbox), loops := d.loops + 1), b, xid, n', offer', m', ack');
      offer', ack' := if d.phase == Discover then b else offer', b;
    case _ =>
  }

  lemma {:induction false} RunShaped(c: Client, xid: u32, n: nat, offer: PageBytes, m: nat, ack: PageBytes)
    returns (n': nat, offer': PageBytes, m': nat, ack': PageBytes)
    requires Shaped(c, xid, n, offer, m, ack)
    ensures Shaped(DhcpRun(c, xid), xid, n', offer', m', ack')
    decreases TIMEOUT_DHCP_LOOPS - c.loops
  {
    hide Shaped, Step;
    if c.phase == Bound || c.loops >= TIMEOUT_DHCP_LOOPS {
      n', offer', m', ack' := n, offer, m, ack;
    } else {
      n', offer', m', ack' := StepShaped(c, xid, n, offer, m, ack);
      n', offer', m', ack' := RunShaped(Step(c, xid), xid, n', offer', m', ack');
    }
  }

  /** The trace of every run that obtains an address, whatever arrives: one or more DISCOVERs, an
    * accepted offer, one or more REQUESTs each for that offer's address and server, an accepted
    * acknowledgement, and nothing else. The offer is the first among the waiting frames, the
    * acknowledgement the first behind it, and the address in use is the offered one. */
  lemma BoundTrace(h: Host, inbox: seq<Rx>, xid: u32) returns (n: nat, m: nat)
    requires Decide(inbox).Obtained?
    ensures var r, v := DhcpRun(Start(h, inbox), xid), Decide(inbox);
      && n > 0 && m > 0 && n + m <= 101 && r.phase == Bound
      && IsReply(v.offer, MSG_OFFER) && IsReply(v.ack, MSG_ACK)
      && r.log == UpToRequests(r.h.mac, xid, n, v.offer, m) + [Accepted(v.ack)]
      && r.h.ip == OfferedIp(v.offer) && r.h.dhcpServer == ServerOf(v.offer)
  {
    hide Decide, Concluded, DhcpFrame, Repeat, AcceptedIn, OfferedIp, ServerOf, IsReply, DhcpRun;
    var any := Zeros(PAGE_SIZE);
    HandshakeOutcome(h, inbox, xid);
    BoundOutcome(h, inbox, DhcpRun(Start(h, inbox), xid));
    var offer, ack;
    n, offer, m, ack := RunShaped(Start(h, inbox), xid, 0, any, 0, any);
    var r := DhcpRun(Start(h, inbox), xid);
    AcceptedOfShape(r.h.mac, xid, n, offer, m, ack);
    assert [offer, ack][0] == Decide(inbox).offer && [offer, ack][1] == Decide(inbox).ack;
  }

  lemma BoundOutcome(h: Host, inbox: seq<Rx>, r: Client)
    requires Concluded(h, inbox, r) && Decide(inbox).Obtained?
    ensures r.phase == Bound && AcceptedIn(r.log) == [Decide(inbox).offer, Decide(inbox).ack]
    ensures r.h.ip == OfferedIp(Decide(inbox).offer) && r.h.dhcpServer == ServerOf(Decide(inbox).offer)
  {
    hide Decide, AcceptedIn, OfferedIp, ServerOf;
  }

  lemma {:induction false} AcceptedRepeat(log: seq<Event>, e: Event, n: nat)
    requires e.Sent?
    ensures AcceptedIn(log + Repeat(e, n)) == AcceptedIn(log)
  {
    if n == 0 {
      assert log + Repeat(e, 0) == log;
    } else {
      RepeatMore(e, n - 1);
      assert log + Repeat(e, n) == log + Repeat(e, n - 1) + [e];
      AcceptedRepeat(log, e, n - 1);
      AcceptedAppend(log + Repeat(e, n - 1), [e]);
    }
  }

  lemma AcceptedOfShape(mac: Mac, xid: u32, n: nat, offer: PageBytes, m: nat, ack: PageBytes)
    ensures AcceptedIn(UpToRequests(mac, xid, n, offer, m) + [Accepted(ack)]) == [offer, ack]
  {
    hide DhcpFrame, Repeat;
    var d := Discovery(mac, xid);
    AcceptedRepeat([], d, n);
    assert [] + Repeat(d, n) == Repeat(d, n);
    AcceptedAppend(Repeat(d, n), [Accepted(offer)]);
    AcceptedRepeat(Repeat(d, n) + [Accepted(offer)], RequestFor(offer, mac, xid), m);
    AcceptedAppend(UpToRequests(mac, xid, n, offer, m), [Accepted(ack)]);
  }

  /** No run, successful or not, sends more than 101 messages. */
  lemma MessageLimit(h: Host, inbox: seq<Rx>, xid: u32)
    ensures |DhcpRun(Start(h, inbox), xid).h.sent| <= |h.sent| + 101
  {
    var any := Zeros(PAGE_SIZE);
    var n, offer, m, ack := RunShaped(Start(h, inbox), xid, 0, any, 0, any);
    LogIsSent(Start(h, inbox), xid, h.sent);
    var r := DhcpRun(Start(h, inbox), xid);
    SentOfShape(r.h.mac, xid, n, offer, m);
    hide DhcpRun;
    if r.phase == Bound {
      SentAppend(UpToRequests(r.h.mac, xid, n, offer, m), [Accepted(ack)]);
    }
  }

  /** Iterations done and ticks to go are 5000 times the DISCOVERs sent, while nothing arrives. */
  lemma {:induction false} SilentRun(c: Client, xid: u32, n: nat)
    requires c.inbox == [] && c.phase == Discover && c.log == Repeat(Discovery(c.h.mac, xid), n)
    requires c.timeout < TIMEOUT_RETRANSMIT && c.loops <= TIMEOUT_DHCP_LOOPS
    requires c.loops + c.timeout == TIMEOUT_RETRANSMIT * n
    ensures var r := DhcpRun(c, xid); r.phase == Discover && r.log == Repeat(Discovery(c.h.mac, xid), 100)
    decreases TIMEOUT_DHCP_LOOPS - c.loops
  {
    hide DhcpFrame, Repeat;
    if c.loops < TIMEOUT_DHCP_LOOPS {
      DiscoverIgnoresAddresses(xid, c.h.mac, c.h.ip, c.h.dhcpServer);
      RepeatMore(Discovery(c.h.mac, xid), n);
      SilentRun(Step(c, xid), xid, if c.timeout == 0 then n + 1 else n);
    }
  }

  /** On a network where nobody answers, exactly 100 DISCOVERs go out, and the handshake fails. */
  lemma SilentHandshake(h: Host, xid: u32)
    ensures var r := DhcpRun(Start(h, []), xid);
      && r.phase == Discover && r.h.sent == h.sent + SentOf(Repeat(Discovery(h.mac, xid), 100))
      && |r.h.sent| == |h.sent| + 100
  {
    hide DhcpRun, DhcpFrame;
    assert Repeat(Discovery(h.mac, xid), 0) == [];
    SilentRun(Start(h, []), xid, 0);
    LogIsSent(Start(h, []), xid, h.sent);
    SentRepeat([], Discovery(h.mac, xid), 100);
    assert [] + Repeat(Discovery(h.mac, xid), 100) == Repeat(Discovery(h.mac, xid), 100);
  }

  // ---------- the log and the wire ----------

  /** The frames of a log. */
  function SentOf(log: seq<Event>): seq<Bytes> {
    if |log| == 0 then []
    else SentOf(log[..|log| - 1]) + match log[|log| - 1] case Sent(_, f) => [f] case Accepted(_) => []
  }

  lemma SentAppend(log: seq<Event>, e: seq<Event>)
    requires |e| == 1
    ensures SentOf(log + e) == SentOf(log) + match e[0] case Sent(_, f) => [f] case Accepted(_) => []
  {
  }

  lemma {:induction false} SentRepeat(log: seq<Event>, e: Event, n: nat)
    ensures |SentOf(log + Repeat(e, n))| == |SentOf(log)| + if e.Sent? then n else 0
  {
    if n == 0 {
      assert log + Repeat(e, 0) == log;
    } else {
      RepeatMore(e, n - 1);
      assert log + Repeat(e, n) == log + Repeat(e, n - 1) + [e];
      SentRepeat(log, e, n - 1);
      SentAppend(log + Repeat(e, n - 1), [e]);
    }
  }

  lemma SentOfShape(mac: Mac, xid: u32, n: nat, offer: PageBytes, m: nat)
    ensures |SentOf(Repeat(Discovery(mac, xid), n))| == n
    ensures |SentOf(UpToRequests(mac, xid, n, offer, m))| == n + m
  {
    hide DhcpFrame, Repeat;
    var d := Discovery(mac, xid);
    SentRepeat([], d, n);
    assert [] + Repeat(d, n) == Repeat(d, n);
    SentAppend(Repeat(d, n), [Accepted(offer)]);
    SentRepeat(Repeat(d, n) + [Accepted(offer)], RequestFor(offer, mac, xid), m);
  }

  /** The log records exactly the frames put on the wire. */
  lemma {:induction false} LogIsSent(c: Client, xid: u32, before: seq<Bytes>)
    requires c.h.sent == before + SentOf(c.log)
    ensures DhcpRun(c, xid).h.sent == before + SentOf(DhcpRun(c, xid).log)
    decreases TIMEOUT_DHCP_LOOPS - c.loops
  {
    if c.phase != Bound && c.loops < TIMEOUT_DHCP_LOOPS {
      StepLogged(c, xid, before);
      hide Step;
      LogIsSent(Step(c, xid), xid, before);
    }
  }

  lemma StepLogged(c: Client, xid: u32, before: seq<Bytes>)
    requires c.h.sent == before + SentOf(c.log)
    ensures Step(c, xid).h.sent == before + SentOf(Step(c, xid).log)
  {
    hide DhcpFrame, Scanned, IsDhcp, SentOf;
    var d := if c.timeout == 0 then SendDhcp(c, xid) else c;
    var kind := if c.phase == Discover then MSG_DISCOVER else MSG_REQUEST;
    SentAppend(c.log, [Sent(kind, DhcpFrame(kind, xid, c.h.mac, c.h.ip, c.h.dhcpServer))]);
    match NextRx(d.inbox)
    case Page(b) => SentAppend(d.log, [Accepted(b)]);
    case _ =>
  }

  // ---------- what a REQUEST says ----------

  /** On the wire, a REQUEST's option field is message type 3, then option 50 with the address
    * requested, option 54 with the server chosen, and END (RFC 2132 sections 9.1, 9.6 and 9.7). */
  lemma RequestOptionsOnWire(xid: u32, mac: Mac, ip: u32, server: u32)
    ensures At(DhcpFrame(MSG_REQUEST, xid, mac, ip, server), 282,
               OptBytes([Tlv(OPT_MSG_TYPE, [MSG_REQUEST]), Tlv(OPT_REQUESTED_IP, LE32(ip)),
                 Tlv(OPT_SERVER_ID, LE32(server))]) + [OPT_END])
  {
    OptionFieldShape(MSG_REQUEST, ip, server);
    OptionsAt(MSG_REQUEST, xid, mac, ip, server);
  }

  lemma OptionsAt(kind: byte, xid: u32, mac: Mac, ip: u32, server: u32)
    ensures At(DhcpFrame(kind, xid, mac, ip, server), 282, OptionField(kind, ip, server))
  {
  }

  // ---------- the invariant ----------

  /** The handshake keeps the gateway-independent invariant, and it touches neither the ARP state nor
    * the gateway's MAC, although it may change the gateway. */
  lemma {:induction false} DhcpKeeps(c: Client, xid: u32)
    ensures var r := DhcpRun(c, xid).h;
      && (Steady(c.h) ==> Steady(r)) && (AllVerify(r.sent) <==> AllVerify(c.h.sent))
      && r.arp == c.h.arp && r.routerMac == c.h.routerMac
    decreases TIMEOUT_DHCP_LOOPS - c.loops
  {
    if c.phase != Bound && c.loops < TIMEOUT_DHCP_LOOPS {
      StepKeeps(c, xid);
      hide Steady, AllVerify, Step;
      DhcpKeeps(Step(c, xid), xid);
    }
  }

  lemma StepKeeps(c: Client, xid: u32)
    ensures var r := Step(c, xid).h;
      && (Steady(c.h) ==> Steady(r)) && (AllVerify(r.sent) <==> AllVerify(c.h.sent))
      && r.arp == c.h.arp && r.routerMac == c.h.routerMac
  {
    hide AllVerify, AllFormed, Verifies, DhcpFrame, Scanned, IsDhcp, OfferedIp, ServerOf;
    SendKeeps(c, xid);
  }

  lemma SendKeeps(c: Client, xid: u32)
    ensures var sent := SendDhcp(c, xid).h.sent;
      (AllFormed(c.h.sent) ==> AllFormed(sent)) && (AllVerify(sent) <==> AllVerify(c.h.sent))
  {
    hide Verifies, IsRunt, DhcpFrame;
    var kind := if c.phase == Discover then MSG_DISCOVER else MSG_REQUEST;
    var f := DhcpFrame(kind, xid, c.h.mac, c.h.ip, c.h.dhcpServer);
    DhcpVerifies(kind, xid, c.h.mac, c.h.ip, c.h.dhcpServer);
    assert (c.h.sent + [f])[|c.h.sent|] == f;
    assert forall i :: 0 <= i < |c.h.sent| ==> (c.h.sent + [f])[i] == c.h.sent[i];
  }

  // ---------- what is not checked ----------

  /** The message with another transaction id. */
  function WithXid(b: PageBytes, xid: u32): PageBytes {
    Splice(b, Message(b) + 4, BE32(xid))
  }

  /** The transaction id of a reply is not compared with the one sent, although it is meant for
    * matching: replacing it changes neither what is accepted nor what is learned. */
  lemma XidIgnored(c: Client, b: PageBytes, xid: u32)
    ensures var r, s := OnReply(c, b), OnReply(c, WithXid(b, xid));
      r.phase == s.phase && r.h == s.h && r.timeout == s.timeout
  {
    var d := WithXid(b, xid);
    var f := Config(0, c.h.router, c.h.dnsServer, c.h.mask, c.h.lease);
    SameFields(b, xid);
    SameScan(b, xid, f);
    hide WithXid, Message, IsDhcp, OfferedIp, ServerOf, Scanned;
  }

  lemma SameFields(b: PageBytes, xid: u32)
    ensures var d := WithXid(b, xid);
      && Message(d) == Message(b) && (IsDhcp(d) <==> IsDhcp(b)) && d[Message(b)] == b[Message(b)]
      && OfferedIp(d) == OfferedIp(b) && ServerOf(d) == ServerOf(b)
  {
  }

  lemma SameScan(b: PageBytes, xid: u32, c: Config)
    ensures Scanned(WithXid(b, xid), c) == Scanned(b, c)
  {
    hide WithXid, Message, Scan;
    var d, e := WithXid(b, xid), Message(b);
    SameTail(b, xid);
    MessageStart(b);
    ScanSame(b, d, e + 240, e + 240 + MAX_SCAN, c);
  }

  lemma SameTail(b: PageBytes, xid: u32)
    ensures var d, e := WithXid(b, xid), Message(b);
      Message(d) == e && |d| == |b| && forall i :: e + 240 <= i < |b| ==> b[i] == d[i]
  {
    hide IsDhcp, OfferedIp, ServerOf;
    SpliceOutside(b, Message(b) + 4, BE32(xid));
    SameFields(b, xid);
  }

  lemma MessageStart(b: PageBytes)
    ensures Message(b) <= 102
  {
  }

  lemma SpliceOutside(b: Bytes, off: nat, s: Bytes)
    requires off + |s| <= |b|
    ensures forall i :: 0 <= i < |b| && !(off <= i < off + |s|) ==> Splice(b, off, s)[i] == b[i]
  {
  }

  lemma {:induction false} ScanSame(b: Bytes, d: Bytes, p: nat, limit: nat, c: Config)
    requires p <= limit + 256 && limit + 257 <= |b| == |d|
    requires forall i :: p <= i < |b| ==> b[i] == d[i]
    ensures Scan(b, p, limit, c) == Scan(d, p, limit, c)
    decreases limit + 257 - p
  {
    if b[p] != OPT_END && p < limit {
      var next := if b[p] == OPT_PAD then p + 1 else p + b[p + 1] + 2;
      assert OptionAt(b, p) == OptionAt(d, p) by {
        assert b[p] != OPT_PAD ==> b[p + 2..p + 2 + b[p + 1]] == d[p + 2..p + 2 + d[p + 1]];
      }
      ScanSame(b, d, next, limit, Apply(c, OptionAt(b, p)));
    }
  }
}
