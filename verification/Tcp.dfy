/** The TCP session as a state machine on values: what a segment does to it (core.hpp `handle_tcp`),
  * what the API calls do to it (api.hpp), and what every run keeps (RFC 793 section 3.3). */
module Tcp {
  import opened Words

  const FIN: byte := 0x01
  const SYN: byte := 0x02
  const RST: byte := 0x04
  const PSH: byte := 0x08
  const ACK: byte := 0x10

  const EPHEMERAL_PORT_BASE := 0xC000

  datatype Phase = SynSent | Established | FinWait | ClosedDone | Closed

  /** A receive buffer posted by the application, with what has been copied into it. */
  datatype Posted = Posted(max: nat, data: Bytes) {
    function Room(): nat {
      if |data| < max then max - |data| else 0
    }
  }

  datatype Session = Session(localPort: u16, remotePort: u16, remoteIp: u32, seqNo: u32, ack: u32,
                             phase: Phase, rx: Option<Posted>, done: bool)

  datatype Segment = Segment(dstPort: u16, flags: byte, seqNo: u32, ack: u32, payload: Bytes) {
    predicate Has(flag: byte)
      requires flag > 0
    {
      flags / flag % 2 == 1
    }
  }

  datatype Reply = Reply(flags: byte, seqNo: u32, ack: u32)

  predicate Open(p: Phase) {
    p == Established || p == FinWait
  }

  // ---------- segments ----------

  /** Payload goes into the posted buffer as far as it fits; the rest is dropped. */
  function Store(s: Session, payload: Bytes): Session {
    if s.rx.None? then s
    else
      var n := Min(|payload|, s.rx.value.Room());
      if n == 0 then s
      else s.(rx := Some(Posted(s.rx.value.max, s.rx.value.data + payload[..n])), done := true)
  }

  function Acknowledge(s: Session, g: Segment, taken: nat): Session {
    s.(seqNo := g.ack, ack := (g.seqNo + taken) % TWO32)
  }

  predicate Addressed(s: Session, g: Segment) {
    g.dstPort == s.localPort && s.localPort != 0
  }

  function OnSegment(s: Session, g: Segment): (Session, seq<Reply>) {
    if !Addressed(s, g) then (s, [])
    else if g.Has(RST) then (s.(phase := Closed, done := true), [])
    else if s.phase == SynSent then
      if g.Has(SYN) && g.Has(ACK) then
        var t := Acknowledge(s, g, 1).(phase := Established);
        (t, [Reply(ACK, t.seqNo, t.ack)])
      else (s, [])
    else if Open(s.phase) then
      var t := Store(s, g.payload);
      var u := if g.payload == [] then t else Acknowledge(t, g, |g.payload|);
      var acks := if g.payload == [] then [] else [Reply(ACK, u.seqNo, u.ack)];
      if g.Has(FIN) then
        var v := Acknowledge(u, g, |g.payload| + 1).(phase := ClosedDone);
        (v, acks + [Reply(FIN + ACK, v.seqNo, v.ack)])
      else (u, acks)
    else (s, [])
  }

  // ---------- API actions ----------

  datatype Action =
    | Arrive(g: Segment)
    | Connect(ip: u32, port: u16, localPort: u16, isn: u32)
    | Send(len: nat)
    | Post(max: nat)
    | Unpost
    | BeginClose
    | EndClose

  function Act(s: Session, a: Action): Session {
    match a
    case Arrive(g) => OnSegment(s, g).0
    case Connect(ip, port, localPort, isn) =>
      s.(remoteIp := ip, remotePort := port, localPort := localPort, seqNo := isn, ack := 0, phase := SynSent)
    case Send(len) => if s.phase == Established then s.(seqNo := (s.seqNo + len) % TWO32) else s
    case Post(max) => s.(rx := Some(Posted(max, [])), done := false)
    case Unpost => s.(rx := None)
    case BeginClose => if s.phase == Established then s.(phase := FinWait) else s
    case EndClose => s.(localPort := 0, phase := Closed)
  }

  function Run(s: Session, acts: seq<Action>): Session
    decreases |acts|
  {
    if |acts| == 0 then s else Run(Act(s, acts[0]), acts[1..])
  }

  // ---------- invariants of every run ----------

  /** The posted buffer is never overrun, and a session that is not closed has an ephemeral port. */
  predicate Sound(s: Session) {
    && (s.rx.Some? ==> |s.rx.value.data| <= s.rx.value.max)
    && (s.phase != Closed ==> s.localPort >= EPHEMERAL_PORT_BASE)
  }

  predicate PortsEphemeral(acts: seq<Action>) {
    forall i :: 0 <= i < |acts| && acts[i].Connect? ==> acts[i].localPort >= EPHEMERAL_PORT_BASE
  }

  lemma {:induction false} RunKeepsSound(s: Session, acts: seq<Action>)
    requires Sound(s) && PortsEphemeral(acts)
    ensures Sound(Run(s, acts))
    decreases |acts|
  {
    if |acts| > 0 {
      RunKeepsSound(Act(s, acts[0]), acts[1..]);
    }
  }

  function Rank(p: Phase): nat {
    match p
    case SynSent => 0
    case Established => 1
    case FinWait => 2
    case ClosedDone => 3
    case Closed => 4
  }

  predicate NoConnect(acts: seq<Action>) {
    forall i :: 0 <= i < |acts| ==> !acts[i].Connect?
  }

  /** Within one session the phase only moves forward, so a closed session stays closed. */
  lemma {:induction false} PhaseNeverGoesBack(s: Session, acts: seq<Action>)
    requires NoConnect(acts)
    ensures Rank(s.phase) <= Rank(Run(s, acts).phase)
    ensures s.phase == Closed ==> Run(s, acts).phase == Closed
    decreases |acts|
  {
    if |acts| > 0 {
      PhaseNeverGoesBack(Act(s, acts[0]), acts[1..]);
    }
  }

  // ---------- sequence arithmetic over whole runs ----------

  /** The segment changes the sequence state: it carries data or FIN into an open session. */
  predicate Effective(s: Session, a: Action) {
    a.Arrive? && Addressed(s, a.g) && !a.g.Has(RST) && Open(s.phase) && (a.g.payload != [] || a.g.Has(FIN))
  }

  /** Sequence numbers an action consumes on the peer's side and on ours. */
  function Taken(s: Session, a: Action): nat {
    if Effective(s, a) then |a.g.payload| + (if a.g.Has(FIN) then 1 else 0) else 0
  }

  function Given(s: Session, a: Action): nat {
    if a.Send? && s.phase == Established then a.len else 0
  }

  /** The session's numbers are the initial ones plus SYN plus what was sent and handled. */
  predicate Tracks(s: Session, iss: u32, irs: u32, sent: nat, handled: nat) {
    s.seqNo == (iss + 1 + sent) % TWO32 && s.ack == (irs + 1 + handled) % TWO32
  }

  /** The numbers are right at the start and after every action. */
  predicate AlwaysTracks(s: Session, acts: seq<Action>, iss: u32, irs: u32, sent: nat, handled: nat)
    decreases |acts|
  {
    && Tracks(s, iss, irs, sent, handled)
    && (|acts| == 0 ||
        AlwaysTracks(Act(s, acts[0]), acts[1..], iss, irs, sent + Given(s, acts[0]), handled + Taken(s, acts[0])))
  }

  /** Every data or FIN segment starts where the previous one ended and acknowledges everything sent. */
  predicate PeerInOrder(s: Session, acts: seq<Action>, iss: u32, irs: u32, sent: nat, handled: nat)
    decreases |acts|
  {
    |acts| > 0 ==>
    && (Effective(s, acts[0]) ==>
          acts[0].g.seqNo == (irs + 1 + handled) % TWO32 && acts[0].g.ack == (iss + 1 + sent) % TWO32)
    && PeerInOrder(Act(s, acts[0]), acts[1..], iss, irs, sent + Given(s, acts[0]), handled + Taken(s, acts[0]))
  }

  /** While a session lasts, modulo 2^32 and across wrap-around: the sequence number stays "own ISN
    * + 1 + bytes sent" and the acknowledgement number stays "peer ISN + 1 + payload handled", plus
    * one for FIN, if and only if the peer's segments are in order and acknowledge everything. */
  lemma {:induction false} NumbersTrackIffInOrder(s: Session, acts: seq<Action>, iss: u32, irs: u32, sent: nat,
    handled: nat)
    requires NoConnect(acts) && s.phase != SynSent && Tracks(s, iss, irs, sent, handled)
    ensures AlwaysTracks(s, acts, iss, irs, sent, handled) <==> PeerInOrder(s, acts, iss, irs, sent, handled)
    decreases |acts|
  {
    if |acts| > 0 {
      var a := acts[0];
      var t, sent', handled' := Act(s, a), sent + Given(s, a), handled + Taken(s, a);
      StepTracks(s, a, iss, irs, sent, handled);
      if Tracks(t, iss, irs, sent', handled') {
        NumbersTrackIffInOrder(t, acts[1..], iss, irs, sent', handled');
      }
    }
  }

  lemma StepTracks(s: Session, a: Action, iss: u32, irs: u32, sent: nat, handled: nat)
    requires !a.Connect? && s.phase != SynSent && Tracks(s, iss, irs, sent, handled)
    ensures Tracks(Act(s, a), iss, irs, sent + Given(s, a), handled + Taken(s, a)) <==>
      (Effective(s, a) ==> a.g.seqNo == (irs + 1 + handled) % TWO32 && a.g.ack == (iss + 1 + sent) % TWO32)
  {
    if Effective(s, a) {
      SameAdvance(a.g.seqNo, irs + 1 + handled, Taken(s, a));
    } else if a.Send? {
      SameAdvance(s.seqNo, iss + 1 + sent, a.len);
    }
  }

  lemma SameAdvance(x: u32, y: nat, n: nat)
    ensures (x + n) % TWO32 == (y + n) % TWO32 <==> x == y % TWO32
  {
  }

  /** The handshake starts the count: after the SYN+ACK the numbers are right with nothing sent or
    * handled, if and only if the peer acknowledged exactly our SYN. */
  lemma HandshakeStartsCount(s: Session, g: Segment, isn: u32)
    requires s.phase == SynSent && Addressed(s, g) && !g.Has(RST) && g.Has(SYN) && g.Has(ACK)
    ensures var r := OnSegment(s, g);
      && r.0.phase == Established && r.1 == [Reply(ACK, g.ack, (g.seqNo + 1) % TWO32)]
      && (Tracks(r.0, isn, g.seqNo, 0, 0) <==> g.ack == (isn + 1) % TWO32)
  {
  }

  // ---------- totals of a run ----------

  /** Bytes given to the peer, and sequence numbers taken from it, over a run. */
  function GivenIn(s: Session, acts: seq<Action>): nat
    decreases |acts|
  {
    if |acts| == 0 then 0 else Given(s, acts[0]) + GivenIn(Act(s, acts[0]), acts[1..])
  }

  function TakenIn(s: Session, acts: seq<Action>): nat
    decreases |acts|
  {
    if |acts| == 0 then 0 else Taken(s, acts[0]) + TakenIn(Act(s, acts[0]), acts[1..])
  }

  /** The numbers at the end of a run with an in-order peer. */
  lemma {:induction false} FinalNumbers(s: Session, acts: seq<Action>, iss: u32, irs: u32, sent: nat, handled: nat)
    requires NoConnect(acts) && s.phase != SynSent && Tracks(s, iss, irs, sent, handled)
    requires PeerInOrder(s, acts, iss, irs, sent, handled)
    ensures Tracks(Run(s, acts), iss, irs, sent + GivenIn(s, acts), handled + TakenIn(s, acts))
    decreases |acts|
  {
    if |acts| > 0 {
      var a := acts[0];
      StepTracks(s, a, iss, irs, sent, handled);
      FinalNumbers(Act(s, a), acts[1..], iss, irs, sent + Given(s, a), handled + Taken(s, a));
    }
  }

  /** The lengths of the sends of a run. */
  function Sends(acts: seq<Action>): seq<nat> {
    if |acts| == 0 then [] else (if acts[0].Send? then [acts[0].len] else []) + Sends(acts[1..])
  }

  function Sum(ns: seq<nat>): nat {
    if |ns| == 0 then 0 else ns[0] + Sum(ns[1..])
  }

  /** The segments of a run, as actions. */
  function Arrived(acts: seq<Action>): seq<Action> {
    if |acts| == 0 then [] else (if acts[0].Arrive? then [acts[0]] else []) + Arrived(acts[1..])
  }

  /** Payload bytes of the segments of a run that are for `port` and no resets. */
  function PayloadIn(port: u16, acts: seq<Action>): nat {
    if |acts| == 0 then 0
    else
      (if acts[0].Arrive? && acts[0].g.dstPort == port && !acts[0].g.Has(RST) then |acts[0].g.payload| else 0) +
      PayloadIn(port, acts[1..])
  }

  /** While the session stays established, everything handed to `tcp_send` is given to the peer. */
  lemma {:induction false} EstablishedGives(s: Session, acts: seq<Action>)
    requires NoConnect(acts) && s.phase == Established && Run(s, acts).phase == Established
    ensures GivenIn(s, acts) == Sum(Sends(acts))
    decreases |acts|
  {
    if |acts| > 0 {
      PhaseNeverGoesBack(s, acts[..1]);
      PhaseNeverGoesBack(Act(s, acts[0]), acts[1..]);
      assert Run(s, acts[..1]) == Act(s, acts[0]);
      EstablishedGives(Act(s, acts[0]), acts[1..]);
      if acts[0].Send? {
        assert Sends(acts)[1..] == Sends(acts[1..]);
      } else {
        assert Sends(acts) == Sends(acts[1..]);
      }
    }
  }

  /** While the session stays open, exactly the payload that arrives for its port is taken. */
  lemma {:induction false} OpenTakes(s: Session, acts: seq<Action>)
    requires NoConnect(acts) && s.localPort != 0 && Open(s.phase) && Open(Run(s, acts).phase)
    ensures TakenIn(s, acts) == PayloadIn(s.localPort, acts)
    decreases |acts|
  {
    if |acts| > 0 {
      var t := Act(s, acts[0]);
      PhaseNeverGoesBack(t, acts[1..]);
      StepStaysOpen(s, acts[0]);
      OpenTakes(t, acts[1..]);
    }
  }

  lemma StepStaysOpen(s: Session, a: Action)
    requires !a.Connect? && s.localPort != 0 && Open(s.phase) && Rank(Act(s, a).phase) <= 2
    ensures Open(Act(s, a).phase) && Act(s, a).localPort == s.localPort
    ensures a.Arrive? && a.g.dstPort == s.localPort ==> !a.g.Has(RST) && !a.g.Has(FIN)
  {
  }

  lemma {:induction false} RunAppend(s: Session, a: seq<Action>, b: seq<Action>)
    ensures Run(s, a + b) == Run(Run(s, a), b)
    decreases |a|
  {
    hide Act;
    if |a| == 0 {
      assert a + b == b;
    } else {
      assert (a + b)[1..] == a[1..] + b;
      RunAppend(Act(s, a[0]), a[1..], b);
    }
  }

  lemma {:induction false} SendsAppend(a: seq<Action>, b: seq<Action>)
    ensures Sends(a + b) == Sends(a) + Sends(b)
  {
    if |a| == 0 {
      assert a + b == b;
    } else {
      assert (a + b)[1..] == a[1..] + b;
      SendsAppend(a[1..], b);
      var first := if a[0].Send? then [a[0].len] else [];
      assert first + (Sends(a[1..]) + Sends(b)) == (first + Sends(a[1..])) + Sends(b);
    }
  }

  lemma {:induction false} ArrivedAppend(a: seq<Action>, b: seq<Action>)
    ensures Arrived(a + b) == Arrived(a) + Arrived(b)
  {
    if |a| == 0 {
      assert a + b == b;
    } else {
      assert (a + b)[1..] == a[1..] + b;
      ArrivedAppend(a[1..], b);
      var first := if a[0].Arrive? then [a[0]] else [];
      assert first + (Arrived(a[1..]) + Arrived(b)) == (first + Arrived(a[1..])) + Arrived(b);
    }
  }

  // ---------- what is acknowledged ----------

  function RepliesTo(s: Session, a: Action): seq<Reply> {
    match a case Arrive(g) => OnSegment(s, g).1 case _ => []
  }

  /** Everything the session answers over a run. */
  function RunReplies(s: Session, acts: seq<Action>): seq<Reply>
    decreases |acts|
  {
    if |acts| == 0 then [] else RepliesTo(s, acts[0]) + RunReplies(Act(s, acts[0]), acts[1..])
  }

  /** Over any run of an open session with an in-order peer, the last acknowledgement sent covers
    * every payload byte and FIN received, and nothing is sent when nothing was received. */
  lemma {:induction false} AcknowledgesEverything(s: Session, acts: seq<Action>, iss: u32, irs: u32, sent: nat,
    handled: nat)
    requires NoConnect(acts) && s.phase != SynSent && Tracks(s, iss, irs, sent, handled)
    requires PeerInOrder(s, acts, iss, irs, sent, handled)
    ensures var replies, n := RunReplies(s, acts), TakenIn(s, acts);
      if n == 0 then replies == []
      else replies != [] && replies[|replies| - 1].ack == (irs + 1 + handled + n) % TWO32
    decreases |acts|
  {
    hide Act, RepliesTo, Taken, Given, Effective, Tracks;
    if |acts| > 0 {
      var a := acts[0];
      StepTracks(s, a, iss, irs, sent, handled);
      StepAcknowledges(s, a, irs, handled);
      NoNewHandshake(s, a);
      AcknowledgesEverything(Act(s, a), acts[1..], iss, irs, sent + Given(s, a), handled + Taken(s, a));
    }
  }

  lemma NoNewHandshake(s: Session, a: Action)
    requires !a.Connect? && s.phase != SynSent
    ensures Act(s, a).phase != SynSent
  {
  }

  lemma StepAcknowledges(s: Session, a: Action, irs: u32, handled: nat)
    requires !a.Connect? && s.phase != SynSent && (Effective(s, a) ==> a.g.seqNo == (irs + 1 + handled) % TWO32)
    ensures var replies, n := RepliesTo(s, a), Taken(s, a);
      if n == 0 then replies == []
      else replies != [] && replies[|replies| - 1].ack == (irs + 1 + handled + n) % TWO32
  {
    hide Store, Segment.Has;
    if Effective(s, a) {
      SameAdvance(a.g.seqNo, irs + 1 + handled, Taken(s, a));
    }
  }

  /** Whether data was stored makes no difference: with any other buffers posted, or none, the same
    * segments get the same answers. */
  lemma {:induction false} RepliesIgnoreBuffers(s: Session, t: Session, acts: seq<Action>)
    requires t == s.(rx := t.rx, done := t.done)
    ensures RunReplies(t, acts) == RunReplies(s, acts) && TakenIn(t, acts) == TakenIn(s, acts)
    decreases |acts|
  {
    if |acts| > 0 {
      StepIgnoresBuffers(s, t, acts[0]);
      RepliesIgnoreBuffers(Act(s, acts[0]), Act(t, acts[0]), acts[1..]);
    }
  }

  lemma StepIgnoresBuffers(s: Session, t: Session, a: Action)
    requires t == s.(rx := t.rx, done := t.done)
    ensures RepliesTo(t, a) == RepliesTo(s, a) && Taken(t, a) == Taken(s, a)
    ensures var s', t' := Act(s, a), Act(t, a); t' == s'.(rx := t'.rx, done := t'.done)
  {
    if a.Arrive? { SegmentIgnoresBuffers(s, t, a.g); }
  }

  lemma SegmentIgnoresBuffers(s: Session, t: Session, g: Segment)
    requires t == s.(rx := t.rx, done := t.done)
    ensures OnSegment(t, g).1 == OnSegment(s, g).1
    ensures var s', t' := OnSegment(s, g).0, OnSegment(t, g).0; t' == s'.(rx := t'.rx, done := t'.done)
  {
    StoreOnlyBuffer(s, g.payload);
    StoreOnlyBuffer(t, g.payload);
    hide Segment.Has, Store;
  }

  lemma StoreOnlyBuffer(s: Session, payload: Bytes)
    ensures var t := Store(s, payload); t == s.(rx := t.rx, done := t.done)
  {
  }
}
