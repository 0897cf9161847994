/** DNS names and messages (protocols.hpp, core.hpp; RFC 1035 sections 3.1, 4.1.2 to 4.1.4). */
module Dns {
  import opened Words

  const DOT: byte := 46
  const MAX_LABEL := 63
  const PTR_MASK: byte := 0xC0
  const TYPE_A: u16 := 1
  const CLASS_IN: u16 := 1

  type Label = Bytes

  // ---------- host names ----------

  /** The labels of a host name: the pieces between dots. */
  function Split(host: Bytes): (ls: seq<Label>)
    ensures |ls| > 0
  {
    if host == [] then [[]]
    else
      var rest := Split(host[1..]);
      if host[0] == DOT then [[]] + rest else [[host[0]] + rest[0]] + rest[1..]
  }

  function Join(ls: seq<Label>): Bytes
    requires |ls| > 0
  {
    if |ls| == 1 then ls[0] else ls[0] + [DOT] + Join(ls[1..])
  }

  /** `Split` is the inverse of joining with dots. */
  lemma {:induction false} JoinSplit(host: Bytes)
    ensures Join(Split(host)) == host
  {
    if host != [] {
      JoinSplit(host[1..]);
      var rest := Split(host[1..]);
      assert host == [host[0]] + host[1..];
      if host[0] == DOT {
        assert Split(host)[1..] == rest;
      } else {
        assert Split(host)[1..] == rest[1..];
      }
    }
  }

  lemma {:induction false} NoDotInside(host: Bytes, i: nat)
    requires i < |Split(host)|
    ensures DOT !in Split(host)[i]
  {
    if host != [] {
      var rest := Split(host[1..]);
      if host[0] == DOT {
        if i > 0 { NoDotInside(host[1..], i - 1); }
      } else {
        NoDotInside(host[1..], i);
      }
    }
  }

  /** Labels in wire form, each behind its length byte; a label length wraps like the 8-bit
    * counter the encoder keeps it in. */
  function EncodeLabels(ls: seq<Label>): Bytes {
    if ls == [] then [] else [|ls[0]| % 0x100] + ls[0] + EncodeLabels(ls[1..])
  }

  function QName(host: Bytes): Bytes {
    EncodeLabels(Split(host)) + [0]
  }

  /** Every label has between `lo` and `hi` bytes. */
  predicate Sized(ls: seq<Label>, lo: nat, hi: nat) {
    ls == [] || (lo <= |ls[0]| <= hi && Sized(ls[1..], lo, hi))
  }

  lemma {:induction false} SizedUpTo(ls: seq<Label>, h: nat, hi: nat)
    requires Sized(ls, 1, h) && h <= hi
    ensures Sized(ls, 1, hi)
  {
    if ls != [] { SizedUpTo(ls[1..], h, hi); }
  }

  /** A name decoder written from RFC 1035 section 3.1: labels of at most 63 bytes up to the first
    * zero length; the two high bits of a length byte are reserved. */
  function Decode(b: Bytes, p: nat): Option<seq<Label>>
    decreases |b| - p
  {
    if p >= |b| then None
    else if b[p] == 0 then Some([])
    else if b[p] > MAX_LABEL || p + 1 + b[p] > |b| then None
    else
      match Decode(b, p + 1 + b[p])
      case None => None
      case Some(ls) => Some([b[p + 1..p + 1 + b[p]]] + ls)
  }

  lemma {:induction false} EncodedLength(ls: seq<Label>)
    requires |ls| > 0
    ensures |EncodeLabels(ls)| == |Join(ls)| + 1
  {
    if |ls| > 1 { EncodedLength(ls[1..]); }
  }

  /** The encoder writes two bytes more than the host name has. */
  lemma QNameLength(host: Bytes)
    ensures |QName(host)| == |host| + 2
  {
    JoinSplit(host);
    EncodedLength(Split(host));
  }

  lemma {:induction false} EncodeAppend(ls: seq<Label>, l: Label)
    ensures EncodeLabels(ls + [l]) == EncodeLabels(ls) + [|l| % 0x100] + l
  {
    if ls == [] {
      assert [l][1..] == [];
    } else {
      assert (ls + [l])[1..] == ls[1..] + [l];
      EncodeAppend(ls[1..], l);
    }
  }

  /** Name round trip, with its exact condition: decoding the encoded host name gives back its
    * labels if and only if every label has between 1 and 63 bytes. */
  lemma NameRoundTrip(host: Bytes, b: Bytes, p: nat)
    requires At(b, p, QName(host))
    ensures Decode(b, p) == Some(Split(host)) <==> Sized(Split(host), 1, MAX_LABEL)
  {
    LabelsRoundTrip(Split(host), b, p);
  }

  lemma {:induction false} LabelsRoundTrip(ls: seq<Label>, b: Bytes, p: nat)
    requires At(b, p, EncodeLabels(ls) + [0])
    ensures Decode(b, p) == Some(ls) <==> Sized(ls, 1, MAX_LABEL)
  {
    if ls == [] {
      assert EncodeLabels(ls) + [0] == [0];
      AtWord(b, p, [0], 0);
    } else {
      FirstLabel(ls, [0], b, p);
      LabelsRoundTrip(ls[1..], b, p + 1 + |ls[0]|);
      assert ls == [ls[0]] + ls[1..];
    }
  }

  /** The first label of an encoded list: its length byte, its text, and the rest behind it. */
  lemma FirstLabel(ls: seq<Label>, tail: Bytes, b: Bytes, p: nat)
    requires ls != [] && At(b, p, EncodeLabels(ls) + tail)
    ensures p + 1 + |ls[0]| <= |b|
    ensures b[p] == |ls[0]| % 0x100 && b[p + 1..p + 1 + |ls[0]|] == ls[0]
    ensures At(b, p + 1 + |ls[0]|, EncodeLabels(ls[1..]) + tail)
  {
    hide *;
    EncodeFirst(ls, tail);
    LabelParts([|ls[0]| % 0x100], ls[0], EncodeLabels(ls[1..]) + tail, b, p);
  }

  lemma {:induction false} EncodeFirst(ls: seq<Label>, tail: Bytes)
    requires ls != []
    ensures EncodeLabels(ls) + tail == [|ls[0]| % 0x100] + (ls[0] + (EncodeLabels(ls[1..]) + tail))
  {
  }

  lemma LabelParts(n: Bytes, text: Label, rest: Bytes, b: Bytes, p: nat)
    requires |n| == 1 && At(b, p, n + (text + rest))
    ensures p + 1 + |text| <= |b| && b[p] == n[0] && b[p + 1..p + 1 + |text|] == text
    ensures At(b, p + 1 + |text|, rest)
  {
    AtSplit(b, p, n, text + rest);
    AtSplit(b, p + 1, text, rest);
    AtSlice(b, p + 1, text);
  }

  // ---------- the encoder ----------

  /** The label under construction joined to the labels still to come. */
  ghost function Pending(current: Label, rest: seq<Label>): seq<Label>
    requires |rest| > 0
  {
    [current + rest[0]] + rest[1..]
  }

  /** One character moves the split between finished, current and pending labels. */
  lemma PendingStep(finished: seq<Label>, current: Label, host: Bytes, i: nat)
    requires i < |host|
    ensures finished + Pending(current, Split(host[i..])) ==
      if host[i] == DOT then finished + [current] + Pending([], Split(host[i + 1..]))
      else finished + Pending(current + [host[i]], Split(host[i + 1..]))
  {
    assert host[i..][1..] == host[i + 1..];
    var all, rest := Split(host[i..]), Split(host[i + 1..]);
    if host[i] == DOT {
      assert current + [] == current && Pending(current, all) == [current] + rest;
      assert [] + rest[0] == rest[0] && Pending([], rest) == rest;
    } else {
      assert current + ([host[i]] + rest[0]) == current + [host[i]] + rest[0];
      assert all[1..] == rest[1..];
    }
  }

  /** What the encoder has written when `i` characters are done: the finished labels in wire form
    * behind `before`, a reserved length byte, and the text of the label under construction. */
  ghost predicate Encoding(b: Bytes, host: Bytes, i: nat, finished: seq<Label>, current: Label, before: Bytes,
    after: Bytes)
    requires i <= |host|
  {
    && finished + Pending(current, Split(host[i..])) == Split(host)
    && |EncodeLabels(finished)| + |current| == i
    && |before| + |host| + 2 + |after| == |b| && b[|before| + |host| + 2..] == after
    && b[..|before| + i - |current|] == before + EncodeLabels(finished)
    && b[|before| + i + 1 - |current|..|before| + i + 1] == current
  }

  lemma EncodingStart(b: Bytes, host: Bytes, before: Bytes, after: Bytes)
    requires |before| + |host| + 2 + |after| == |b| && before <= b && b[|before| + |host| + 2..] == after
    ensures Encoding(b, host, 0, [], [], before, after)
  {
    assert host[0..] == host && [] + Split(host)[0] == Split(host)[0];
  }

  lemma EncodingDot(b: Bytes, host: Bytes, i: nat, finished: seq<Label>, current: Label, before: Bytes,
    after: Bytes)
    requires i < |host| && host[i] == DOT && Encoding(b, host, i, finished, current, before, after)
    ensures var c := b[|before| + i - |current| := |current| % 0x100];
      Encoding(c, host, i + 1, finished + [current], [], before, after)
  {
    PendingStep(finished, current, host, i);
    PatchLabel(b, finished, current, before, |before| + i - |current|);
  }

  lemma EncodingChar(b: Bytes, host: Bytes, i: nat, finished: seq<Label>, current: Label, before: Bytes,
    after: Bytes)
    requires i < |host| && host[i] != DOT && Encoding(b, host, i, finished, current, before, after)
    ensures var c := b[|before| + i + 1 := host[i]];
      Encoding(c, host, i + 1, finished, current + [host[i]], before, after)
  {
    PendingStep(finished, current, host, i);
    hide Split, Pending, EncodeLabels;
    var c, n := b[|before| + i + 1 := host[i]], |before| + i + 1;
    assert c[n - |current|..n] == b[n - |current|..n];
    assert c[n - |current|..n + 1] == c[n - |current|..n] + [host[i]];
  }

  lemma EncodingEnd(b: Bytes, host: Bytes, finished: seq<Label>, current: Label, before: Bytes, after: Bytes)
    requires Encoding(b, host, |host|, finished, current, before, after)
    ensures var c := b[|before| + |host| - |current| := |current| % 0x100][|before| + |host| + 1 := 0];
      c == before + QName(host) + after
  {
    assert host[|host|..] == [] && current + [] == current;
    assert Split(host) == finished + [current];
    hide Split, Pending, EncodeLabels;
    var k := |before| + |host| - |current|;
    PatchLabel(b, finished, current, before, k);
    PatchEnd(b[k := |current| % 0x100], |before| + |host| + 1, before + EncodeLabels(Split(host)), after);
  }

  lemma PatchEnd(b: Bytes, n: nat, done: Bytes, after: Bytes)
    requires n < |b| && b[..n] == done && b[n + 1..] == after
    ensures b[n := 0] == done + [0] + after
  {
    assert b == b[..n] + [b[n]] + b[n + 1..];
  }

  lemma CountStep(current: Label, c: byte)
    ensures |current + [c]| % 0x100 == (|current| % 0x100 + 1) % 0x100
  {
  }

  /** Patching the length byte completes the encoding of the label behind it. */
  lemma PatchLabel(b: Bytes, finished: seq<Label>, current: Label, before: Bytes, at: nat)
    requires at + 1 + |current| <= |b|
    requires b[..at] == before + EncodeLabels(finished) && b[at + 1..at + 1 + |current|] == current
    ensures var c := b[at := |current| % 0x100];
      c[..at + 1 + |current|] == before + EncodeLabels(finished + [current])
  {
    EncodeAppend(finished, current);
    var c := b[at := |current| % 0x100];
    assert c[..at + 1 + |current|] == b[..at] + [c[at]] + b[at + 1..at + 1 + |current|];
  }

  /** The QNAME loop of `protocols::dns_query`: the length byte of a label is reserved first and
    * patched when the label ends; the label length is an 8-bit counter. */
  method EncodeName(pkt: array<byte>, off: nat, host: Bytes) returns (end: nat)
    requires off + |host| + 2 <= pkt.Length
    modifies pkt
    ensures end == off + |host| + 2
    ensures pkt[..] == old(pkt[..off]) + QName(host) + old(pkt[end..])
  {
    hide *;
    ghost var before, after := pkt[..off], pkt[off + |host| + 2..];
    ghost var finished: seq<Label>, current: Label := [], [];
    var lenByte, qname, i := off, off + 1, 0;
    var labelLen: int := 0;
    EncodingStart(pkt[..], host, before, after);
    while i < |host|
      invariant 0 <= i <= |host| && Encoding(pkt[..], host, i, finished, current, before, after)
      invariant qname == off + i + 1 == lenByte + 1 + |current| && lenByte >= off
      invariant labelLen == |current| % 0x100
    {
      if host[i] == DOT {
        EncodingDot(pkt[..], host, i, finished, current, before, after);
        pkt[lenByte] := labelLen;
        lenByte, qname, labelLen := qname, qname + 1, 0;
        finished, current := finished + [current], [];
      } else {
        EncodingChar(pkt[..], host, i, finished, current, before, after);
        CountStep(current, host[i]);
        pkt[qname] := host[i];
        qname, labelLen := qname + 1, (labelLen + 1) % 0x100;
        current := current + [host[i]];
      }
      i := i + 1;
    }
    EncodingEnd(pkt[..], host, finished, current, before, after);
    pkt[lenByte] := labelLen;
    pkt[qname] := 0;
    end := qname + 1;
  }

  // ---------- the walker ----------

  /** Skips labels up to the zero length byte, whose position is returned; None when the walk
    * would read outside `b`. */
  function SkipLabels(b: Bytes, p: nat): (r: Option<nat>)
    decreases |b| - p
    ensures r.Some? ==> p <= r.value < |b|
  {
    if p >= |b| then None
    else if b[p] == 0 then Some(p)
    else SkipLabels(b, p + b[p] + 1)
  }

  /** Skips the name of an answer: a pointer is recognised at its first byte only. */
  function SkipName(b: Bytes, p: nat): Option<nat> {
    if p >= |b| then None
    else if b[p] >= PTR_MASK then Some(p + 2)
    else match SkipLabels(b, p)
      case None => None
      case Some(e) => Some(e + 1)
  }

  function SkipQuestions(b: Bytes, p: nat, n: nat): Option<nat>
    decreases n
  {
    if n == 0 then Some(p)
    else match SkipLabels(b, p)
      case None => None
      case Some(e) => SkipQuestions(b, e + 5, n - 1)
  }

  datatype Scan = OutOfBounds | NoAddress | Address(ip: u32)

  /** The answer walk: the address in the first record of type A and length 4. */
  function FindA(b: Bytes, p: nat, n: nat): Scan
    decreases n
  {
    if n == 0 then NoAddress
    else match SkipName(b, p)
      case None => OutOfBounds
      case Some(e) =>
        if e + 10 > |b| then OutOfBounds
        else if Be16At(b, e) == TYPE_A && Be16At(b, e + 8) == 4 then
          if e + 14 > |b| then OutOfBounds else Address(Le32At(b, e + 10))
        else FindA(b, e + 10 + Be16At(b, e + 8), n - 1)
  }

  function WalkMessage(b: Bytes, p: nat, questions: nat, answers: nat): Scan {
    match SkipQuestions(b, p, questions)
    case None => OutOfBounds
    case Some(e) => FindA(b, e, answers)
  }

  /** The question loop of `handle_udp`, on the received page. */
  method WalkQuestions(page: array<byte>, start: nat, questions: u16) returns (p: nat)
    requires SkipQuestions(page[..], start, questions).Some?
    ensures SkipQuestions(page[..], start, questions) == Some(p)
  {
    ghost var b := page[..];
    p := start;
    var i := 0;
    while i < questions
      invariant 0 <= i <= questions
      invariant SkipQuestions(b, p, questions - i) == SkipQuestions(b, start, questions)
    {
      p := WalkLabels(page, p);
      p := p + 5;
      i := i + 1;
    }
  }

  /** The answer loop of `handle_udp`. */
  method WalkAnswers(page: array<byte>, start: nat, answers: u16) returns (ip: Option<u32>)
    requires FindA(page[..], start, answers) != OutOfBounds
    ensures FindA(page[..], start, answers) == if ip.Some? then Address(ip.value) else NoAddress
  {
    hide SkipName, Le32At;
    ghost var b := page[..];
    var p, i := start, 0;
    while i < answers
      invariant 0 <= i <= answers && p >= 0
      invariant FindA(b, p, answers - i) == FindA(b, start, answers)
    {
      p := WalkName(page, p);
      assert p + 10 <= |b|;
      var rtype := page[p] as int * 0x100 + page[p + 1] as int;
      p := p + 8;
      var rdlen := page[p] as int * 0x100 + page[p + 1] as int;
      p := p + 2;
      if rtype == TYPE_A && rdlen == 4 {
        return Some(Le32At(page[..], p));
      }
      p := p + rdlen;
      i := i + 1;
    }
    ip := None;
  }

  /** The name of an answer, possibly a pointer. */
  method WalkName(page: array<byte>, start: nat) returns (p: nat)
    requires SkipName(page[..], start).Some?
    ensures SkipName(page[..], start) == Some(p)
  {
    if page[start] >= PTR_MASK {
      p := start + 2;
    } else {
      p := WalkLabels(page, start);
      p := p + 1;
    }
  }

  method WalkLabels(page: array<byte>, start: nat) returns (p: nat)
    requires SkipLabels(page[..], start).Some?
    ensures SkipLabels(page[..], start) == Some(p)
  {
    p := start;
    while page[p] != 0
      invariant p < page.Length
      invariant SkipLabels(page[..], p) == SkipLabels(page[..], start)
      decreases page.Length - p
    {
      p := p + page[p] + 1;
    }
  }

  // ---------- names on the wire ----------

  /** A name as RFC 1035 section 4.1.4 allows it: labels, then a zero byte or a pointer. */
  datatype WireName = Ended(labels: seq<Label>) | Pointed(labels: seq<Label>, hi: byte, lo: byte) {
    predicate Valid() {
      Sized(labels, 1, MAX_LABEL) && (Pointed? ==> hi >= PTR_MASK)
    }

    function Tail(): Bytes {
      match this case Ended(_) => [0] case Pointed(_, hi, lo) => [hi, lo]
    }

    function Bytes(): Bytes {
      EncodeLabels(labels) + Tail()
    }

    /** The forms the answer walker handles. */
    predicate Skippable() {
      Ended? || labels == []
    }
  }

  lemma {:induction false} SkipEncoded(ls: seq<Label>, tail: Bytes, b: Bytes, p: nat)
    requires Sized(ls, 1, 0xFF) && At(b, p, EncodeLabels(ls) + tail)
    ensures At(b, p + |EncodeLabels(ls)|, tail)
    ensures SkipLabels(b, p) == SkipLabels(b, p + |EncodeLabels(ls)|)
  {
    hide At;
    if ls == [] {
      assert EncodeLabels(ls) + tail == tail;
    } else {
      FirstLabel(ls, tail, b, p);
      SkipEncoded(ls[1..], tail, b, p + 1 + |ls[0]|);
    }
  }

  /** The answer walker stops exactly behind a valid name if and only if the name ends in a zero
    * byte or is a pointer as a whole; labels followed by a pointer are never skipped correctly. */
  lemma SkipNameExact(name: WireName, b: Bytes, p: nat)
    requires name.Valid() && At(b, p, name.Bytes())
    ensures SkipName(b, p) == Some(p + |name.Bytes()|) <==> name.Skippable()
  {
    var ls, tail := EncodeLabels(name.labels), name.Tail();
    SizedUpTo(name.labels, MAX_LABEL, 0xFF);
    SkipEncoded(name.labels, tail, b, p);
    AtWord(b, p + |ls|, tail, 0);
    if name.labels != [] {
      FirstLabel(name.labels, tail, b, p);
    }
  }

  // ---------- messages ----------

  datatype Question = Question(labels: seq<Label>, qtype: u16, qclass: u16) {
    function Bytes(): Bytes {
      EncodeLabels(labels) + [0] + BE16(qtype) + BE16(qclass)
    }
  }

  datatype Record = Record(name: WireName, rtype: u16, rclass: u16, ttl: u32, rdata: Bytes) {
    predicate Valid() {
      |rdata| < 0x1_0000 && name.Valid() && name.Skippable()
    }

    /** Type, class, TTL and RDLENGTH. */
    function Fixed(): (r: Bytes)
      requires |rdata| < 0x1_0000
      ensures |r| == 10
    {
      BE16(rtype) + BE16(rclass) + BE32(ttl) + BE16(|rdata|)
    }

    function Bytes(): Bytes
      requires |rdata| < 0x1_0000
    {
      name.Bytes() + Fixed() + rdata
    }

    predicate IsAddress() {
      rtype == TYPE_A && |rdata| == 4
    }
  }

  function QuestionBytes(qs: seq<Question>): Bytes {
    if qs == [] then [] else qs[0].Bytes() + QuestionBytes(qs[1..])
  }

  function RecordBytes(rs: seq<Record>): Bytes
    requires forall i :: 0 <= i < |rs| ==> rs[i].Valid()
  {
    if |rs| == 0 then [] else assert rs[0].Valid(); rs[0].Bytes() + RecordBytes(rs[1..])
  }

  /** The address in the first A record of a list of answers. */
  function FirstAddress(rs: seq<Record>): Option<u32> {
    if rs == [] then None
    else if rs[0].IsAddress() then Some(Le32At(rs[0].rdata, 0))
    else FirstAddress(rs[1..])
  }

  /** The question loop stops exactly behind any list of questions. */
  lemma {:induction false} QuestionsSkipped(qs: seq<Question>, b: Bytes, p: nat)
    requires forall i :: 0 <= i < |qs| ==> Sized(qs[i].labels, 1, 0xFF)
    requires At(b, p, QuestionBytes(qs))
    ensures SkipQuestions(b, p, |qs|) == Some(p + |QuestionBytes(qs)|)
  {
    hide At;
    if qs != [] {
      AtSplit(b, p, qs[0].Bytes(), QuestionBytes(qs[1..]));
      OneQuestion(qs[0], b, p);
      QuestionsSkipped(qs[1..], b, p + |qs[0].Bytes()|);
    }
  }

  lemma OneQuestion(q: Question, b: Bytes, p: nat)
    requires Sized(q.labels, 1, 0xFF) && At(b, p, q.Bytes())
    ensures SkipLabels(b, p) == Some(p + |q.Bytes()| - 5)
  {
    var tail := [0] + BE16(q.qtype) + BE16(q.qclass);
    assert q.Bytes() == EncodeLabels(q.labels) + tail;
    SkipEncoded(q.labels, tail, b, p);
    AtWord(b, p + |EncodeLabels(q.labels)|, tail, 0);
  }

  /** What the walker reads at a record that stands at `p`. */
  lemma RecordFields(r: Record, b: Bytes, p: nat)
    requires r.Valid() && At(b, p, r.Bytes())
    ensures SkipName(b, p).Some?
    ensures var e := SkipName(b, p).value;
      && e + 10 + |r.rdata| == p + |r.Bytes()| <= |b|
      && Be16At(b, e) == r.rtype && Be16At(b, e + 8) == |r.rdata|
      && (|r.rdata| == 4 ==> Le32At(b, e + 10) == Le32At(r.rdata, 0))
  {
    var n := r.name.Bytes();
    assert r.Bytes() == n + (r.Fixed() + r.rdata);
    AtSplit(b, p, n, r.Fixed() + r.rdata);
    SkipNameExact(r.name, b, p);
    FixedFields(r, b, p + |n|);
  }

  lemma FixedFields(r: Record, b: Bytes, e: nat)
    requires |r.rdata| < 0x1_0000 && At(b, e, r.Fixed() + r.rdata)
    ensures e + 10 + |r.rdata| <= |b|
    ensures Be16At(b, e) == r.rtype && Be16At(b, e + 8) == |r.rdata|
    ensures |r.rdata| == 4 ==> Le32At(b, e + 10) == Le32At(r.rdata, 0)
  {
    AtSplit(b, e, r.Fixed(), r.rdata);
    AtWord(b, e, r.Fixed(), 0);
    AtWord(b, e, r.Fixed(), 8);
    SwapWord(r.rtype);
    SwapWord(|r.rdata|);
    if |r.rdata| == 4 {
      AtWord(b, e + 10, r.rdata, 0);
    }
  }

  lemma {:induction false} AnswersFound(rs: seq<Record>, b: Bytes, p: nat)
    requires forall i :: 0 <= i < |rs| ==> rs[i].Valid()
    requires At(b, p, RecordBytes(rs))
    ensures FindA(b, p, |rs|) == match FirstAddress(rs) case Some(ip) => Address(ip) case None => NoAddress
  {
    hide At, SkipName, Be16At, Record.Bytes, WireName.Valid;
    if rs != [] {
      AtSplit(b, p, rs[0].Bytes(), RecordBytes(rs[1..]));
      RecordFields(rs[0], b, p);
      if !rs[0].IsAddress() {
        AnswersFound(rs[1..], b, p + |rs[0].Bytes()|);
      }
    }
  }

  /** Parsing is correct against the serialiser: walking the question and answer sections of any
    * message finds the first A record of its answers, and nothing if there is none. */
  lemma {:induction false} MessageWalked(qs: seq<Question>, rs: seq<Record>, b: Bytes, p: nat)
    requires forall i :: 0 <= i < |qs| ==> Sized(qs[i].labels, 1, 0xFF)
    requires forall i :: 0 <= i < |rs| ==> rs[i].Valid()
    requires At(b, p, QuestionBytes(qs) + RecordBytes(rs))
    ensures WalkMessage(b, p, |qs|, |rs|) == match FirstAddress(rs) case Some(ip) => Address(ip) case None => NoAddress
  {
    var e := p + |QuestionBytes(qs)|;
    assert At(b, p, QuestionBytes(qs)) && At(b, e, RecordBytes(rs)) by {
      AtSplit(b, p, QuestionBytes(qs), RecordBytes(rs));
    }
    assert SkipQuestions(b, p, |qs|) == Some(e) by { QuestionsSkipped(qs, b, p); }
    AnswersFound(rs, b, e);
  }

  /** The skip stops at the zero byte that ends a list of labels, if and only if none is empty. */
  lemma {:induction false} LabelsSkippedIff(ls: seq<Label>, tail: Bytes, b: Bytes, p: nat)
    requires Sized(ls, 0, 0xFF) && At(b, p, EncodeLabels(ls) + ([0] + tail))
    ensures SkipLabels(b, p) == Some(p + |EncodeLabels(ls)|) <==> Sized(ls, 1, 0xFF)
  {
    if ls == [] {
      assert EncodeLabels(ls) + ([0] + tail) == [0] + tail;
      AtWord(b, p, [0] + tail, 0);
    } else {
      FirstLabel(ls, [0] + tail, b, p);
      if ls[0] != [] {
        LabelsSkippedIff(ls[1..], tail, b, p + 1 + |ls[0]|);
      }
    }
  }

  /** The question the encoder writes for a host name whose labels fit their length byte is skipped
    * exactly, if and only if no label is empty. */
  lemma {:induction false} QuerySkipped(host: Bytes, tail: Bytes, b: Bytes, p: nat)
    requires At(b, p, QName(host) + tail)
    ensures Sized(Split(host), 0, 0xFF) ==>
      (SkipQuestions(b, p, 1) == Some(p + |host| + 6) <==> Sized(Split(host), 1, 0xFF))
  {
    assert QName(host) == EncodeLabels(Split(host)) + [0];
    hide *;
    EncodeRoot(Split(host), tail);
    QNameLength(host);
    SkipOne(b, p);
    if Sized(Split(host), 0, 0xFF) {
      LabelsSkippedIff(Split(host), tail, b, p);
    }
  }

  lemma {:induction false} OneLabel(host: Bytes)
    requires DOT !in host
    ensures Split(host) == [host]
  {
    if host != [] {
      OneLabel(host[1..]);
      assert [host[0]] + host[1..] == host && [host[1..]][1..] == [];
    }
  }

  /** Labels of more than 255 bytes go either way, because their length byte has wrapped: one of 256
    * bytes is taken for an empty one, while one of 257 can be skipped by chance. */
  lemma OverlongLabels()
    ensures var host: Bytes := seq(256, _ => 63);
      !Sized(Split(host), 0, 0xFF) && SkipQuestions(QName(host), 0, 1) != Some(|host| + 6)
    ensures var host: Bytes := seq(257, _ => 63);
      !Sized(Split(host), 0, 0xFF) && SkipQuestions(QName(host), 0, 1) == Some(|host| + 6)
  {
    var short: Bytes, long: Bytes := seq(256, _ => 63), seq(257, _ => 63);
    OneLabel(short);
    OneLabel(long);
    var s, l := QName(short), QName(long);
    assert [short][1..] == [] && [long][1..] == [];
    assert EncodeLabels([short]) == [0] + short + [] && EncodeLabels([long]) == [1] + long + [];
    assert s == [0] + short + [0] && l == [1] + long + [0];
    assert SkipLabels(s, 0) == Some(0);
    assert SkipLabels(l, 0) == SkipLabels(l, 2) == SkipLabels(l, 66) == SkipLabels(l, 130) == SkipLabels(l, 194);
    assert SkipLabels(l, 194) == SkipLabels(l, 258) == Some(258);
  }

  lemma EncodeRoot(ls: seq<Label>, tail: Bytes)
    ensures EncodeLabels(ls) + [0] + tail == EncodeLabels(ls) + ([0] + tail)
  {
  }

  lemma SkipOne(b: Bytes, p: nat)
    ensures SkipQuestions(b, p, 1) == match SkipLabels(b, p) case None => None case Some(e) => Some(e + 5)
  {
  }
}
