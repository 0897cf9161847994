/** The DHCP option field: the writer of `protocols::send_dhcp` and the scanner of
  * `api::init_network` (RFC 2132 sections 3.1 to 3.8, 9.2, 9.6). */
module DhcpOptions {
  import opened Words

  const OPT_PAD: byte := 0
  const OPT_SUBNET_MASK: byte := 1
  const OPT_ROUTER: byte := 3
  const OPT_DNS: byte := 6
  const OPT_REQUESTED_IP: byte := 50
  const OPT_LEASE_TIME: byte := 51
  const OPT_MSG_TYPE: byte := 53
  const OPT_SERVER_ID: byte := 54
  const OPT_PARAM_LIST: byte := 55
  const OPT_END: byte := 255

  const MSG_DISCOVER: byte := 1
  const MSG_OFFER: byte := 2
  const MSG_REQUEST: byte := 3
  const MSG_ACK: byte := 5

  const MAX_SCAN := 250

  /** What a scan collects: the message type and the four settings kept as global state. */
  datatype Config = Config(msgType: byte, router: u32, dns: u32, mask: u32, lease: u32)

  // ---------- option lists ----------

  datatype Opt = Pad | Tlv(code: byte, data: Bytes) {
    predicate Valid() {
      Tlv? ==> code != OPT_PAD && code != OPT_END && |data| <= 0xFF
    }

    function Bytes(): (r: Bytes)
      requires Valid()
      ensures |r| > 0
    {
      match this
      case Pad => [OPT_PAD]
      case Tlv(code, data) => [code, |data|] + data
    }
  }

  predicate AllValid(opts: seq<Opt>) {
    forall i :: 0 <= i < |opts| ==> opts[i].Valid()
  }

  function OptBytes(opts: seq<Opt>): Bytes
    requires AllValid(opts)
  {
    if |opts| == 0 then [] else opts[0].Bytes() + OptBytes(opts[1..])
  }

  /** The meaning of one option: a tracked option counts when its value is long enough. */
  function Apply(c: Config, opt: Opt): Config {
    match opt
    case Pad => c
    case Tlv(code, data) =>
      if code == OPT_MSG_TYPE && |data| >= 1 then c.(msgType := data[0])
      else if |data| < 4 then c
      else if code == OPT_ROUTER then c.(router := Le32At(data, 0))
      else if code == OPT_DNS then c.(dns := Le32At(data, 0))
      else if code == OPT_SUBNET_MASK then c.(mask := Le32At(data, 0))
      else if code == OPT_LEASE_TIME then c.(lease := Be32At(data, 0))
      else c
  }

  function Fold(opts: seq<Opt>, c: Config): Config {
    if |opts| == 0 then c else Fold(opts[1..], Apply(c, opts[0]))
  }

  /** The options that start below the scan limit, `room` bytes away. */
  function Reached(opts: seq<Opt>, room: int): (r: seq<Opt>)
    requires AllValid(opts)
    ensures r <= opts
  {
    if |opts| == 0 || room <= 0 then [] else [opts[0]] + Reached(opts[1..], room - |opts[0].Bytes()|)
  }

  /** The value of the last option `code` with at least `need` bytes. */
  function Last(opts: seq<Opt>, code: byte, need: nat): Option<Bytes> {
    if |opts| == 0 then None
    else
      var rest := Last(opts[1..], code, need);
      if rest.Some? then rest
      else if opts[0].Tlv? && opts[0].code == code && |opts[0].data| >= need then Some(opts[0].data)
      else None
  }

  /** The fold yields, for each tracked option, its last adequately long value, or the old setting. */
  lemma {:induction false} FoldIsLast(opts: seq<Opt>, c: Config)
    ensures var r := Fold(opts, c);
      && r.msgType == (match Last(opts, OPT_MSG_TYPE, 1)
                       case Some(d) => if |d| > 0 then d[0] else 0
                       case None => c.msgType)
      && r.router == Setting(Last(opts, OPT_ROUTER, 4), c.router)
      && r.dns == Setting(Last(opts, OPT_DNS, 4), c.dns)
      && r.mask == Setting(Last(opts, OPT_SUBNET_MASK, 4), c.mask)
      && r.lease == (match Last(opts, OPT_LEASE_TIME, 4)
                     case Some(d) => if |d| >= 4 then Be32At(d, 0) else 0
                     case None => c.lease)
  {
    if |opts| > 0 {
      FoldIsLast(opts[1..], Apply(c, opts[0]));
    }
  }

  function Setting(d: Option<Bytes>, current: u32): u32 {
    match d case Some(b) => if |b| >= 4 then Le32At(b, 0) else 0 case None => current
  }

  // ---------- the scanner ----------

  datatype ScanEnd = ScanEnd(config: Config, stop: nat)

  /** The option starting at `p`, as the scanner reads it. */
  function OptionAt(b: Bytes, p: nat): Opt
    requires p + 257 <= |b|
  {
    if b[p] == OPT_PAD then Pad else Tlv(b[p], b[p + 2..p + 2 + b[p + 1]])
  }

  /** The scan of the option field from `p`: END or the limit stops it. It is total on any bytes,
    * and although an option can carry the cursor past the limit, it stays within 256 bytes of it. */
  function Scan(b: Bytes, p: nat, limit: nat, c: Config): (r: ScanEnd)
    requires p <= limit + 256 && limit + 257 <= |b|
    ensures p <= r.stop <= limit + 256
    ensures b[r.stop] == OPT_END || r.stop >= limit
    decreases limit + 257 - p
  {
    if b[p] == OPT_END || p >= limit then ScanEnd(c, p)
    else
      var next := if b[p] == OPT_PAD then p + 1 else p + b[p + 1] + 2;
      Scan(b, next, limit, Apply(c, OptionAt(b, p)))
  }

  /** The bound on the cursor is reached. */
  lemma ScanCanOvershoot(b: Bytes, limit: nat, c: Config)
    requires 0 < limit && limit + 257 <= |b|
    requires b[limit - 1] == OPT_ROUTER && b[limit] == 0xFF
    ensures Scan(b, limit - 1, limit, c).stop == limit + 256
  {
  }

  /** The scanning loop, on the whole receive page and for any header length the page can hold. */
  method ScanOptions(page: array<byte>, start: nat, c: Config) returns (r: Config, p: nat)
    requires start + MAX_SCAN + 257 <= page.Length
    ensures ScanEnd(r, p) == Scan(page[..], start, start + MAX_SCAN, c)
  {
    ghost var b := page[..];
    r, p := c, start;
    while page[p] != OPT_END
      invariant p <= start + MAX_SCAN + 256
      invariant Scan(b, p, start + MAX_SCAN, r) == Scan(b, start, start + MAX_SCAN, c)
      decreases start + MAX_SCAN + 257 - p
    {
      if p >= start + MAX_SCAN { break; }
      r := ReadTracked(page, p, r);
      if page[p] == OPT_PAD {
        p := p + 1;
      } else {
        p := p + page[p + 1] + 2;
      }
    }
  }

  method ReadTracked(page: array<byte>, p: nat, c: Config) returns (r: Config)
    requires p + 257 <= page.Length
    ensures r == Apply(c, OptionAt(page[..], p))
  {
    ghost var opt := OptionAt(page[..], p);
    r := c;
    if page[p] == OPT_MSG_TYPE && page[p + 1] >= 1 {
      r := r.(msgType := page[p + 2]);
    }
    if page[p + 1] >= 4 {
      var value := Le32At(page[p + 2..p + 6], 0);
      assert page[p] != OPT_PAD ==> Le32At(opt.data, 0) == value && Be32At(opt.data, 0) == Htonl(value) by {
        NetworkRead32(page[p + 2..p + 6], 0);
      }
      if page[p] == OPT_ROUTER { r := r.(router := value); }
      if page[p] == OPT_DNS { r := r.(dns := value); }
      if page[p] == OPT_SUBNET_MASK { r := r.(mask := value); }
      if page[p] == OPT_LEASE_TIME { r := r.(lease := Htonl(value)); }
    }
  }

  // ---------- scanning what a server wrote ----------

  /** The scan equals the specification fold: on any list of options followed by END, it applies
    * exactly the options that start below the limit, in order. */
  lemma {:induction false} ScanIsFold(opts: seq<Opt>, b: Bytes, p: nat, limit: nat, c: Config)
    requires p <= limit + 256 && limit + 257 <= |b|
    requires AllValid(opts) && At(b, p, OptBytes(opts) + [OPT_END])
    ensures Scan(b, p, limit, c).config == Fold(Reached(opts, limit - p), c)
  {
    hide At, OptionAt, Apply, Opt.Bytes, Opt.Valid;
    if |opts| == 0 {
      assert OptBytes(opts) + [OPT_END] == [OPT_END];
      AtWord(b, p, [OPT_END], 0);
    } else if p < limit {
      FirstOption(opts, b, p);
      FoldReached(opts, limit - p, c);
      ScanIsFold(opts[1..], b, p + |opts[0].Bytes()|, limit, Apply(c, opts[0]));
    }
  }

  lemma FoldReached(opts: seq<Opt>, room: nat, c: Config)
    requires |opts| > 0 && AllValid(opts) && room > 0
    ensures Fold(Reached(opts, room), c) == Fold(Reached(opts[1..], room - |opts[0].Bytes()|), Apply(c, opts[0]))
  {
  }

  lemma FirstOption(opts: seq<Opt>, b: Bytes, p: nat)
    requires |opts| > 0 && AllValid(opts) && p + 257 <= |b| && At(b, p, OptBytes(opts) + [OPT_END])
    ensures At(b, p + |opts[0].Bytes()|, OptBytes(opts[1..]) + [OPT_END])
    ensures OptionAt(b, p) == opts[0] && b[p] != OPT_END
    ensures |opts[0].Bytes()| == if b[p] == OPT_PAD then 1 else b[p + 1] as int + 2
  {
    hide At, OptionAt;
    var first, rest := opts[0].Bytes(), OptBytes(opts[1..]) + [OPT_END];
    assert OptBytes(opts) + [OPT_END] == first + rest;
    AtSplit(b, p, first, rest);
    ReadOption(opts[0], b, p);
  }

  lemma ReadOption(opt: Opt, b: Bytes, p: nat)
    requires opt.Valid() && p + 257 <= |b| && At(b, p, opt.Bytes())
    ensures OptionAt(b, p) == opt && b[p] != OPT_END
    ensures |opt.Bytes()| == if b[p] == OPT_PAD then 1 else b[p + 1] as int + 2
  {
    AtWord(b, p, opt.Bytes(), 0);
    if opt.Tlv? {
      AtWord(b, p, opt.Bytes(), 1);
      AtSplit(b, p, [opt.code, |opt.data|], opt.data);
      AtSlice(b, p + 2, opt.data);
    }
  }

  // ---------- the writer ----------

  /** The options of a DISCOVER or REQUEST message. */
  function RequestOptions(kind: byte, ip: u32, server: u32): (opts: seq<Opt>)
    ensures AllValid(opts)
  {
    var first := Tlv(OPT_MSG_TYPE, [kind]);
    if kind == MSG_DISCOVER then [first, Tlv(OPT_PARAM_LIST, [OPT_SUBNET_MASK, OPT_ROUTER, OPT_DNS])]
    else if kind == MSG_REQUEST then [first, Tlv(OPT_REQUESTED_IP, LE32(ip)), Tlv(OPT_SERVER_ID, LE32(server))]
    else [first]
  }

  /** The bytes the writer puts at the start of the option field. */
  function OptionField(kind: byte, ip: u32, server: u32): (r: Bytes)
    ensures |r| <= 16
  {
    [OPT_MSG_TYPE, 1, kind] +
    (if kind == MSG_DISCOVER then [OPT_PARAM_LIST, 3, OPT_SUBNET_MASK, OPT_ROUTER, OPT_DNS]
     else if kind == MSG_REQUEST then [OPT_REQUESTED_IP, 4] + LE32(ip) + [OPT_SERVER_ID, 4] + LE32(server)
     else []) + [OPT_END]
  }

  /** They are a well-formed option list closed by END. */
  lemma OptionFieldShape(kind: byte, ip: u32, server: u32)
    ensures OptionField(kind, ip, server) == OptBytes(RequestOptions(kind, ip, server)) + [OPT_END]
  {
    var opts := RequestOptions(kind, ip, server);
    if kind == MSG_DISCOVER {
      TwoOptions(opts[0], opts[1]);
    } else if kind == MSG_REQUEST {
      TwoOptions(opts[1], opts[2]);
      assert opts[1..] == [opts[1], opts[2]];
    } else {
      assert opts[1..] == [];
    }
  }

  lemma TwoOptions(a: Opt, b: Opt)
    requires a.Valid() && b.Valid()
    ensures OptBytes([a, b]) == a.Bytes() + b.Bytes()
    ensures forall c :: Fold([a, b], c) == Apply(Apply(c, a), b)
    ensures forall room :: |a.Bytes()| < room ==> Reached([a, b], room) == [a, b]
  {
    assert [a, b][1..] == [b] && [b][1..] == [];
    assert OptBytes([b]) == b.Bytes() + [];
    forall c ensures Fold([a, b], c) == Apply(Apply(c, a), b) {
      assert Fold([b], Apply(c, a)) == Fold([], Apply(Apply(c, a), b));
    }
    forall room | |a.Bytes()| < room ensures Reached([a, b], room) == [a, b] {
      assert Reached([b], room - |a.Bytes()|) == [b];
    }
  }

  /** The option writer: an index advanced field by field. */
  method WriteOptions(pkt: array<byte>, off: nat, kind: byte, ip: u32, server: u32)
    requires off + 16 <= pkt.Length
    modifies pkt
    ensures pkt[..] == Splice(old(pkt[..]), off, OptionField(kind, ip, server))
  {
    hide Splice;
    ghost var was, done: Bytes := pkt[..], [OPT_MSG_TYPE, 1, kind];
    CopyBytes(pkt, off, [OPT_MSG_TYPE, 1, kind]);
    var opt := off + 3;
    if kind == MSG_DISCOVER {
      var list: Bytes := [OPT_PARAM_LIST, 3, OPT_SUBNET_MASK, OPT_ROUTER, OPT_DNS];
      CopyBytes(pkt, opt, list);
      SpliceAppend(was, off, done, list);
      opt, done := opt + 5, done + list;
    } else if kind == MSG_REQUEST {
      var ids: Bytes := [OPT_REQUESTED_IP, 4] + LE32(ip) + [OPT_SERVER_ID, 4] + LE32(server);
      CopyBytes(pkt, opt, ids);
      SpliceAppend(was, off, done, ids);
      opt, done := opt + 12, done + ids;
    }
    CopyBytes(pkt, opt, [OPT_END]);
    SpliceAppend(was, off, done, [OPT_END]);
    assert done + [OPT_END] == OptionField(kind, ip, server);
  }

  /** Scanning what the writer wrote recovers its message type and changes no setting. */
  lemma ScanOwnMessage(kind: byte, ip: u32, server: u32, b: Bytes, p: nat, c: Config)
    requires p + MAX_SCAN + 257 <= |b|
    requires At(b, p, OptionField(kind, ip, server))
    ensures Scan(b, p, p + MAX_SCAN, c).config == c.(msgType := kind)
  {
    OptionFieldShape(kind, ip, server);
    hide At, Scan;
    ScanIsFold(RequestOptions(kind, ip, server), b, p, p + MAX_SCAN, c);
    OwnOptions(kind, ip, server, c);
  }

  lemma OwnOptions(kind: byte, ip: u32, server: u32, c: Config)
    ensures Fold(Reached(RequestOptions(kind, ip, server), MAX_SCAN), c) == c.(msgType := kind)
  {
    var opts := RequestOptions(kind, ip, server);
    if kind == MSG_DISCOVER {
      TwoOptions(opts[0], opts[1]);
    } else if kind == MSG_REQUEST {
      TwoOptions(opts[1], opts[2]);
      assert opts[1..] == [opts[1], opts[2]];
      assert Reached(opts, MAX_SCAN) == [opts[0]] + Reached(opts[1..], MAX_SCAN - 3) == opts;
      assert Fold(opts, c) == Fold(opts[1..], Apply(c, opts[0]));
    } else {
      assert opts[1..] == [];
    }
  }
}
