/** The ARP cache as an abstract value: a queue of at most eight bindings in order of first
  * insertion, and what its content is after any history of updates and flushes. */
module ArpFifo {
  import opened Words

  const CACHE_SIZE := 8

  datatype Binding = Binding(ip: u32, mac: Mac)

  type Queue = seq<Binding>

  // ---------- queue operations ----------

  /** Position of the first binding for `ip`, or the length of the queue. */
  function IndexOf(q: Queue, ip: u32): (i: nat)
    ensures i <= |q|
    ensures i < |q| ==> q[i].ip == ip
    ensures forall k :: 0 <= k < i ==> q[k].ip != ip
  {
    if q == [] || q[0].ip == ip then 0 else 1 + IndexOf(q[1..], ip)
  }

  function Find(q: Queue, ip: u32): Option<Mac> {
    var i := IndexOf(q, ip);
    if i < |q| then Some(q[i].mac) else None
  }

  /** An update rewrites the MAC of a known address where it stands; a new address is appended
    * and, when the queue is full, the oldest insertion leaves. */
  function Learn(q: Queue, ip: u32, mac: Mac): Queue {
    var i := IndexOf(q, ip);
    if i < |q| then q[i := Binding(ip, mac)]
    else (if |q| >= CACHE_SIZE then q[1..] else q) + [Binding(ip, mac)]
  }

  ghost predicate Distinct(q: Queue) {
    forall i, j :: 0 <= i < j < |q| ==> q[i].ip != q[j].ip
  }

  ghost predicate Bounded(q: Queue) {
    Distinct(q) && |q| <= CACHE_SIZE
  }

  lemma LearnKeepsBounded(q: Queue, ip: u32, mac: Mac)
    requires Bounded(q)
    ensures Bounded(Learn(q, ip, mac))
  {
  }

  /** What any address resolves to after an update, in terms of what it resolved to before:
    * the address itself to the new MAC, the evicted address to nothing, every other as before. */
  lemma FindAfterLearn(q: Queue, ip: u32, mac: Mac, other: u32)
    requires Bounded(q)
    ensures Find(Learn(q, ip, mac), other) ==
      if other == ip then Some(mac) else if Evicts(q, ip) && q[0].ip == other then None else Find(q, other)
  {
    LearnKeepsBounded(q, ip, mac);
    var i, j := IndexOf(q, ip), IndexOf(q, other);
    var r := Learn(q, ip, mac);
    if other == ip {
      IndexUnique(r, ip, if i < |q| then i else |r| - 1);
    } else if j < |q| {
      if !Evicts(q, ip) {
        IndexUnique(r, other, j);
      } else if j > 0 {
        IndexUnique(r, other, j - 1);
      }
    }
  }

  predicate Evicts(q: Queue, ip: u32) {
    IndexOf(q, ip) == |q| && |q| >= CACHE_SIZE
  }

  lemma IndexUnique(q: Queue, ip: u32, k: nat)
    requires Distinct(q) && k < |q| && q[k].ip == ip
    ensures IndexOf(q, ip) == k
  {
  }

  // ---------- many updates ----------

  function LearnAll(q: Queue, heard: seq<Binding>): Queue
    decreases |heard|
  {
    if |heard| == 0 then q else LearnAll(Learn(q, heard[0].ip, heard[0].mac), heard[1..])
  }

  /** How many of the updates insert their address. */
  function Insertions(q: Queue, heard: seq<Binding>): nat
    decreases |heard|
  {
    if |heard| == 0 then 0
    else (if IndexOf(q, heard[0].ip) == |q| then 1 else 0) +
         Insertions(Learn(q, heard[0].ip, heard[0].mac), heard[1..])
  }

  /** Updates for other addresses push a binding out if and only if they insert more addresses than
    * there are free places and older bindings; otherwise they leave it as it is. */
  predicate PushesOut(q: Queue, heard: seq<Binding>, ip: u32)
    requires |q| <= CACHE_SIZE
  {
    IndexOf(q, ip) < |q| && Insertions(q, heard) > IndexOf(q, ip) + (CACHE_SIZE - |q|)
  }

  lemma {:induction false} FindAfterOthers(q: Queue, heard: seq<Binding>, ip: u32)
    requires Bounded(q) && forall b :: b in heard ==> b.ip != ip
    ensures Bounded(LearnAll(q, heard))
    ensures Find(LearnAll(q, heard), ip) == if PushesOut(q, heard, ip) then None else Find(q, ip)
    decreases |heard|
  {
    if |heard| > 0 {
      var b := heard[0];
      LearnKeepsBounded(q, b.ip, b.mac);
      PlaceAfterLearn(q, b.ip, b.mac, ip);
      FindAfterLearn(q, b.ip, b.mac, ip);
      hide Learn, Find, Bounded;
      FindAfterOthers(Learn(q, b.ip, b.mac), heard[1..], ip);
    }
  }

  lemma PlaceAfterLearn(q: Queue, ip: u32, mac: Mac, other: u32)
    requires Bounded(q) && other != ip
    ensures var r, i := Learn(q, ip, mac), IndexOf(q, other);
      && |r| == (if IndexOf(q, ip) < |q| || |q| == CACHE_SIZE then |q| else |q| + 1)
      && (i == |q| || (i == 0 && Evicts(q, ip)) ==> IndexOf(r, other) == |r|)
      && (i < |q| && !Evicts(q, ip) ==> IndexOf(r, other) == i)
      && (0 < i < |q| && Evicts(q, ip) ==> IndexOf(r, other) == i - 1)
  {
    LearnKeepsBounded(q, ip, mac);
    var r, i := Learn(q, ip, mac), IndexOf(q, other);
    if i < |q| && !Evicts(q, ip) {
      IndexUnique(r, other, i);
    } else if 0 < i < |q| {
      IndexUnique(r, other, i - 1);
    }
  }

  // ---------- histories ----------

  datatype Op = Update(ip: u32, mac: Mac) | Flush

  function Run(ops: seq<Op>): Queue {
    if ops == [] then []
    else match ops[|ops| - 1]
      case Update(ip, mac) => Learn(Run(ops[..|ops| - 1]), ip, mac)
      case Flush => []
  }

  /** The MAC given by the latest update for `ip` since the last flush. */
  function Latest(ops: seq<Op>, ip: u32): Option<Mac> {
    if ops == [] then None
    else match ops[|ops| - 1]
      case Update(i, mac) => if i == ip then Some(mac) else Latest(ops[..|ops| - 1], ip)
      case Flush => None
  }

  function Suffix(s: seq<u32>): seq<u32> {
    if |s| <= CACHE_SIZE then s else s[|s| - CACHE_SIZE..]
  }

  /** The addresses inserted since the last flush, in order: an update inserts its address when it
    * is not among the last eight inserted. This definition does not mention the queue. */
  function Inserted(ops: seq<Op>): seq<u32> {
    if ops == [] then []
    else
      var before := Inserted(ops[..|ops| - 1]);
      match ops[|ops| - 1]
      case Update(ip, _) => if ip in Suffix(before) then before else before + [ip]
      case Flush => []
  }

  function Keys(q: Queue): (k: seq<u32>)
    ensures |k| == |q|
    ensures forall i :: 0 <= i < |q| ==> k[i] == q[i].ip
  {
    seq(|q|, i requires 0 <= i < |q| => q[i].ip)
  }

  /** The whole content of the cache after any history: it holds exactly the last eight addresses
    * inserted, oldest first, without duplicates, and every hit is the latest update. */
  lemma {:induction false} CacheContent(ops: seq<Op>)
    ensures Bounded(Run(ops))
    ensures Keys(Run(ops)) == Suffix(Inserted(ops))
    ensures forall ip: u32 :: Find(Run(ops), ip) == if ip in Suffix(Inserted(ops)) then Latest(ops, ip) else None
    ensures forall ip: u32 :: ip in Suffix(Inserted(ops)) ==> Latest(ops, ip).Some?
  {
    if ops != [] && ops[|ops| - 1].Update? {
      var before := ops[..|ops| - 1];
      CacheContent(before);
      var q, ip, mac := Run(before), ops[|ops| - 1].ip, ops[|ops| - 1].mac;
      LearnKeepsBounded(q, ip, mac);
      KeysAfterLearn(q, ip, mac, Inserted(before));
      forall other: u32
        ensures Find(Run(ops), other) == if other in Suffix(Inserted(ops)) then Latest(ops, other) else None
        ensures other in Suffix(Inserted(ops)) ==> Latest(ops, other).Some?
      {
        FindAfterLearn(q, ip, mac, other);
        FoundIffKey(q, other);
        FoundIffKey(Run(ops), other);
      }
    }
  }

  lemma FoundIffKey(q: Queue, ip: u32)
    ensures ip in Keys(q) <==> Find(q, ip).Some?
  {
  }

  lemma KeysAfterLearn(q: Queue, ip: u32, mac: Mac, log: seq<u32>)
    requires Bounded(q) && Keys(q) == Suffix(log)
    ensures Keys(Learn(q, ip, mac)) == Suffix(if ip in Suffix(log) then log else log + [ip])
  {
  }

  /** Residence: after an update that inserts `ip`, and any further updates that do not insert it
    * again, the address is still found if and only if at most seven others were inserted. */
  lemma Residence(ops: seq<Op>, ip: u32, mac: Mac, later: seq<Op>)
    requires ip !in Suffix(Inserted(ops))
    requires forall op :: op in later ==> op.Update?
    requires var log := Inserted(ops + [Update(ip, mac)] + later);
      forall k :: |Inserted(ops)| < k < |log| ==> log[k] != ip
    ensures Find(Run(ops + [Update(ip, mac)] + later), ip).Some?
      <==> |Inserted(ops + [Update(ip, mac)] + later)| - (|Inserted(ops)| + 1) <= 7
  {
    InsertedAt(ops, ip, mac, later);
    var all := ops + [Update(ip, mac)] + later;
    CacheContent(all);
    InSuffix(Inserted(all), |Inserted(ops)|, ip);
  }

  lemma InsertedAt(ops: seq<Op>, ip: u32, mac: Mac, later: seq<Op>)
    requires ip !in Suffix(Inserted(ops))
    requires forall op :: op in later ==> op.Update?
    ensures Inserted(ops) + [ip] <= Inserted(ops + [Update(ip, mac)] + later)
  {
    var first := ops + [Update(ip, mac)];
    assert first[..|first| - 1] == ops;
    InsertedGrows(first, later);
  }

  lemma InSuffix(log: seq<u32>, n: nat, ip: u32)
    requires n < |log| && log[n] == ip && ip !in log[n + 1..]
    ensures ip in Suffix(log) <==> |log| - (n + 1) < CACHE_SIZE
  {
  }

  lemma {:induction false} InsertedGrows(ops: seq<Op>, later: seq<Op>)
    requires forall op :: op in later ==> op.Update?
    ensures Inserted(ops) <= Inserted(ops + later)
  {
    if later == [] {
      assert ops + later == ops;
    } else {
      var front, op := later[..|later| - 1], later[|later| - 1];
      assert op in later;
      assert ops + later == (ops + front) + [op];
      InsertedGrows(ops, front);
      InsertedStep(ops + front, op);
    }
  }

  lemma InsertedStep(ops: seq<Op>, op: Op)
    requires op.Update?
    ensures Inserted(ops) <= Inserted(ops + [op])
  {
  }
}
