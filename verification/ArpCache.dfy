/** The ARP cache of arp_cache.hpp: a table of eight entries with round-robin eviction. */
module ArpCache {
  import opened Words
  import opened ArpFifo

  datatype Entry = Entry(ip: u32, mac: Mac, valid: bool)

  /** The table fills from slot 0; once `next` has come round, every slot is in use. */
  ghost predicate Packed(t: seq<Entry>, next: nat) {
    && |t| == CACHE_SIZE && next < CACHE_SIZE
    && (forall i :: 0 <= i < next ==> t[i].valid)
    && (forall i :: next <= i < CACHE_SIZE ==> t[i].valid == t[next].valid)
  }

  /** The slot holding the `k`-th oldest binding: a full table starts at the slot evicted next. */
  ghost function SlotOf(t: seq<Entry>, next: nat, k: nat): nat
    requires Packed(t, next) && k < CACHE_SIZE
  {
    if !t[next].valid then k else if next + k < CACHE_SIZE then next + k else next + k - CACHE_SIZE
  }

  ghost function Used(t: seq<Entry>, next: nat): nat
    requires Packed(t, next)
  {
    if t[next].valid then CACHE_SIZE else next
  }

  /** The bindings in order of insertion. */
  ghost function Order(t: seq<Entry>, next: nat): (q: Queue)
    requires Packed(t, next)
    ensures |q| == Used(t, next)
    ensures forall k :: 0 <= k < |q| ==> q[k] == Bound(t[SlotOf(t, next, k)])
  {
    seq(Used(t, next), k requires 0 <= k < Used(t, next) => Bound(t[SlotOf(t, next, k)]))
  }

  function Bound(e: Entry): Binding {
    Binding(e.ip, e.mac)
  }

  /** Where slot `i` stands in the queue. */
  ghost function Place(t: seq<Entry>, next: nat, i: nat): nat
    requires Packed(t, next) && i < CACHE_SIZE
  {
    if !t[next].valid then i else if i >= next then i - next else i + CACHE_SIZE - next
  }

  lemma PlaceOfSlot(t: seq<Entry>, next: nat, i: nat)
    requires Packed(t, next) && i < CACHE_SIZE && t[i].valid
    ensures Place(t, next, i) < |Order(t, next)|
    ensures SlotOf(t, next, Place(t, next, i)) == i
    ensures Order(t, next)[Place(t, next, i)] == Bound(t[i])
  {
  }

  /** A scan of the table that finds nothing means the queue has no such binding. */
  lemma NoSlot(t: seq<Entry>, next: nat, ip: u32)
    requires Packed(t, next)
    requires forall i :: 0 <= i < CACHE_SIZE ==> !(t[i].valid && t[i].ip == ip)
    ensures IndexOf(Order(t, next), ip) == |Order(t, next)|
  {
  }

  lemma RewriteSlot(t: seq<Entry>, next: nat, i: nat, mac: Mac)
    requires Packed(t, next) && Distinct(Order(t, next)) && i < CACHE_SIZE && t[i].valid
    ensures Packed(t[i := t[i].(mac := mac)], next)
    ensures Order(t[i := t[i].(mac := mac)], next) == Learn(Order(t, next), t[i].ip, mac)
  {
    PlaceOfSlot(t, next, i);
    IndexUnique(Order(t, next), t[i].ip, Place(t, next, i));
    OrderAfterRewrite(t, next, i, mac);
  }

  lemma OrderAfterRewrite(t: seq<Entry>, next: nat, i: nat, mac: Mac)
    requires Packed(t, next) && i < CACHE_SIZE && t[i].valid
    ensures Packed(t[i := t[i].(mac := mac)], next)
    ensures Place(t, next, i) < |Order(t, next)|
    ensures Order(t[i := t[i].(mac := mac)], next) == Order(t, next)[Place(t, next, i) := Binding(t[i].ip, mac)]
  {
  }

  lemma {:induction false} FillSlot(t: seq<Entry>, next: nat, ip: u32, mac: Mac)
    requires Packed(t, next) && IndexOf(Order(t, next), ip) == |Order(t, next)|
    ensures var u, n := t[next := Entry(ip, mac, true)], (next + 1) % CACHE_SIZE;
      Packed(u, n) && Order(u, n) == Learn(Order(t, next), ip, mac)
  {
    var u, n, q := t[next := Entry(ip, mac, true)], (next + 1) % CACHE_SIZE, Order(t, next);
    SlotsAfterFill(t, next, Entry(ip, mac, true));
    hide SlotOf, Packed, IndexOf;
    var kept := if t[next].valid then q[1..] else q;
    assert Learn(q, ip, mac) == kept + [Bound(u[next])];
    forall k | 0 <= k < |kept| ensures Order(u, n)[k] == kept[k] {
    }
  }

  /** The new slot comes last; before it the queue is as it was, one place further on in a full table. */
  lemma SlotsAfterFill(t: seq<Entry>, next: nat, e: Entry)
    requires Packed(t, next) && e.valid
    ensures var u, n := t[next := e], (next + 1) % CACHE_SIZE;
      var from, kept := if t[next].valid then 1 else 0, if t[next].valid then CACHE_SIZE - 1 else next;
      && Packed(u, n) && Used(u, n) == kept + 1 && SlotOf(u, n, kept) == next
      && forall k :: 0 <= k < kept ==>
           SlotOf(u, n, k) == SlotOf(t, next, from + k) && u[SlotOf(u, n, k)] == t[SlotOf(t, next, from + k)]
  {
  }

  class Cache {
    const table: array<Entry>
    var nextSlot: nat
    ghost var content: Queue  // the abstract value of the table

    ghost predicate Valid()
      reads this, table
    {
      && table.Length == CACHE_SIZE && Packed(table[..], nextSlot)
      && content == Order(table[..], nextSlot) && Bounded(content)
    }

    constructor ()
      ensures Valid() && fresh(table) && content == []
    {
      table := new Entry[CACHE_SIZE](_ => Entry(0, [0, 0, 0, 0, 0, 0], false));
      nextSlot, content := 0, [];
    }

    method Lookup(ip: u32) returns (mac: Option<Mac>)
      requires Valid()
      ensures mac == Find(content, ip)
    {
      var i := 0;
      while i < CACHE_SIZE
        invariant 0 <= i <= CACHE_SIZE
        invariant forall k :: 0 <= k < i ==> !(table[k].valid && table[k].ip == ip)
      {
        if table[i].valid && table[i].ip == ip {
          PlaceOfSlot(table[..], nextSlot, i);
          IndexUnique(content, ip, Place(table[..], nextSlot, i));
          return Some(table[i].mac);
        }
        i := i + 1;
      }
      NoSlot(table[..], nextSlot, ip);
      mac := None;
    }

    method Update(ip: u32, mac: Mac)
      requires Valid()
      modifies this, table
      ensures Valid() && content == Learn(old(content), ip, mac)
    {
      assert nextSlot < CACHE_SIZE;
      hide Packed, Used, SlotOf, Bound, Learn, IndexOf;
      LearnKeepsBounded(content, ip, mac);
      ghost var was := table[..];
      content := Learn(content, ip, mac);
      var i := 0;
      while i < CACHE_SIZE
        invariant 0 <= i <= CACHE_SIZE && table[..] == was && nextSlot == old(nextSlot)
        invariant forall k :: 0 <= k < i ==> !(was[k].valid && was[k].ip == ip)
      {
        if table[i].valid && table[i].ip == ip {
          RewriteSlot(was, nextSlot, i, mac);
          table[i] := table[i].(mac := mac);
          assert table[..] == was[i := was[i].(mac := mac)];
          return;
        }
        i := i + 1;
      }
      NoSlot(was, nextSlot, ip);
      FillSlot(was, nextSlot, ip, mac);
      table[nextSlot] := Entry(ip, mac, true);
      assert table[..] == was[nextSlot := Entry(ip, mac, true)];
      nextSlot := (nextSlot + 1) % CACHE_SIZE;
    }

    method Flush()
      requires Valid()
      modifies this, table
      ensures Valid() && content == []
    {
      var i := 0;
      while i < CACHE_SIZE
        invariant 0 <= i <= CACHE_SIZE
        invariant forall k :: 0 <= k < i ==> !table[k].valid
      {
        table[i] := table[i].(valid := false);
        i := i + 1;
      }
      nextSlot, content := 0, [];
    }
  }
}
