/** Machine words, byte order and the byte-level helpers every other module uses.
  *
  * The stack runs on a little-endian machine: a field of a packed header is read and
  * written as a little-endian word, and `Htons`/`Htonl` swap it to network order.
  * IPv4 addresses are kept as the source keeps them: the word whose little-endian
  * bytes are the address on the wire.
  */
module Words {

  type byte = x: int | 0 <= x < 0x100
  type u16 = x: int | 0 <= x < 0x1_0000
  type u32 = x: int | 0 <= x < 0x1_0000_0000

  type Bytes = seq<byte>
  type Mac = m: seq<byte> | |m| == 6 witness [0, 0, 0, 0, 0, 0]

  const TWO32 := 0x1_0000_0000

  datatype Option<+T> = None | Some(value: T)

  // ---------- byte order ----------

  function Htons(x: u16): u16 {
    x % 0x100 * 0x100 + x / 0x100
  }

  function Htonl(x: u32): u32 {
    x / 0x100_0000 + x / 0x1_0000 % 0x100 * 0x100 + x / 0x100 % 0x100 * 0x1_0000 + x % 0x100 * 0x100_0000
  }

  function LE16(v: u16): (r: Bytes)
    ensures |r| == 2
  {
    [v % 0x100, v / 0x100]
  }

  function BE16(v: u16): (r: Bytes)
    ensures |r| == 2
  {
    [v / 0x100, v % 0x100]
  }

  function LE32(v: u32): (r: Bytes)
    ensures |r| == 4
  {
    [v % 0x100, v / 0x100 % 0x100, v / 0x1_0000 % 0x100, v / 0x100_0000]
  }

  function BE32(v: u32): (r: Bytes)
    ensures |r| == 4
  {
    [v / 0x100_0000, v / 0x1_0000 % 0x100, v / 0x100 % 0x100, v % 0x100]
  }

  function Le16At(b: Bytes, i: nat): u16
    requires i + 2 <= |b|
  {
    b[i] as int + b[i + 1] as int * 0x100
  }

  function Be16At(b: Bytes, i: nat): u16
    requires i + 2 <= |b|
  {
    b[i] as int * 0x100 + b[i + 1] as int
  }

  function Le32At(b: Bytes, i: nat): u32
    requires i + 4 <= |b|
  {
    b[i] as int + b[i + 1] as int * 0x100 + b[i + 2] as int * 0x1_0000 + b[i + 3] as int * 0x100_0000
  }

  function Be32At(b: Bytes, i: nat): u32
    requires i + 4 <= |b|
  {
    b[i] as int * 0x100_0000 + b[i + 1] as int * 0x1_0000 + b[i + 2] as int * 0x100 + b[i + 3] as int
  }

  /** Swapping twice is the identity, and the little-endian bytes of a swapped word are
    * its big-endian bytes: what makes `htons` on the way out and `ntohs` on the way in agree. */
  lemma SwapWord(v: u16)
    ensures Htons(Htons(v)) == v
    ensures LE16(Htons(v)) == BE16(v)
    ensures Be16At(BE16(v), 0) == v && Le16At(LE16(v), 0) == v
  {
    var hi, lo := v / 0x100, v % 0x100;
    assert v == hi * 0x100 + lo;
    assert Htons(v) == lo * 0x100 + hi;
    TwoBytes(lo, hi);
  }

  /** The two bytes of a word are recovered by division. */
  lemma TwoBytes(hi: byte, lo: byte)
    ensures (hi * 0x100 + lo) / 0x100 == hi && (hi * 0x100 + lo) % 0x100 == lo
  {
  }

  lemma SwapDouble(v: u32)
    ensures Htonl(Htonl(v)) == v
    ensures LE32(Htonl(v)) == BE32(v)
    ensures Be32At(BE32(v), 0) == v && Le32At(LE32(v), 0) == v
  {
    var b3, b2, b1, b0 := v / 0x100_0000, v / 0x1_0000 % 0x100, v / 0x100 % 0x100, v % 0x100;
    SumOfBytes(v);
    var w: u32 := b0 * 0x100_0000 + b1 * 0x1_0000 + b2 * 0x100 + b3;
    assert Htonl(v) == w;
    FromBytes(b3, b2, b1, b0);
    assert Htonl(w) == v;
  }

  lemma SumOfBytes(v: u32)
    ensures v == v / 0x100_0000 * 0x100_0000 + v / 0x1_0000 % 0x100 * 0x1_0000 + v / 0x100 % 0x100 * 0x100 + v % 0x100
  {
    var a, b, c := v / 0x100, v / 0x1_0000, v / 0x100_0000;
    assert a / 0x100 == b && b / 0x100 == c;
    assert v == a * 0x100 + v % 0x100;
    assert a == b * 0x100 + a % 0x100;
    assert b == c * 0x100 + b % 0x100;
  }

  /** The four bytes of a double word are recovered by division. */
  lemma FromBytes(b0: byte, b1: byte, b2: byte, b3: byte)
    ensures var v: u32 := b3 * 0x100_0000 + b2 * 0x1_0000 + b1 * 0x100 + b0;
      v / 0x100_0000 == b3 && v / 0x1_0000 % 0x100 == b2 && v / 0x100 % 0x100 == b1 && v % 0x100 == b0
  {
    var v: u32 := b3 * 0x100_0000 + b2 * 0x1_0000 + b1 * 0x100 + b0;
    assert v == (b3 * 0x100 + b2) * 0x1_0000 + (b1 * 0x100 + b0);
    assert v == (b3 * 0x1_0000 + b2 * 0x100 + b1) * 0x100 + b0;
    assert v / 0x1_0000 == b3 * 0x100 + b2;
    assert v / 0x100 == b3 * 0x1_0000 + b2 * 0x100 + b1;
  }

  /** A field read with `ntohs` or `ntohl` is the big-endian value on the wire. */
  lemma NetworkRead16(b: Bytes, i: nat)
    requires i + 2 <= |b|
    ensures Htons(Le16At(b, i)) == Be16At(b, i)
  {
  }

  lemma NetworkRead32(b: Bytes, i: nat)
    requires i + 4 <= |b|
    ensures Htonl(Le32At(b, i)) == Be32At(b, i)
  {
    FromBytes(b[i], b[i + 1], b[i + 2], b[i + 3]);
  }

  /** Storing a loaded address gives its bytes back. */
  lemma AddressBytes(b: Bytes, i: nat)
    requires i + 4 <= |b|
    ensures LE32(Le32At(b, i)) == b[i..i + 4]
  {
    FromBytes(b[i], b[i + 1], b[i + 2], b[i + 3]);
  }

  // ---------- sequences ----------

  function Zeros(n: nat): (r: Bytes)
    ensures |r| == n
  {
    seq(n, _ => 0)
  }

  function Min(a: nat, b: nat): nat {
    if a < b then a else b
  }

  /** `s` occurs in `b` at position `p`. */
  predicate At(b: Bytes, p: nat, s: Bytes) {
    p + |s| <= |b| && forall i {:trigger s[i]} :: 0 <= i < |s| ==> b[p + i] == s[i]
  }

  lemma AtSplit(b: Bytes, p: nat, s: Bytes, t: Bytes)
    ensures At(b, p, s + t) <==> At(b, p, s) && At(b, p + |s|, t)
  {
    var st := s + t;
    if At(b, p, st) {
      assert forall i {:trigger s[i]} :: 0 <= i < |s| ==> s[i] == st[i];
      assert forall i {:trigger t[i]} :: 0 <= i < |t| ==> t[i] == st[|s| + i];
    }
  }

  lemma AtSlice(b: Bytes, p: nat, s: Bytes)
    ensures At(b, p, s) <==> p + |s| <= |b| && b[p..p + |s|] == s
  {
  }

  /** Reading a byte or a word of a sequence found at `p`. */
  lemma AtWord(b: Bytes, p: nat, s: Bytes, i: nat)
    requires At(b, p, s) && i < |s|
    ensures b[p + i] == s[i]
    ensures i + 2 <= |s| ==> Be16At(b, p + i) == Be16At(s, i) && Le16At(b, p + i) == Le16At(s, i)
    ensures i + 4 <= |s| ==> Be32At(b, p + i) == Be32At(s, i) && Le32At(b, p + i) == Le32At(s, i)
  {
  }

  lemma WholeAt(b: Bytes)
    ensures At(b, 0, b)
  {
  }

  /** Reading back a word, double word or address found at `p`. */
  lemma ReadWord(b: Bytes, p: nat, v: u16)
    requires At(b, p, BE16(v))
    ensures p + 2 <= |b| && Be16At(b, p) == v
  {
    SwapWord(v);
    AtWord(b, p, BE16(v), 0);
  }

  lemma ReadDouble(b: Bytes, p: nat, v: u32)
    requires At(b, p, BE32(v))
    ensures p + 4 <= |b| && Be32At(b, p) == v
  {
    SwapDouble(v);
    AtWord(b, p, BE32(v), 0);
  }

  lemma ReadAddress(b: Bytes, p: nat, v: u32)
    requires At(b, p, LE32(v))
    ensures p + 4 <= |b| && Le32At(b, p) == v
  {
    SwapDouble(v);
    AtWord(b, p, LE32(v), 0);
  }

  // ---------- memory ----------

  /** `b` with `s` written at `off`. */
  function Splice(b: Bytes, off: nat, s: Bytes): (r: Bytes)
    requires off + |s| <= |b|
    ensures |r| == |b|
  {
    b[..off] + s + b[off + |s|..]
  }

  /** Two adjacent writes are one. */
  lemma SpliceAppend(b: Bytes, off: nat, s: Bytes, t: Bytes)
    requires off + |s| + |t| <= |b|
    ensures Splice(Splice(b, off, s), off + |s|, t) == Splice(b, off, s + t)
  {
  }

  /** `memory::local_mem_cpy` into a packet buffer. */
  method CopyBytes(dest: array<byte>, off: nat, src: Bytes)
    requires off + |src| <= dest.Length
    modifies dest
    ensures dest[..] == Splice(old(dest[..]), off, src)
  {
    ghost var was := dest[..];
    var i := 0;
    while i < |src|
      invariant 0 <= i <= |src|
      invariant forall k :: 0 <= k < dest.Length ==> dest[k] == if off <= k < off + i then src[k - off] else was[k]
    {
      dest[off + i] := src[i];
      i := i + 1;
    }
    assert dest[..] == was[..off] + src + was[off + |src|..];
  }

  /** A little-endian 16-bit store. */
  method Store16(dest: array<byte>, off: nat, v: u16)
    requires off + 2 <= dest.Length
    modifies dest
    ensures dest[..] == Splice(old(dest[..]), off, LE16(v))
  {
    dest[off] := v % 0x100;
    dest[off + 1] := v / 0x100;
  }

  /** A little-endian 32-bit store. */
  method Store32(dest: array<byte>, off: nat, v: u32)
    requires off + 4 <= dest.Length
    modifies dest
    ensures dest[..] == Splice(old(dest[..]), off, LE32(v))
  {
    dest[off] := v % 0x100;
    dest[off + 1] := v / 0x100 % 0x100;
    dest[off + 2] := v / 0x1_0000 % 0x100;
    dest[off + 3] := v / 0x100_0000;
  }
}
