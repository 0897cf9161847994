/** The Internet checksum of RFC 1071 (net_math.hpp).
  *
  * `WordSum` is the plain sum of the little-endian words of a buffer and `OnesSum` the
  * one's-complement representative of a sum. The methods are the source's accumulate-and-fold
  * loops over 32-bit words; the lemmas say what the folded value means.
  */
module NetMath {
  import opened Words

  // ---------- specification ----------

  /** Sum of the little-endian 16-bit words of `b`; an odd last byte counts as a word of its own. */
  function WordSum(b: Bytes): nat {
    if |b| == 0 then 0
    else if |b| == 1 then b[0]
    else b[0] as int + b[1] as int * 0x100 + WordSum(b[2..])
  }

  /** The same buffer read as big-endian words, the odd last byte padded with zero on its right. */
  function WordSumBE(b: Bytes): nat {
    if |b| == 0 then 0
    else if |b| == 1 then b[0] as int * 0x100
    else b[0] as int * 0x100 + b[1] as int + WordSumBE(b[2..])
  }

  /** The one's-complement 16-bit value of a sum: its class modulo 65535, with zero
    * represented by 0xFFFF unless the sum itself is zero. */
  function OnesSum(s: nat): u16 {
    if s == 0 then 0 else (s - 1) % 0xFFFF + 1
  }

  /** The checksum of a buffer: the complement of the one's-complement sum of its words. */
  function Cksum(b: Bytes): u16 {
    0xFFFF - OnesSum(WordSum(b))
  }

  /** The checksum RFC 1071 defines, over big-endian words. */
  function CksumBE(b: Bytes): u16 {
    0xFFFF - OnesSum(WordSumBE(b))
  }

  // ---------- modular arithmetic ----------

  /** Values congruent modulo 65535 and zero together have the same one's-complement form. */
  lemma SameOnes(s: nat, t: nat, q: int)
    requires s - t == 0xFFFF * q
    requires s == 0 <==> t == 0
    ensures OnesSum(s) == OnesSum(t)
  {
  }

  lemma OnesQuotient(s: nat) returns (q: nat)
    ensures s == 0xFFFF * q + OnesSum(s)
    ensures s == 0 <==> OnesSum(s) == 0
    ensures s % 0xFFFF == OnesSum(s) % 0xFFFF
  {
    q := if s == 0 then 0 else (s - 1) / 0xFFFF;
  }

  // ---------- the folding loop ----------

  /** One round of the folding loop keeps the one's-complement value and shrinks the sum. */
  lemma FoldRound(s: nat)
    requires s >= 0x1_0000
    ensures var r := s % 0x1_0000 + s / 0x1_0000; 0 < r < s && OnesSum(r) == OnesSum(s)
  {
  }

  /** A 32-bit sum is folded to 16 bits within two rounds. */
  lemma TwoRoundsSuffice(s: u32)
    ensures var r := s % 0x1_0000 + s / 0x1_0000; r % 0x1_0000 + r / 0x1_0000 < 0x1_0000
  {
  }

  method FoldCarries(total: u32) returns (sum: u16, ghost rounds: nat)
    ensures sum == OnesSum(total)
    ensures rounds <= 2
  {
    var s: u32 := total;
    rounds := 0;
    while s / 0x1_0000 > 0
      invariant OnesSum(s) == OnesSum(total)
      invariant rounds == 0 ==> s == total
      invariant rounds == 1 ==> s == total % 0x1_0000 + total / 0x1_0000
      invariant rounds >= 2 ==> rounds == 2 && s < 0x1_0000
      decreases s
    {
      FoldRound(s);
      TwoRoundsSuffice(total);
      s := s % 0x1_0000 + s / 0x1_0000;
      rounds := rounds + 1;
    }
    assert OnesSum(s) == s;
    sum := s;
  }

  // ---------- the accumulator ----------

  /** The exact length limit: a 32-bit accumulator is safe for every buffer of `n` bytes
    * if and only if `n` is at most 131074, that is 65537 words. */
  lemma AccumulatorLimit(n: nat)
    ensures (forall b: Bytes :: |b| == n ==> WordSum(b) < TWO32) <==> n <= 131074
  {
    if n <= 131074 {
      forall b: Bytes | |b| == n ensures WordSum(b) < TWO32 { WordSumBound(b); }
    } else {
      var b: Bytes := seq(n, _ => 0xFF);
      FullWords(b);
      assert |b| == n && WordSum(b) >= TWO32;
    }
  }

  lemma {:induction false} WordSumBound(b: Bytes)
    ensures WordSum(b) <= (|b| + 1) / 2 * 0xFFFF
  {
    if |b| >= 2 { WordSumBound(b[2..]); }
  }

  lemma {:induction false} FullWords(b: Bytes)
    requires forall i :: 0 <= i < |b| ==> b[i] == 0xFF
    ensures WordSum(b) == |b| / 2 * 0xFFFF + |b| % 2 * 0xFF
  {
    if |b| >= 2 { FullWords(b[2..]); }
  }

  lemma {:induction false} WordSumConcat(a: Bytes, b: Bytes)
    requires |a| % 2 == 0
    ensures WordSum(a + b) == WordSum(a) + WordSum(b)
  {
    if a == [] {
      assert a + b == b;
    } else {
      assert (a + b)[2..] == a[2..] + b;
      WordSumConcat(a[2..], b);
    }
  }

  /** Adds the words of `a[off..off + len]` to a 32-bit accumulator, as both checksum functions do. */
  method Accumulate(a: array<byte>, off: nat, len: nat, start: u32) returns (sum: u32)
    requires off + len <= a.Length
    ensures sum == (start + WordSum(a[off..off + len])) % TWO32
  {
    var p, n := off, len;
    sum := start;
    while n > 1
      invariant 0 <= n <= len && p + n == off + len
      invariant (sum + WordSum(a[p..off + len])) % TWO32 == (start + WordSum(a[off..off + len])) % TWO32
    {
      assert a[p..off + len][2..] == a[p + 2..off + len];
      var word := a[p] as int + a[p + 1] as int * 0x100;
      ModAdd(sum + word, WordSum(a[p + 2..off + len]));
      sum := (sum + word) % TWO32;
      p, n := p + 2, n - 2;
    }
    if n == 1 {
      sum := (sum + a[p] as int) % TWO32;
    }
  }

  lemma ModAdd(x: nat, y: nat)
    ensures (x % TWO32 + y) % TWO32 == (x + y) % TWO32
  {
  }

  /** `net_math::checksum`: exact for every buffer of at most 65537 words. */
  method Checksum(a: array<byte>, off: nat, len: nat) returns (c: u16)
    requires off + len <= a.Length
    ensures c == 0xFFFF - OnesSum(WordSum(a[off..off + len]) % TWO32)
    ensures len <= 131074 ==> c == Cksum(a[off..off + len])
  {
    hide WordSum, OnesSum;
    ghost var data := a[off..off + len];
    var sum := Accumulate(a, off, len, 0);
    WordSumBound(data);
    var folded, _ := FoldCarries(sum);
    c := 0xFFFF - folded;
  }

  /** The twelve bytes of the IPv4 pseudo-header of TCP and UDP. */
  function PseudoHeader(saddr: u32, daddr: u32, proto: byte, len: u16): (r: Bytes)
    ensures |r| == 12
  {
    LE32(saddr) + LE32(daddr) + [0, proto] + BE16(len)
  }

  method FillPseudoHeader(saddr: u32, daddr: u32, proto: byte, len: u16) returns (ph: array<byte>)
    ensures fresh(ph) && ph[..] == PseudoHeader(saddr, daddr, proto, len)
  {
    ph := new byte[12](_ => 0);
    Store32(ph, 0, saddr);
    Store32(ph, 4, daddr);
    ph[9] := proto;
    SwapWord(len);
    Store16(ph, 10, Htons(len));
  }

  /** `net_math::pseudo_checksum` is the plain checksum of the pseudo-header followed by the
    * segment, for every 16-bit length. */
  method PseudoChecksum(saddr: u32, daddr: u32, proto: byte, a: array<byte>, off: nat, len: u16) returns (c: u16)
    requires off + len <= a.Length
    ensures c == Cksum(PseudoHeader(saddr, daddr, proto, len) + a[off..off + len])
  {
    hide WordSum, OnesSum, PseudoHeader;
    var ph := FillPseudoHeader(saddr, daddr, proto, len);
    ghost var head, segment := ph[..], a[off..off + len];
    var sum := SumPseudoHeader(ph);
    sum := Accumulate(a, off, len, sum);
    WordSumBound(head);
    WordSumBound(segment);
    WordSumConcat(head, segment);
    var folded, _ := FoldCarries(sum);
    c := 0xFFFF - folded;
  }

  method SumPseudoHeader(ph: array<byte>) returns (sum: u32)
    requires ph.Length == 12
    ensures sum == WordSum(ph[..])
  {
    var total: int, i := 0, 0;
    while i < 6
      invariant 0 <= i <= 6 && 0 <= total <= i * 0xFFFF
      invariant total + WordSum(ph[2 * i..]) == WordSum(ph[..])
    {
      assert ph[2 * i..][2..] == ph[2 * (i + 1)..];
      total := total + (ph[2 * i] as int + ph[2 * i + 1] as int * 0x100);
      i := i + 1;
    }
    sum := total;
  }

  // ---------- byte-order independence ----------

  /** Reading the words in the other byte order multiplies the sum by 256 modulo 65535. */
  lemma {:induction false} SwappedSum(b: Bytes) returns (q: int)
    ensures 0x100 * WordSum(b) - WordSumBE(b) == 0xFFFF * q
    ensures WordSum(b) == 0 <==> WordSumBE(b) == 0
  {
    if |b| < 2 {
      q := 0;
    } else {
      var rest := SwappedSum(b[2..]);
      q := b[1] as int + rest;
    }
  }

  /** RFC 1071 section 2(B): the little-endian checksum is the byte swap of the big-endian one,
    * so storing it without `htons` puts the right bytes on the wire. */
  lemma ByteOrderIndependent(b: Bytes)
    ensures Cksum(b) == Htons(CksumBE(b))
    ensures LE16(Cksum(b)) == BE16(CksumBE(b))
  {
    var q := SwappedSum(b);
    SwappedOnes(WordSum(b), WordSumBE(b), q);
    SwapComplement(OnesSum(WordSum(b)));
    SwapWord(CksumBE(b));
    SwapWord(Cksum(b));
  }

  lemma SwappedOnes(le: nat, be: nat, q: int)
    requires 0x100 * le - be == 0xFFFF * q
    requires le == 0 <==> be == 0
    ensures OnesSum(be) == Htons(OnesSum(le))
  {
    var ql := OnesQuotient(le);
    var x := OnesSum(le);
    SwapTimes256(x);
    SameOnes(be, Htons(x), 0x100 * ql - q + x / 0x100);
    SmallOnes(Htons(x));
  }

  lemma SmallOnes(x: u16)
    ensures OnesSum(x) == x
  {
  }

  lemma SwapTimes256(x: u16)
    ensures 0x100 * x - Htons(x) == 0xFFFF * (x / 0x100)
    ensures x == 0 <==> Htons(x) == 0
  {
  }

  lemma SwapComplement(x: u16)
    ensures Htons(0xFFFF - x) == 0xFFFF - Htons(x)
  {
  }

  // ---------- a stored checksum verifies ----------

  /** Complementing a sum and adding it back gives the one's-complement zero. */
  lemma ComplementCancels(s: nat)
    ensures OnesSum(s + (0xFFFF - OnesSum(s))) == 0xFFFF
  {
  }

  /** A buffer whose checksum field was zero when the checksum was taken verifies to zero once the
    * checksum is stored there. So it does when a computed zero is
    * sent as 0xFFFF, the UDP rule. */
  lemma StoredChecksumVerifies(pre: Bytes, post: Bytes)
    requires |pre| % 2 == 0
    ensures var c := Cksum(pre + [0, 0] + post); Cksum(pre + LE16(c) + post) == 0
    ensures Cksum(pre + [0, 0] + post) == 0 ==> Cksum(pre + LE16(0xFFFF) + post) == 0
  {
    var s := WordSum(pre) + WordSum(post);
    FieldSum(pre, 0, post);
    assert LE16(0) == [0, 0];
    var c := Cksum(pre + [0, 0] + post);
    FieldSum(pre, c, post);
    ComplementCancels(s);
    if c == 0 {
      FieldSum(pre, 0xFFFF, post);
      SameOnes(s + 0xFFFF, s, 1);
    }
  }

  lemma FieldSum(pre: Bytes, c: u16, post: Bytes)
    requires |pre| % 2 == 0
    ensures WordSum(pre + LE16(c) + post) == WordSum(pre) + c + WordSum(post)
  {
    assert pre + LE16(c) + post == pre + (LE16(c) + post);
    WordSumConcat(pre, LE16(c) + post);
    assert (LE16(c) + post)[2..] == post;
  }
}
