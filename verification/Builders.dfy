/** The packet builders: zeroed buffers filled field by field, lengths and checksums patched last
  * (core.hpp, protocols.hpp). Each ends with the frame its specification in `Frames` gives. */
module Builders {
  import opened Words
  import opened NetMath
  import opened DhcpOptions
  import opened Frames
  import Dns

  // ---------- a buffer filled from the front ----------

  /** `done` at the start of a zeroed buffer of `n` bytes. */
  function Pad(done: Bytes, n: nat): (r: Bytes)
    requires |done| <= n
    ensures |r| == n
  {
    done + Zeros(n - |done|)
  }

  lemma PadAppend(done: Bytes, s: Bytes, n: nat)
    requires |done| + |s| <= n
    ensures Splice(Pad(done, n), |done|, s) == Pad(done + s, n)
  {
  }

  lemma PadSkip(done: Bytes, k: nat, n: nat)
    requires |done| + k <= n
    ensures Pad(done, n) == Pad(done + Zeros(k), n)
  {
  }

  lemma PadPatch(x: Bytes, y: Bytes, z: Bytes, t: Bytes, n: nat)
    requires |y| == |t| && |x| + |y| + |z| <= n
    ensures Splice(Pad(x + y + z, n), |x|, t) == Pad(x + t + z, n)
  {
  }

  /** The part of a filled buffer that holds `b` behind `a`. */
  lemma PadSlice(a: Bytes, b: Bytes, n: nat)
    requires |a| + |b| <= n
    ensures Pad(a + b, n)[|a|..|a| + |b|] == b && Pad(a + b, n)[..|a| + |b|] == a + b
  {
  }

  method Put(pkt: array<byte>, ghost done: Bytes, off: nat, s: Bytes)
    requires off == |done| && off + |s| <= pkt.Length && pkt[..] == Pad(done, pkt.Length)
    modifies pkt
    ensures pkt[..] == Pad(done + s, pkt.Length)
  {
    PadAppend(done, s, pkt.Length);
    CopyBytes(pkt, off, s);
  }

  /** Stores a 16-bit field through `htons`. */
  method Put16(pkt: array<byte>, ghost done: Bytes, off: nat, v: u16)
    requires off == |done| && off + 2 <= pkt.Length && pkt[..] == Pad(done, pkt.Length)
    modifies pkt
    ensures pkt[..] == Pad(done + BE16(v), pkt.Length)
  {
    SwapWord(v);
    PadAppend(done, BE16(v), pkt.Length);
    Store16(pkt, off, Htons(v));
  }

  /** Stores a 32-bit field through `htonl`. */
  method Put32(pkt: array<byte>, ghost done: Bytes, off: nat, v: u32)
    requires off == |done| && off + 4 <= pkt.Length && pkt[..] == Pad(done, pkt.Length)
    modifies pkt
    ensures pkt[..] == Pad(done + BE32(v), pkt.Length)
  {
    SwapDouble(v);
    PadAppend(done, BE32(v), pkt.Length);
    Store32(pkt, off, Htonl(v));
  }

  /** Stores an address, which is already in network order. */
  method PutAddress(pkt: array<byte>, ghost done: Bytes, off: nat, v: u32)
    requires off == |done| && off + 4 <= pkt.Length && pkt[..] == Pad(done, pkt.Length)
    modifies pkt
    ensures pkt[..] == Pad(done + LE32(v), pkt.Length)
  {
    PadAppend(done, LE32(v), pkt.Length);
    Store32(pkt, off, v);
  }

  /** Overwrites the 16-bit field between `x` and `z`, as it stands in memory. */
  method Patch16(pkt: array<byte>, ghost x: Bytes, ghost y: Bytes, ghost z: Bytes, off: nat, v: u16)
    requires off == |x| && |y| == 2 && off + 2 + |z| <= pkt.Length && pkt[..] == Pad(x + y + z, pkt.Length)
    modifies pkt
    ensures pkt[..] == Pad(x + LE16(v) + z, pkt.Length)
  {
    PadPatch(x, y, z, LE16(v), pkt.Length);
    Store16(pkt, off, v);
  }

  // ---------- Ethernet and IPv4 ----------

  method PutEth(pkt: array<byte>, dst: Mac, src: Mac, etherType: u16)
    requires pkt.Length >= 14 && pkt[..] == Pad([], pkt.Length)
    modifies pkt
    ensures pkt[..] == Pad(EthHeader(dst, src, etherType), pkt.Length)
  {
    hide Pad, BE16;
    Put(pkt, [], 0, dst);
    assert [] + dst == dst;
    Put(pkt, dst, 6, src);
    Put16(pkt, dst + src, 12, etherType);
  }

  ghost function Unsealed(dst: Mac, src: Mac, totLen: u16, id: u16, proto: byte, saddr: u32, daddr: u32): (r: Bytes)
    ensures |r| == 34
  {
    EthHeader(dst, src, ETHERTYPE_IPV4) + (IpFirst(totLen, id, proto) + [0, 0] + Addresses(saddr, daddr))
  }

  /** Ethernet and IPv4 headers, the header checksum still zero. */
  method PutIpv4(pkt: array<byte>, dst: Mac, src: Mac, totLen: u16, id: u16, proto: byte, saddr: u32, daddr: u32)
    requires pkt.Length >= 34 && pkt[..] == Pad([], pkt.Length)
    modifies pkt
    ensures pkt[..] == Pad(Unsealed(dst, src, totLen, id, proto, saddr, daddr), pkt.Length)
  {
    hide Pad, BE16, LE32, EthHeader;
    ghost var eth := EthHeader(dst, src, ETHERTYPE_IPV4);
    PutEth(pkt, dst, src, ETHERTYPE_IPV4);
    Put(pkt, eth, 14, [0x45, 0]);
    Put16(pkt, eth + [0x45, 0], 16, totLen);
    Put16(pkt, eth + [0x45, 0] + BE16(totLen), 18, id);
    ghost var done := eth + [0x45, 0] + BE16(totLen) + BE16(id);
    Put(pkt, done, 20, [0, 0, 64, proto]);
    PadSkip(done + [0, 0, 64, proto], 2, pkt.Length);
    done := done + [0, 0, 64, proto] + Zeros(2);
    PutAddress(pkt, done, 26, saddr);
    PutAddress(pkt, done + LE32(saddr), 30, daddr);
    assert done + LE32(saddr) + LE32(daddr) == Unsealed(dst, src, totLen, id, proto, saddr, daddr);
  }

  /** Computes and stores the header checksum; `rest` is what stands behind the header. */
  method SealIpv4(pkt: array<byte>, ghost dst: Mac, ghost src: Mac, ghost totLen: u16, ghost id: u16, ghost proto: byte,
                  ghost saddr: u32, ghost daddr: u32, ghost rest: Bytes)
    requires 34 + |rest| <= pkt.Length
    requires pkt[..] == Pad(Unsealed(dst, src, totLen, id, proto, saddr, daddr) + rest, pkt.Length)
    modifies pkt
    ensures pkt[..] == Pad(EthHeader(dst, src, ETHERTYPE_IPV4) + Ipv4Header(totLen, id, proto, saddr, daddr) + rest,
      pkt.Length)
  {
    hide Pad, Cksum, EthHeader, IpFirst, Addresses;
    ghost var eth, first, last := EthHeader(dst, src, ETHERTYPE_IPV4), IpFirst(totLen, id, proto),
      Addresses(saddr, daddr);
    var c := Checksum(pkt, 14, 20);
    assert pkt[14..34] == first + [0, 0] + last
      by { HeaderSlice(eth, first + [0, 0] + last, rest, pkt.Length); assert pkt[14..34] == pkt[..][14..34]; }
    assert Unsealed(dst, src, totLen, id, proto, saddr, daddr) + rest == (eth + first) + [0, 0] + (last + rest);
    Patch16(pkt, eth + first, [0, 0], last + rest, 24, c);
    assert (eth + first) + LE16(c) + (last + rest) == eth + (first + LE16(c) + last) + rest;
  }

  lemma HeaderSlice(a: Bytes, b: Bytes, rest: Bytes, n: nat)
    requires |a| + |b| + |rest| <= n
    ensures Pad(a + b + rest, n)[|a|..|a| + |b|] == b
  {
  }

  /** Ethernet and sealed IPv4 headers in a zeroed buffer. */
  method PutSealedIpv4(pkt: array<byte>, dst: Mac, src: Mac, totLen: u16, id: u16, proto: byte, saddr: u32, daddr: u32)
    requires pkt.Length >= 34 && pkt[..] == Pad([], pkt.Length)
    modifies pkt
    ensures pkt[..] == Pad(EthHeader(dst, src, ETHERTYPE_IPV4) + Ipv4Header(totLen, id, proto, saddr, daddr),
      pkt.Length)
  {
    hide Pad, EthHeader, Ipv4Header, Unsealed;
    PutIpv4(pkt, dst, src, totLen, id, proto, saddr, daddr);
    ghost var u := Unsealed(dst, src, totLen, id, proto, saddr, daddr);
    assert u + [] == u;
    SealIpv4(pkt, dst, src, totLen, id, proto, saddr, daddr, []);
    ghost var head := EthHeader(dst, src, ETHERTYPE_IPV4) + Ipv4Header(totLen, id, proto, saddr, daddr);
    assert head + [] == head;
  }

  // ---------- transport ----------

  /** Checksum of the body behind the headers, with the pseudo-header. */
  method BodyChecksum(pkt: array<byte>, saddr: u32, daddr: u32, proto: byte, len: u16, ghost head: Bytes,
    ghost body: Bytes) returns (c: u16)
    requires |head| == 34 && |body| == len && 34 + len <= pkt.Length && pkt[..] == Pad(head + body, pkt.Length)
    ensures c == Cksum(PseudoHeader(saddr, daddr, proto, len) + body)
  {
    c := PseudoChecksum(saddr, daddr, proto, pkt, 34, len);
    PadSlice(head, body, pkt.Length);
    assert pkt[34..34 + len] == pkt[..][34..34 + len] == body;
  }

  /** `core::send_tcp_internal`. */
  method BuildTcp(dst: Mac, src: Mac, id: u16, saddr: u32, daddr: u32, sport: u16, dport: u16, flags: byte, seqNo: u32,
    ack: u32, data: Bytes)
    returns (pkt: array<byte>)
    requires flags < 64 && 54 + |data| <= MAX_PKT_SIZE
    ensures fresh(pkt) && 54 + |data| <= pkt.Length
    ensures pkt[..54 + |data|] == Ipv4Frame(dst, src, id, PROTO_TCP, saddr, daddr,
      TcpBytes(saddr, daddr, sport, dport, flags, seqNo, ack, data))
  {
    hide Pad, BE16, BE32, LE16, Cksum, EthHeader, Ipv4Header, Unsealed, PseudoHeader;
    pkt := new byte[MAX_PKT_SIZE](_ => 0);
    ghost var n: nat := pkt.Length;
    ZeroedPad(pkt[..]);
    PutSealedIpv4(pkt, dst, src, 40 + |data|, id, PROTO_TCP, saddr, daddr);
    ghost var head := EthHeader(dst, src, ETHERTYPE_IPV4) + Ipv4Header(40 + |data|, id, PROTO_TCP, saddr, daddr);
    PutTcpFirst(pkt, head, sport, dport, flags, seqNo, ack);
    ghost var first := TcpFirst(sport, dport, flags, seqNo, ack);
    PadSkip(head + first, 4, n);
    Put(pkt, head + first + Zeros(4), 54, data);
    ghost var body := first + [0, 0] + ([0, 0] + data);
    assert head + first + Zeros(4) + data == head + body;
    var c := BodyChecksum(pkt, saddr, daddr, PROTO_TCP, 20 + |data|, head, body);
    assert head + body == (head + first) + [0, 0] + ([0, 0] + data);
    Patch16(pkt, head + first, [0, 0], [0, 0] + data, 50, c);
    ghost var sealed := first + LE16(c) + ([0, 0] + data);
    assert (head + first) + LE16(c) + ([0, 0] + data) == head + sealed;
    PadSlice(head, sealed, n);
    assert pkt[..54 + |data|] == pkt[..][..54 + |data|];
  }

  lemma ZeroedPad(b: Bytes)
    requires forall i :: 0 <= i < |b| ==> b[i] == 0
    ensures b == Pad([], |b|)
  {
  }

  method PutTcpFirst(pkt: array<byte>, ghost head: Bytes, sport: u16, dport: u16, flags: byte, seqNo: u32, ack: u32)
    requires flags < 64 && |head| == 34 && pkt.Length >= 50 && pkt[..] == Pad(head, pkt.Length)
    modifies pkt
    ensures pkt[..] == Pad(head + TcpFirst(sport, dport, flags, seqNo, ack), pkt.Length)
  {
    hide Pad, BE16, BE32;
    Put16(pkt, head, 34, sport);
    Put16(pkt, head + BE16(sport), 36, dport);
    Put32(pkt, head + BE16(sport) + BE16(dport), 38, seqNo);
    Put32(pkt, head + BE16(sport) + BE16(dport) + BE32(seqNo), 42, ack);
    ghost var done := head + BE16(sport) + BE16(dport) + BE32(seqNo) + BE32(ack);
    Put16(pkt, done, 46, 0x5000 + flags);
    Put16(pkt, done + BE16(0x5000 + flags), 48, 0x2000);
    assert done + BE16(0x5000 + flags) + BE16(0x2000) == head + TcpFirst(sport, dport, flags, seqNo, ack);
  }

  method PutUdpFirst(pkt: array<byte>, ghost head: Bytes, sport: u16, dport: u16, len: u16)
    requires |head| == 34 && pkt.Length >= 40 && pkt[..] == Pad(head, pkt.Length)
    modifies pkt
    ensures pkt[..] == Pad(head + UdpFirst(sport, dport, len), pkt.Length)
  {
    hide Pad, BE16;
    Put16(pkt, head, 34, sport);
    Put16(pkt, head + BE16(sport), 36, dport);
    Put16(pkt, head + BE16(sport) + BE16(dport), 38, len);
    assert head + BE16(sport) + BE16(dport) + BE16(len) == head + UdpFirst(sport, dport, len);
  }

  /** Computes and stores the UDP checksum, 0xFFFF standing for a computed zero. */
  method SealUdp(pkt: array<byte>, saddr: u32, daddr: u32, len: u16, ghost head: Bytes, ghost first: Bytes,
    ghost data: Bytes)
    requires |head| == 34 && |first| == 6 && FitsUdp(data) && len == 8 + |data| && 34 + len <= pkt.Length
    requires pkt[..] == Pad(head + (first + [0, 0] + data), pkt.Length)
    modifies pkt
    ensures pkt[..34 + len] == head + (first + LE16(UdpCheck(saddr, daddr, first, data)) + data)
  {
    hide Pad, Cksum, PseudoHeader;
    var c := BodyChecksum(pkt, saddr, daddr, PROTO_UDP, len, head, first + [0, 0] + data);
    if c == 0 { c := 0xFFFF; }
    assert head + (first + [0, 0] + data) == (head + first) + [0, 0] + data;
    Patch16(pkt, head + first, [0, 0], data, 40, c);
    assert (head + first) + LE16(c) + data == head + (first + LE16(c) + data);
    PadSlice(head, first + LE16(c) + data, pkt.Length);
    assert pkt[..34 + len] == pkt[..][..34 + len];
  }

  /** `core::send_udp`. */
  method BuildUdp(dst: Mac, src: Mac, id: u16, saddr: u32, daddr: u32, sport: u16, dport: u16, data: Bytes)
    returns (pkt: array<byte>)
    requires 42 + |data| <= MAX_PKT_SIZE
    ensures fresh(pkt) && 42 + |data| <= pkt.Length
    ensures pkt[..42 + |data|] == Ipv4Frame(dst, src, id, PROTO_UDP, saddr, daddr,
      UdpDatagram(saddr, daddr, sport, dport, data))
  {
    hide Pad, BE16, LE16, Cksum, EthHeader, Ipv4Header, Unsealed, UdpCheck, UdpFirst;
    pkt := new byte[MAX_PKT_SIZE](_ => 0);
    ZeroedPad(pkt[..]);
    PutSealedIpv4(pkt, dst, src, 28 + |data|, id, PROTO_UDP, saddr, daddr);
    ghost var head := EthHeader(dst, src, ETHERTYPE_IPV4) + Ipv4Header(28 + |data|, id, PROTO_UDP, saddr, daddr);
    PutUdpFirst(pkt, head, sport, dport, 8 + |data|);
    ghost var first := UdpFirst(sport, dport, 8 + |data|);
    PadSkip(head + first, 2, pkt.Length);
    Put(pkt, head + first + Zeros(2), 42, data);
    assert head + first + Zeros(2) + data == head + (first + [0, 0] + data);
    SealUdp(pkt, saddr, daddr, 8 + |data|, head, first, data);
  }

  // ---------- ICMP ----------

  /** Computes and stores the checksum of an ICMP message behind the headers. */
  method SealIcmp(pkt: array<byte>, len: nat, ghost head: Bytes, ghost first: Bytes, ghost rest: Bytes)
    requires |head| == 34 && |first| == 2 && len == 4 + |rest| && 34 + len <= pkt.Length && len <= 131074
    requires pkt[..] == Pad(head + (first + [0, 0] + rest), pkt.Length)
    modifies pkt
    ensures pkt[..34 + len] == head + Sealed(first, rest)
  {
    hide Pad, Cksum;
    var c := Checksum(pkt, 34, len);
    ghost var body := first + [0, 0] + rest;
    PadSlice(head, body, pkt.Length);
    assert pkt[34..34 + len] == pkt[..][34..34 + len] == body;
    assert head + body == (head + first) + [0, 0] + rest;
    Patch16(pkt, head + first, [0, 0], rest, 36, c);
    assert (head + first) + LE16(c) + rest == head + (first + LE16(c) + rest);
    PadSlice(head, first + LE16(c) + rest, pkt.Length);
    assert pkt[..34 + len] == pkt[..][..34 + len];
  }

  /** `core::send_icmp_echo`: 32 bytes of counting payload. */
  method BuildEcho(dst: Mac, src: Mac, id: u16, saddr: u32, daddr: u32, echoId: u16, seqNo: u16)
    returns (pkt: array<byte>)
    ensures fresh(pkt) && pkt.Length == 74
    ensures pkt[..] == Ipv4Frame(dst, src, id, PROTO_ICMP, saddr, daddr,
      IcmpMessage(ECHO_REQUEST, 0, PingRest(echoId, seqNo)))
  {
    hide Pad, BE16, Cksum, EthHeader, Ipv4Header, Sealed, PingPattern;
    pkt := new byte[74](_ => 0);
    ZeroedPad(pkt[..]);
    PutSealedIpv4(pkt, dst, src, 60, id, PROTO_ICMP, saddr, daddr);
    ghost var head := EthHeader(dst, src, ETHERTYPE_IPV4) + Ipv4Header(60, id, PROTO_ICMP, saddr, daddr);
    Put(pkt, head, 34, [ECHO_REQUEST, 0]);
    PadSkip(head + [ECHO_REQUEST, 0], 2, pkt.Length);
    ghost var done := head + [ECHO_REQUEST, 0] + Zeros(2);
    Put16(pkt, done, 38, echoId);
    Put16(pkt, done + BE16(echoId), 40, seqNo);
    done := done + BE16(echoId) + BE16(seqNo);
    FillPattern(pkt, done);
    assert done + PingPattern() == head + ([ECHO_REQUEST, 0] + [0, 0] + PingRest(echoId, seqNo));
    SealIcmp(pkt, 40, head, [ECHO_REQUEST, 0], PingRest(echoId, seqNo));
    assert pkt[..] == pkt[..74];
  }

  method FillPattern(pkt: array<byte>, ghost done: Bytes)
    requires |done| == 42 && pkt.Length == 74 && pkt[..] == Pad(done, 74)
    modifies pkt
    ensures pkt[..] == Pad(done + PingPattern(), 74)
  {
    hide Pad;
    var i := 0;
    assert done + PingPattern()[..0] == done;
    while i < 32
      invariant 0 <= i <= 32 && pkt[..] == Pad(done + PingPattern()[..i], 74)
    {
      Put(pkt, done + PingPattern()[..i], 42 + i, [i]);
      assert done + PingPattern()[..i] + [i] == done + PingPattern()[..i + 1];
      i := i + 1;
    }
    assert PingPattern()[..32] == PingPattern();
  }

  /** The reply branch of `core::handle_icmp`: the message received is copied, its type rewritten and
    * its checksum cleared and recomputed. */
  method BuildEchoReply(dst: Mac, src: Mac, id: u16, saddr: u32, daddr: u32, msg: Bytes) returns (pkt: array<byte>)
    requires 34 + |msg| <= MAX_PKT_SIZE && (|msg| > 1 ==> msg[1] == 0)
    ensures fresh(pkt) && 34 + |msg| <= pkt.Length
    ensures pkt[..34 + |msg|] == Ipv4Frame(dst, src, id, PROTO_ICMP, saddr, daddr, EchoReplyBody(msg))
  {
    hide Pad, Cksum, EthHeader, Ipv4Header;
    pkt := new byte[MAX_PKT_SIZE](_ => 0);
    ZeroedPad(pkt[..]);
    PutSealedIpv4(pkt, dst, src, 20 + |msg|, id, PROTO_ICMP, saddr, daddr);
    ghost var head := EthHeader(dst, src, ETHERTYPE_IPV4) + Ipv4Header(20 + |msg|, id, PROTO_ICMP, saddr, daddr);
    Put(pkt, head, 34, msg);
    PadBytes(head, msg, pkt.Length);
    WriteEchoReply(pkt, head, msg);
    assert pkt[..34 + |msg|] == head + EchoReplyBody(msg);
  }

  /** What stands in a filled buffer: both parts, then zeros. */
  lemma PadBytes(a: Bytes, b: Bytes, n: nat)
    requires |a| + |b| <= n
    ensures Pad(a + b, n)[..|a|] == a && Pad(a + b, n)[|a|..|a| + |b|] == b
    ensures forall i :: |a| + |b| <= i < n ==> Pad(a + b, n)[i] == 0
  {
  }

  /** Rewrites the message at offset 34, as much of it as there is. */
  method WriteEchoReply(pkt: array<byte>, ghost head: Bytes, msg: Bytes)
    requires |head| == 34 && pkt.Length == MAX_PKT_SIZE && 34 + |msg| <= pkt.Length && (|msg| > 1 ==> msg[1] == 0)
    requires pkt[..34] == head && pkt[34..34 + |msg|] == msg && forall i :: 34 + |msg| <= i < pkt.Length ==> pkt[i] == 0
    modifies pkt
    ensures pkt[..34] == head && pkt[34..34 + |msg|] == EchoReplyBody(msg)
  {
    hide Cksum;
    ghost var was, rest := pkt[..], msg[Min(4, |msg|)..];
    CopyBytes(pkt, 34, [ECHO_REPLY]);
    Store16(pkt, 36, 0);
    EchoCleared(was, head, msg);
    assert pkt[34..34 + |msg|] == pkt[..][34..34 + |msg|];
    ghost var cleared := pkt[..];
    var c := Checksum(pkt, 34, |msg|);
    Store16(pkt, 36, c);
    EchoSealed(cleared, head, msg, c);
    assert pkt[34..34 + |msg|] == pkt[..][34..34 + |msg|] && pkt[..34] == pkt[..][..34];
  }

  /** A buffer of 1500 bytes with `head`, then `part`, then anything. */
  predicate Holds(b: Bytes, head: Bytes, part: Bytes) {
    && |head| == 34 && |b| == MAX_PKT_SIZE && 34 + |part| <= MAX_PKT_SIZE
    && b[..34] == head && b[34..34 + |part|] == part
  }

  lemma EchoCleared(b: Bytes, head: Bytes, msg: Bytes)
    requires Holds(b, head, msg) && (|msg| > 1 ==> msg[1] == 0)
    requires forall i :: 34 + |msg| <= i < |b| ==> b[i] == 0
    ensures var c := Splice(Splice(b, 34, [ECHO_REPLY]), 36, LE16(0));
      Holds(c, head, ([ECHO_REPLY, 0, 0, 0] + msg[Min(4, |msg|)..])[..|msg|])
  {
    var c, part := Splice(Splice(b, 34, [ECHO_REPLY]), 36, LE16(0)), [ECHO_REPLY, 0, 0, 0] + msg[Min(4, |msg|)..];
    forall i | 0 <= i < |msg| ensures c[34 + i] == part[i] {
      assert b[34 + i] == b[34..34 + |msg|][i];
    }
    assert c[34..34 + |msg|] == part[..|msg|];
    assert c[..34] == b[..34];
  }

  lemma EchoSealed(b: Bytes, head: Bytes, msg: Bytes, c: u16)
    requires Holds(b, head, ([ECHO_REPLY, 0, 0, 0] + msg[Min(4, |msg|)..])[..|msg|])
    ensures Holds(Splice(b, 36, LE16(c)), head, ([ECHO_REPLY, 0] + LE16(c) + msg[Min(4, |msg|)..])[..|msg|])
  {
    var was, part := [ECHO_REPLY, 0, 0, 0] + msg[Min(4, |msg|)..], [ECHO_REPLY, 0] + LE16(c) + msg[Min(4, |msg|)..];
    var d := Splice(b, 36, LE16(c));
    hide LE16;
    forall i | 0 <= i < |msg| ensures d[34 + i] == part[i] {
      assert b[34 + i] == was[..|msg|][i] by { assert b[34 + i] == b[34..34 + |msg|][i]; }
    }
    assert d[34..34 + |msg|] == part[..|msg|];
    assert d[..34] == b[..34];
  }

  // ---------- ARP ----------

  /** `protocols::arp_request` and the reply of `core::handle_arp`. */
  method BuildArp(dst: Mac, oper: u16, sha: Mac, spa: u32, tha: Mac, tpa: u32) returns (pkt: array<byte>)
    ensures fresh(pkt) && pkt.Length == 60 && pkt[..42] == ArpFrame(dst, oper, sha, spa, tha, tpa)
  {
    hide Pad, EthHeader, LE32;
    pkt := new byte[60](_ => 0);
    ZeroedPad(pkt[..]);
    PutEth(pkt, dst, sha, ETHERTYPE_ARP);
    ghost var done := EthHeader(dst, sha, ETHERTYPE_ARP);
    Put16(pkt, done, 14, 1);
    Put16(pkt, done + BE16(1), 16, ETHERTYPE_IPV4);
    Put(pkt, done + BE16(1) + BE16(ETHERTYPE_IPV4), 18, [6, 4]);
    assert done + BE16(1) + BE16(ETHERTYPE_IPV4) + [6, 4] == done + [0, 1, 8, 0, 6, 4];
    done := done + [0, 1, 8, 0, 6, 4];
    hide BE16;
    Put16(pkt, done, 20, oper);
    Put(pkt, done + BE16(oper), 22, sha);
    PutAddress(pkt, done + BE16(oper) + sha, 28, spa);
    done := done + BE16(oper) + sha + LE32(spa);
    Put(pkt, done, 32, tha);
    PutAddress(pkt, done + tha, 38, tpa);
    ghost var f := ArpFrame(dst, oper, sha, spa, tha, tpa);
    assert done + tha + LE32(tpa) == f;
    PadSlice([], f, 60);
    assert [] + f == f && pkt[..42] == pkt[..][..42];
  }

  // ---------- DHCP ----------

  /** `protocols::send_dhcp`. */
  method BuildDhcp(kind: byte, xid: u32, mac: Mac, ip: u32, server: u32) returns (pkt: array<byte>)
    ensures fresh(pkt) && pkt.Length == 600 && pkt[..582] == DhcpFrame(kind, xid, mac, ip, server)
  {
    hide Pad, EthHeader, Ipv4Header, UdpFirst, DhcpFixed, OptionField;
    pkt := new byte[600](_ => 0);
    ZeroedPad(pkt[..]);
    PutSealedIpv4(pkt, BROADCAST_MAC, mac, 568, 1, PROTO_UDP, 0, BROADCAST_IP);
    ghost var head := EthHeader(BROADCAST_MAC, mac, ETHERTYPE_IPV4) + Ipv4Header(568, 1, PROTO_UDP, 0, BROADCAST_IP);
    PutUdpFirst(pkt, head, PORT_DHCP_CLIENT, PORT_DHCP_SERVER, 548);
    ghost var udp := UdpFirst(PORT_DHCP_CLIENT, PORT_DHCP_SERVER, 548);
    PadSkip(head + udp, 2, 600);
    PutDhcpFixed(pkt, head + udp + Zeros(2), xid, mac);
    ghost var done, field := head + udp + Zeros(2) + DhcpFixed(xid, mac), OptionField(kind, ip, server);
    PadAppend(done, field, 600);
    WriteOptions(pkt, 282, kind, ip, server);
    PadSkip(done + field, 300 - |field|, 600);
    ghost var f := DhcpFrame(kind, xid, mac, ip, server);
    assert done + field + Zeros(300 - |field|) == f;
    PadSlice([], f, 600);
    assert [] + f == f && pkt[..582] == pkt[..][..582];
  }

  method PutDhcpFixed(pkt: array<byte>, ghost head: Bytes, xid: u32, mac: Mac)
    requires |head| == 42 && pkt.Length == 600 && pkt[..] == Pad(head, 600)
    modifies pkt
    ensures pkt[..] == Pad(head + DhcpFixed(xid, mac), 600)
  {
    hide Pad, BE16, BE32;
    Put(pkt, head, 42, [1, 1, 6]);
    PadSkip(head + [1, 1, 6], 1, 600);
    ghost var done := head + [1, 1, 6] + Zeros(1);
    Put32(pkt, done, 46, xid);
    PadSkip(done + BE32(xid), 2, 600);
    done := done + BE32(xid) + Zeros(2);
    Put16(pkt, done, 52, 0x8000);
    PadSkip(done + BE16(0x8000), 16, 600);
    done := done + BE16(0x8000) + Zeros(16);
    Put(pkt, done, 70, mac);
    PadSkip(done + mac, 202, 600);
    done := done + mac + Zeros(202);
    Put32(pkt, done, 278, DHCP_MAGIC);
    assert done + BE32(DHCP_MAGIC) == head + DhcpFixed(xid, mac);
  }

  // ---------- DNS ----------

  /** `protocols::dns_query`: both length fields and both checksums are patched once the encoded name
    * has told how long the message is. */
  method BuildDns(dst: Mac, src: Mac, id: u16, saddr: u32, daddr: u32, sport: u16, dnsId: u16, host: Bytes)
    returns (pkt: array<byte>)
    requires |host| <= 540
    ensures fresh(pkt) && pkt.Length == 600
    ensures pkt[..60 + |host|] == Ipv4Frame(dst, src, id, PROTO_UDP, saddr, daddr,
      UdpDatagram(saddr, daddr, sport, PORT_DNS, DnsQuery(dnsId, host)))
  {
    hide Pad, BE16, LE16, Cksum, EthHeader, Ipv4Header, Unsealed, UdpCheck, Dns.QName, DnsQuery;
    pkt := new byte[600](_ => 0);
    ZeroedPad(pkt[..]);
    PutIpv4(pkt, dst, src, 0, id, PROTO_UDP, saddr, daddr);
    ghost var u := Unsealed(dst, src, 0, id, PROTO_UDP, saddr, daddr);
    PutUdpFirst(pkt, u, sport, PORT_DNS, 0);
    PadSkip(u + UdpFirst(sport, PORT_DNS, 0), 2, 600);
    var dnsLen := PutQuery(pkt, u + UdpFirst(sport, PORT_DNS, 0) + Zeros(2), dnsId, host);
    ghost var data := DnsQuery(dnsId, host);
    PatchUdpLen(pkt, 8 + dnsLen, u, sport, PORT_DNS, data);
    ghost var first := UdpFirst(sport, PORT_DNS, 8 + dnsLen);
    PatchTotLen(pkt, 28 + dnsLen, dst, src, id, PROTO_UDP, saddr, daddr, first + [0, 0] + data);
    SealIpv4(pkt, dst, src, 28 + dnsLen, id, PROTO_UDP, saddr, daddr, first + [0, 0] + data);
    ghost var head := EthHeader(dst, src, ETHERTYPE_IPV4) + Ipv4Header(28 + dnsLen, id, PROTO_UDP, saddr, daddr);
    SealUdp(pkt, saddr, daddr, 8 + dnsLen, head, first, data);
  }

  method PutQuery(pkt: array<byte>, ghost head: Bytes, dnsId: u16, host: Bytes) returns (dnsLen: nat)
    requires |head| == 42 && pkt.Length == 600 && |host| <= 540 && pkt[..] == Pad(head, 600)
    modifies pkt
    ensures dnsLen == |host| + 18 && pkt[..] == Pad(head + DnsQuery(dnsId, host), 600)
  {
    Dns.QNameLength(host);
    hide Pad, Dns.QName;
    Put16(pkt, head, 42, dnsId);
    Put16(pkt, head + BE16(dnsId), 44, 0x0100);
    Put16(pkt, head + BE16(dnsId) + BE16(0x0100), 46, 1);
    ghost var done := head + BE16(dnsId) + BE16(0x0100) + BE16(1);
    PadSkip(done, 6, 600);
    done := done + Zeros(6);
    assert done == head + (BE16(dnsId) + [1, 0, 0, 1, 0, 0, 0, 0, 0, 0]);
    PadAppend(done, Dns.QName(host), 600);
    var qname := Dns.EncodeName(pkt, 54, host);
    Put(pkt, done + Dns.QName(host), qname, [0, Dns.TYPE_A]);
    Put(pkt, done + Dns.QName(host) + [0, Dns.TYPE_A], qname + 2, [0, Dns.CLASS_IN]);
    assert done + Dns.QName(host) + [0, Dns.TYPE_A] + [0, Dns.CLASS_IN] == head + DnsQuery(dnsId, host);
    dnsLen := qname + 4 - 42;
  }

  method PatchUdpLen(pkt: array<byte>, len: u16, ghost u: Bytes, ghost sport: u16, ghost dport: u16, ghost data: Bytes)
    requires |u| == 34 && 42 + |data| <= pkt.Length
    requires pkt[..] == Pad(u + UdpFirst(sport, dport, 0) + Zeros(2) + data, pkt.Length)
    modifies pkt
    ensures pkt[..] == Pad(u + (UdpFirst(sport, dport, len) + [0, 0] + data), pkt.Length)
  {
    SwapWord(len);
    hide Pad, BE16, LE16;
    ghost var x := u + BE16(sport) + BE16(dport);
    assert u + UdpFirst(sport, dport, 0) + Zeros(2) + data == x + BE16(0) + ([0, 0] + data);
    Patch16(pkt, x, BE16(0), [0, 0] + data, 38, Htons(len));
    assert x + BE16(len) + ([0, 0] + data) == u + (UdpFirst(sport, dport, len) + [0, 0] + data);
  }

  method PatchTotLen(pkt: array<byte>, totLen: u16, ghost dst: Mac, ghost src: Mac, ghost id: u16, ghost proto: byte,
                     ghost saddr: u32, ghost daddr: u32, ghost rest: Bytes)
    requires 34 + |rest| <= pkt.Length
    requires pkt[..] == Pad(Unsealed(dst, src, 0, id, proto, saddr, daddr) + rest, pkt.Length)
    modifies pkt
    ensures pkt[..] == Pad(Unsealed(dst, src, totLen, id, proto, saddr, daddr) + rest, pkt.Length)
  {
    SwapWord(totLen);
    hide Pad, BE16, LE16, EthHeader, Addresses;
    ghost var x := EthHeader(dst, src, ETHERTYPE_IPV4) + [0x45, 0];
    ghost var z := BE16(id) + [0, 0, 64, proto] + [0, 0] + Addresses(saddr, daddr) + rest;
    assert Unsealed(dst, src, 0, id, proto, saddr, daddr) + rest == x + BE16(0) + z;
    Patch16(pkt, x, BE16(0), z, 16, Htons(totLen));
    assert x + BE16(totLen) + z == Unsealed(dst, src, totLen, id, proto, saddr, daddr) + rest;
  }
}
