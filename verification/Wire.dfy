/** What a frame says, read from its bytes: a decoder of the stack's own output, written from the layouts
  * of RFC 826, 791, 792, 768, 793 and 951 and not from the builders. `Frames.Verifies` says that a frame
  * is well-formed, `Decode` what it carries and to whom. */
module Wire {
  import opened Words
  import opened NetMath
  import opened Frames

  datatype Packet =
    | ArpMessage(dst: Mac, src: Mac, oper: u16, sha: Mac, spa: u32, tha: Mac, tpa: u32)
    | IpPacket(dst: Mac, src: Mac, id: u16, saddr: u32, daddr: u32, part: Part)
    | Unknown

  datatype Part =
    | IcmpPart(kind: byte, code: byte, rest: Bytes)
    | UdpPart(sport: u16, dport: u16, data: Bytes)
    | TcpPart(sport: u16, dport: u16, seqNo: u32, ack: u32, flags: byte, window: u16, data: Bytes)
    | Malformed

  /** An IPv4 frame must have a plain header of routine service, be no fragment and have 64 hops to live. */
  function Decode(f: Bytes): Packet {
    if |f| == 42 && Be16At(f, 12) == ETHERTYPE_ARP then
      ArpMessage(f[0..6], f[6..12], Be16At(f, 20), f[22..28], Le32At(f, 28), f[32..38], Le32At(f, 38))
    else if |f| >= 34 && Be16At(f, 12) == ETHERTYPE_IPV4 && f[14] == 0x45 && f[15] == 0 && Be16At(f, 20) == 0 &&
            f[22] == 64 then
      IpPacket(f[0..6], f[6..12], Be16At(f, 18), Le32At(f, 26), Le32At(f, 30), PartOf(f[23], f[34..]))
    else Unknown
  }

  function PartOf(proto: byte, d: Bytes): Part {
    if proto == PROTO_ICMP && |d| >= 4 then IcmpPart(d[0], d[1], d[4..])
    else if proto == PROTO_UDP && |d| >= 8 then UdpPart(Be16At(d, 0), Be16At(d, 2), d[8..])
    else if proto == PROTO_TCP && |d| >= 20 && 20 <= d[12] / 16 * 4 <= |d| then
      TcpPart(Be16At(d, 0), Be16At(d, 2), Be32At(d, 4), Be32At(d, 8), Be16At(d, 12) % 64, Be16At(d, 14),
              d[d[12] / 16 * 4..])
    else Malformed
  }

  // ---------- what the builders' frames say ----------

  lemma EthFields(dst: Mac, src: Mac, etherType: u16)
    ensures var e := EthHeader(dst, src, etherType); e[0..6] == dst && e[6..12] == src && Be16At(e, 12) == etherType
  {
    SwapWord(etherType);
  }

  lemma IpHeaderFields(totLen: u16, id: u16, proto: byte, saddr: u32, daddr: u32)
    ensures var h := Ipv4Header(totLen, id, proto, saddr, daddr);
      h[1] == 0 && Be16At(h, 4) == id && Be16At(h, 6) == 0 && h[8] == 64
  {
    SwapWord(id);
  }

  lemma IpDecoded(dst: Mac, src: Mac, id: u16, proto: byte, saddr: u32, daddr: u32, body: Bytes)
    requires FitsIp(body)
    ensures Decode(Ipv4Frame(dst, src, id, proto, saddr, daddr, body)) ==
      IpPacket(dst, src, id, saddr, daddr, PartOf(proto, body))
  {
    hide PartOf, Ipv4Header, EthHeader, At, Be16At, Le32At;
    var f := Ipv4Frame(dst, src, id, proto, saddr, daddr, body);
    var eth, head := EthHeader(dst, src, ETHERTYPE_IPV4), Ipv4Header(20 + |body|, id, proto, saddr, daddr);
    WholeAt(f);
    Ipv4Fields(f, dst, src, id, proto, saddr, daddr, body);
    EthFields(dst, src, ETHERTYPE_IPV4);
    IpHeaderFields(20 + |body|, id, proto, saddr, daddr);
    AtWord(f, 14, head, 1);
    AtWord(f, 14, head, 4);
    AtWord(f, 14, head, 6);
    AtWord(f, 14, head, 8);
    assert f[0..6] == eth[0..6] && f[6..12] == eth[6..12] && f[34..] == body;
  }

  lemma IcmpDecoded(kind: byte, code: byte, rest: Bytes)
    ensures PartOf(PROTO_ICMP, IcmpMessage(kind, code, rest)) == IcmpPart(kind, code, rest)
  {
    hide Cksum;
    assert IcmpMessage(kind, code, rest)[4..] == rest;
  }

  lemma UdpDecoded(saddr: u32, daddr: u32, sport: u16, dport: u16, data: Bytes)
    requires FitsUdp(data)
    ensures PartOf(PROTO_UDP, UdpDatagram(saddr, daddr, sport, dport, data)) == UdpPart(sport, dport, data)
  {
    hide UdpCheck;
    var d := UdpDatagram(saddr, daddr, sport, dport, data);
    SwapWord(sport);
    SwapWord(dport);
    assert Be16At(d, 0) == Be16At(BE16(sport), 0) && Be16At(d, 2) == Be16At(BE16(dport), 0);
    assert d[8..] == data;
  }

  lemma TcpDecoded(saddr: u32, daddr: u32, sport: u16, dport: u16, flags: byte, seqNo: u32, ack: u32, data: Bytes)
    requires flags < 64 && FitsTcp(data)
    ensures PartOf(PROTO_TCP, TcpBytes(saddr, daddr, sport, dport, flags, seqNo, ack, data)) ==
      TcpPart(sport, dport, seqNo, ack, flags, 0x2000, data)
  {
    hide At, TcpCheck, TcpFirst, Be16At, Be32At;
    var d, first := TcpBytes(saddr, daddr, sport, dport, flags, seqNo, ack, data),
                    TcpFirst(sport, dport, flags, seqNo, ack);
    assert d == first + (LE16(TcpCheck(saddr, daddr, first, data)) + ([0, 0] + data));
    WholeAt(d);
    AtSplit(d, 0, first, LE16(TcpCheck(saddr, daddr, first, data)) + ([0, 0] + data));
    FirstFields(d, 0, sport, dport, flags, seqNo, ack);
    assert d[20..] == data;
  }

  /** The fields of a TCP header found at `p`. */
  lemma FirstFields(b: Bytes, p: nat, sport: u16, dport: u16, flags: byte, seqNo: u32, ack: u32)
    requires flags < 64 && At(b, p, TcpFirst(sport, dport, flags, seqNo, ack))
    ensures |b| >= p + 16 && Be16At(b, p) == sport && Be16At(b, p + 2) == dport
    ensures Be32At(b, p + 4) == seqNo && Be32At(b, p + 8) == ack
    ensures b[p + 12] == 0x50 && Be16At(b, p + 12) == 0x5000 + flags && Be16At(b, p + 14) == 0x2000
  {
    hide At, BE16, BE32, Be16At, Be32At;
    var numbers, last := BE32(seqNo) + BE32(ack), BE16(0x5000 + flags) + BE16(0x2000);
    assert TcpFirst(sport, dport, flags, seqNo, ack) == BE16(sport) + (BE16(dport) + (numbers + last));
    AtSplit(b, p, BE16(sport), BE16(dport) + (numbers + last));
    AtSplit(b, p + 2, BE16(dport), numbers + last);
    AtSplit(b, p + 4, numbers, last);
    AtSplit(b, p + 4, BE32(seqNo), BE32(ack));
    AtSplit(b, p + 12, BE16(0x5000 + flags), BE16(0x2000));
    ReadWord(b, p, sport);
    ReadWord(b, p + 2, dport);
    ReadDouble(b, p + 4, seqNo);
    ReadDouble(b, p + 8, ack);
    ReadWord(b, p + 12, 0x5000 + flags);
    ReadWord(b, p + 14, 0x2000);
    HighByte(b, p + 12);
  }

  lemma HighByte(d: Bytes, i: nat)
    requires i + 2 <= |d|
    ensures d[i] == Be16At(d, i) / 0x100
  {
  }

  lemma ArpDecoded(dst: Mac, oper: u16, sha: Mac, spa: u32, tha: Mac, tpa: u32)
    ensures Decode(ArpFrame(dst, oper, sha, spa, tha, tpa)) == ArpMessage(dst, sha, oper, sha, spa, tha, tpa)
  {
    hide At, BE16, LE32, Be16At, Le32At;
    var f := ArpFrame(dst, oper, sha, spa, tha, tpa);
    WholeAt(f);
    ArpAt(f, dst, oper, sha, spa, tha, tpa);
  }

  /** The fields of an ARP frame found at the start of a buffer. */
  lemma ArpAt(f: Bytes, dst: Mac, oper: u16, sha: Mac, spa: u32, tha: Mac, tpa: u32)
    requires At(f, 0, ArpFrame(dst, oper, sha, spa, tha, tpa))
    ensures |f| >= 42 && f[0..6] == dst && f[6..12] == sha && Be16At(f, 12) == ETHERTYPE_ARP
    ensures Be16At(f, 20) == oper && f[22..28] == sha && Le32At(f, 28) == spa
    ensures f[32..38] == tha && Le32At(f, 38) == tpa
  {
    hide At, BE16, LE32, Be16At, Le32At;
    var target := tha + LE32(tpa);
    var sender := sha + LE32(spa);
    var kinds: Bytes := [0, 1, 8, 0, 6, 4];
    ArpLayout(dst, oper, sha, spa, tha, tpa);
    AtSplit(f, 0, dst, sha + (BE16(ETHERTYPE_ARP) + (kinds + (BE16(oper) + (sender + target)))));
    AtSplit(f, 6, sha, BE16(ETHERTYPE_ARP) + (kinds + (BE16(oper) + (sender + target))));
    AtSplit(f, 12, BE16(ETHERTYPE_ARP), kinds + (BE16(oper) + (sender + target)));
    AtSplit(f, 14, kinds, BE16(oper) + (sender + target));
    AtSplit(f, 20, BE16(oper), sender + target);
    AtSplit(f, 22, sender, target);
    AtSplit(f, 22, sha, LE32(spa));
    AtSplit(f, 32, tha, LE32(tpa));
    AtSlice(f, 0, dst);
    AtSlice(f, 6, sha);
    AtSlice(f, 22, sha);
    AtSlice(f, 32, tha);
    ReadWord(f, 12, ETHERTYPE_ARP);
    ReadWord(f, 20, oper);
    ReadAddress(f, 28, spa);
    ReadAddress(f, 38, tpa);
  }

  lemma ArpLayout(dst: Mac, oper: u16, sha: Mac, spa: u32, tha: Mac, tpa: u32)
    ensures ArpFrame(dst, oper, sha, spa, tha, tpa) ==
      dst + (sha + (BE16(ETHERTYPE_ARP) +
        ([0, 1, 8, 0, 6, 4] + (BE16(oper) + ((sha + LE32(spa)) + (tha + LE32(tpa)))))))
  {
    hide BE16, LE32;
  }
}
