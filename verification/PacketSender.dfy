/**
 forge_tcp_packet: an Ethernet frame with an IP header and a TCP segment is written into a buffer,
 and both checksums are filled in.
 */
module PacketSender {
  import opened Bytes
  import opened Checksum

  const ETH_LEN: nat := 14
  const IP_LEN: nat := 20
  const TCP_LEN: nat := 20
  const IPPROTO_TCP: Byte := 6

  function Bytes2(x: nat): (s: seq<Byte>)
    ensures |s| == 2
  {
    BigBytes(x % 0x10000)
  }

  function Bytes4(x: nat): (s: seq<Byte>)
    ensures |s| == 4
  {
    Bytes2(x / 0x10000) + Bytes2(x)
  }

  /** The IP header before and after its checksum field. */
  function IpFront(totalLen: nat): (s: seq<Byte>)
    ensures |s| == 10
  {
    [0x45, 0] + Bytes2(totalLen) + Bytes2(2012) + Bytes2(0x4000) + [249, IPPROTO_TCP]
  }

  function IpBack(srcIp: nat, dstIp: nat): (s: seq<Byte>)
    ensures |s| == 8
  {
    Bytes4(srcIp) + Bytes4(dstIp)
  }

  /** The TCP header before and after its checksum field. */
  function TcpFront(srcPort: nat, dstPort: nat, seqNo: nat, ack: nat): (s: seq<Byte>)
    ensures |s| == 16
  {
    Bytes2(srcPort) + Bytes2(dstPort) + Bytes4(seqNo) + Bytes4(ack) + [0x50, 0x19] + Bytes2(0x3fe4)
  }

  const URGENT: seq<Byte> := [0, 0]

  /** The pseudo-header: addresses, zero, protocol and the length of the segment. */
  function Pseudo(saddr: seq<Byte>, daddr: seq<Byte>, proto: Byte, tcpLen: nat): seq<Byte> {
    saddr + daddr + [0, proto] + Bytes2(tcpLen)
  }

  // ----- the octets of the fields

  lemma BytesOf(x: nat)
    ensures 256 * (Bytes2(x)[0] as int) + Bytes2(x)[1] as int == x % 0x10000
    ensures var s := Bytes4(x);
      0x100_0000 * (s[0] as int) + 0x1_0000 * (s[1] as int) + 0x100 * (s[2] as int) + s[3] as int == x % 0x1_0000_0000
  {
    HalvesOf(x);
  }

  lemma HalvesOf(x: nat)
    ensures x % 0x1_0000_0000 == 0x1_0000 * (x / 0x1_0000 % 0x1_0000) + x % 0x1_0000
  {
    var q := x / 0x1_0000;
    assert x == 0x1_0000 * q + x % 0x1_0000 && q == 0x1_0000 * (q / 0x1_0000) + q % 0x1_0000;
  }

  lemma IpFrontOctets(totalLen: nat)
    ensures var s := IpFront(totalLen);
      && s[0] == 0x45 && s[1] == 0 && 256 * (s[2] as int) + s[3] as int == totalLen % 0x10000
      && 256 * (s[4] as int) + s[5] as int == 2012 && 256 * (s[6] as int) + s[7] as int == 0x4000
      && s[8] == 249 && s[9] == 6
  {
    BytesOf(totalLen);
  }

  lemma IpBackOctets(srcIp: nat, dstIp: nat)
    ensures var s := IpBack(srcIp, dstIp);
      && 0x100_0000 * (s[0] as int) + 0x1_0000 * (s[1] as int) + 0x100 * (s[2] as int) + s[3] as int
           == srcIp % 0x1_0000_0000
      && 0x100_0000 * (s[4] as int) + 0x1_0000 * (s[5] as int) + 0x100 * (s[6] as int) + s[7] as int
           == dstIp % 0x1_0000_0000
  {
    BytesOf(srcIp);
    BytesOf(dstIp);
  }

  lemma TcpFrontOctets(srcPort: nat, dstPort: nat, seqNo: nat, ack: nat)
    ensures var s := TcpFront(srcPort, dstPort, seqNo, ack);
      && 256 * (s[0] as int) + s[1] as int == srcPort % 0x10000 && 256 * (s[2] as int) + s[3] as int == dstPort % 0x10000
      && 0x100_0000 * (s[4] as int) + 0x1_0000 * (s[5] as int) + 0x100 * (s[6] as int) + s[7] as int
           == seqNo % 0x1_0000_0000
      && 0x100_0000 * (s[8] as int) + 0x1_0000 * (s[9] as int) + 0x100 * (s[10] as int) + s[11] as int
           == ack % 0x1_0000_0000
      && s[12] == 0x50 && s[13] == 0x19 && 256 * (s[14] as int) + s[15] as int == 0x3fe4
  {
    BytesOf(srcPort);
    BytesOf(dstPort);
    BytesOf(seqNo);
    BytesOf(ack);
  }

  // ----- writing into the buffer

  method PutBytes(a: array<Byte>, at: nat, bytes: seq<Byte>)
    requires at + |bytes| <= a.Length
    modifies a
    ensures a[at..at + |bytes|] == bytes
    ensures forall k :: 0 <= k < a.Length && !(at <= k < at + |bytes|) ==> a[k] == old(a[k])
  {
    for i := 0 to |bytes|
      invariant forall k :: 0 <= k < i ==> a[at + k] == bytes[k]
      invariant forall k :: 0 <= k < a.Length && !(at <= k < at + i) ==> a[k] == old(a[k])
    {
      a[at + i] := bytes[i];
    }
  }

  method CalTcpCksum(pkt: array<Byte>, ipTotalLen: nat) returns (sum: nat)
    requires ETH_LEN + ipTotalLen <= pkt.Length && IP_LEN <= ipTotalLen <= 0xFFFF
    ensures sum == 0xFFFF - Canon(LittleSum(
      Pseudo(pkt[26..30], pkt[30..34], pkt[23], ipTotalLen - IP_LEN) + pkt[34..ETH_LEN + ipTotalLen]))
  {
    var tcpLen := ipTotalLen - IP_LEN;
    var ph := Pseudo(pkt[26..30], pkt[30..34], pkt[23], tcpLen);
    var segment := pkt[34..ETH_LEN + ipTotalLen];
    var part := CalSum(ph, 0);
    LittleSumBound(ph);
    LittleSumBound(segment);
    LittleSumAppend(ph, segment);
    sum := InCksum(segment, part);
  }

  /** The IP header sums to 0xFFFF in either order. */
  lemma IpVerifies(front: seq<Byte>, back: seq<Byte>)
    requires |front| % 2 == 0
    ensures var c := WrapSum(Canon(BigSum(front + EMPTY_FIELD + back)));
      Canon(BigSum(front + LittleBytes(c) + back)) == 0xFFFF
  {
    var empty := front + EMPTY_FIELD + back;
    var none: seq<Byte> := [];
    StoredAlike(empty);
    assert none + empty == empty;
    var c := 0xFFFF - Canon(LittleSum(empty));
    Verifies(none, front, back, c);
    var full := front + LittleBytes(c) + back;
    assert none + full == full;
    SumsAgree(full);
    BothFull(full);
  }

  lemma BothFull(b: seq<Byte>)
    requires Canon(LittleSum(b)) == 0xFFFF
    ensures Canon(BigSum(b)) == 0xFFFF
  {
    SumsAgree(b);
    var c := Canon(BigSum(b));
    assert c == 256 * (c / 256) + c % 256;
  }

  predicate SameElsewhere(was: seq<Byte>, now: seq<Byte>, from: nat, end: nat) {
    |was| == |now| && forall k :: 0 <= k < |now| && !(from <= k < end) ==> now[k] == was[k]
  }

  method WriteIpHeader(pkt: array<Byte>, totalLen: nat, srcIp: nat, dstIp: nat)
    requires 34 <= pkt.Length
    modifies pkt
    ensures SameElsewhere(old(pkt[..]), pkt[..], 14, 34)
    ensures pkt[14..24] == IpFront(totalLen) && pkt[26..34] == IpBack(srcIp, dstIp)
    ensures pkt[14] == 0x45 && pkt[15] == 0 && 256 * (pkt[16] as int) + pkt[17] as int == totalLen % 0x10000
    ensures pkt[22] == 249 && pkt[23] == 6
    ensures Canon(BigSum(pkt[14..34])) == 0xFFFF
  {
    IpFrontOctets(totalLen);
    var front, back := IpFront(totalLen), IpBack(srcIp, dstIp);
    PutBytes(pkt, 14, front + EMPTY_FIELD + back);
    var check := InCksum2(pkt[14..34], 0);
    ghost var mid := pkt[..];
    PutBytes(pkt, 24, LittleBytes(WrapSum(check)));
    IpVerifies(front, back);
    FieldFilled(mid, pkt[..], 14, 24, 34, front, EMPTY_FIELD, back, LittleBytes(WrapSum(check)));
    AtOffset(pkt[..], 14, 24, front);
  }

  lemma AtOffset(s: seq<Byte>, from: nat, to: nat, part: seq<Byte>)
    requires from <= to <= |s| && s[from..to] == part
    ensures forall i :: 0 <= i < |part| ==> s[from + i] == part[i]
  {
    assert forall i :: 0 <= i < |part| ==> s[from + i] == s[from..to][i];
  }

  /** Overwriting the checksum field leaves what stands before and after it. */
  lemma FieldFilled(mid: seq<Byte>, now: seq<Byte>, start: nat, at: nat, end: nat,
                    front: seq<Byte>, empty: seq<Byte>, back: seq<Byte>, field: seq<Byte>)
    requires start + |front| == at && |empty| == |field| == 2 && at + 2 + |back| == end <= |mid|
    requires mid[start..end] == front + empty + back
    requires SameElsewhere(mid, now, at, at + 2) && now[at..at + 2] == field
    ensures now[start..at] == front && now[at + 2..end] == back
    ensures now[start..end] == front + field + back
  {
    assert forall k :: start <= k < end ==> mid[k] == mid[start..end][k - start];
    assert now[start..at] == front;
    assert now[at + 2..end] == back;
  }

  /** Storing the checksum in a segment that was written with an empty field. */
  lemma TcpFilled(mid: seq<Byte>, now: seq<Byte>, len: nat, front: seq<Byte>, content: seq<Byte>, sum: nat)
    requires |front| == 16 && len == 54 + |content| <= |mid|
    requires mid[34..len] == front + EMPTY_FIELD + (URGENT + content)
    requires SameElsewhere(mid, now, 50, 52) && sum <= 0xFFFF && now[50..52] == LittleBytes(sum)
    requires sum == 0xFFFF - Canon(LittleSum(Pseudo(mid[26..30], mid[30..34], mid[23], len - 34) + mid[34..len]))
    ensures now[34..50] == front && now[52..54] == URGENT && now[54..len] == content
    ensures Canon(BigSum(Pseudo(now[26..30], now[30..34], now[23], len - 34) + now[34..len])) == 0xFFFF
  {
    var ph, back := Pseudo(mid[26..30], mid[30..34], mid[23], len - 34), URGENT + content;
    FieldFilled(mid, now, 34, 50, len, front, EMPTY_FIELD, back, LittleBytes(sum));
    assert now[26..30] == mid[26..30] && now[30..34] == mid[30..34];
    Verifies(ph, front, back, sum);
    BothFull(ph + now[34..len]);
    BackSplits(now, len, content);
  }

  lemma BackSplits(now: seq<Byte>, len: nat, content: seq<Byte>)
    requires 54 <= len <= |now| && now[52..len] == URGENT + content
    ensures now[52..54] == URGENT && now[54..len] == content
  {
    assert now[52..54] == now[52..len][..2];
    assert now[54..len] == now[52..len][2..];
  }

  method WriteTcpSegment(pkt: array<Byte>, totalLen: nat, srcPort: nat, dstPort: nat, seqNo: nat, ack: nat,
                         content: seq<Byte>)
    requires totalLen == |content| + TCP_LEN + IP_LEN <= 0xFFFF && ETH_LEN + totalLen <= pkt.Length
    modifies pkt
    ensures SameElsewhere(old(pkt[..]), pkt[..], 34, ETH_LEN + totalLen)
    ensures pkt[34..50] == TcpFront(srcPort, dstPort, seqNo, ack)
    ensures 256 * (pkt[34] as int) + pkt[35] as int == srcPort % 0x10000
    ensures 256 * (pkt[36] as int) + pkt[37] as int == dstPort % 0x10000
    ensures pkt[52..54] == URGENT && pkt[54..ETH_LEN + totalLen] == content
    ensures Canon(BigSum(
      Pseudo(pkt[26..30], pkt[30..34], pkt[23], totalLen - IP_LEN) + pkt[34..ETH_LEN + totalLen])) == 0xFFFF
  {
    var len := ETH_LEN + totalLen;
    ghost var front, back := TcpFront(srcPort, dstPort, seqNo, ack), URGENT + content;
    PutBytes(pkt, 34, TcpFront(srcPort, dstPort, seqNo, ack) + EMPTY_FIELD + (URGENT + content));
    ghost var mid := pkt[..];
    assert mid[34..len] == front + EMPTY_FIELD + back;
    var sum := CalTcpCksum(pkt, totalLen);
    PutBytes(pkt, 50, LittleBytes(sum));
    TcpFilled(mid, pkt[..], len, front, content, sum);
    TcpFrontOctets(srcPort, dstPort, seqNo, ack);
    AtOffset(pkt[..], 34, 50, front);
  }

  /** Each part of the frame is left alone by what is written after it. */
  lemma KeptParts(eth: seq<Byte>, ip: seq<Byte>, now: seq<Byte>, len: nat)
    requires 34 <= len <= |now| && SameElsewhere(eth, ip, 14, 34) && SameElsewhere(ip, now, 34, len)
    ensures now[14..34] == ip[14..34] && now[14..24] == ip[14..24] && now[26..34] == ip[26..34]
    ensures now[..14] == eth[..14] && forall k :: len <= k < |now| ==> now[k] == eth[k]
  {
    assert now[..14] == ip[..14] == eth[..14];
  }

  method ForgeTcpPacket(pkt: array<Byte>, dmac: seq<Byte>, smac: seq<Byte>, srcIp: nat, dstIp: nat,
                        srcPort: nat, dstPort: nat, seqNo: nat, ack: nat, content: seq<Byte>) returns (len: nat)
    requires |dmac| == 6 && |smac| == 6 && |content| + IP_LEN + TCP_LEN <= 0xFFFF
    requires ETH_LEN + IP_LEN + TCP_LEN + |content| <= pkt.Length
    modifies pkt
    ensures len == ETH_LEN + IP_LEN + TCP_LEN + |content|
    ensures forall k :: len <= k < pkt.Length ==> pkt[k] == 0
    ensures pkt[..14] == dmac + smac + [8, 0]
    ensures pkt[14] == 0x45 && pkt[15] == 0 && 256 * (pkt[16] as int) + pkt[17] as int == 40 + |content|
    ensures 256 * (pkt[18] as int) + pkt[19] as int == 2012 && 256 * (pkt[20] as int) + pkt[21] as int == 0x4000
    ensures pkt[22] == 249 && pkt[23] == 6
    ensures 0x100_0000 * (pkt[26] as int) + 0x1_0000 * (pkt[27] as int) + 0x100 * (pkt[28] as int) + pkt[29] as int
         == srcIp % 0x1_0000_0000
    ensures 0x100_0000 * (pkt[30] as int) + 0x1_0000 * (pkt[31] as int) + 0x100 * (pkt[32] as int) + pkt[33] as int
         == dstIp % 0x1_0000_0000
    ensures 256 * (pkt[34] as int) + pkt[35] as int == srcPort % 0x10000
    ensures 256 * (pkt[36] as int) + pkt[37] as int == dstPort % 0x10000
    ensures 0x100_0000 * (pkt[38] as int) + 0x1_0000 * (pkt[39] as int) + 0x100 * (pkt[40] as int) + pkt[41] as int
         == seqNo % 0x1_0000_0000
    ensures 0x100_0000 * (pkt[42] as int) + 0x1_0000 * (pkt[43] as int) + 0x100 * (pkt[44] as int) + pkt[45] as int
         == ack % 0x1_0000_0000
    ensures pkt[46] == 0x50 && pkt[47] == 0x19 && 256 * (pkt[48] as int) + pkt[49] as int == 0x3fe4
    ensures pkt[52] == 0 && pkt[53] == 0 && pkt[54..len] == content
    ensures Canon(BigSum(pkt[14..34])) == 0xFFFF
    ensures Canon(BigSum([pkt[26], pkt[27], pkt[28], pkt[29], pkt[30], pkt[31], pkt[32], pkt[33],
                          0, 6, (20 + |content|) / 256, (20 + |content|) % 256] + pkt[34..len])) == 0xFFFF
  {
    forall k | 0 <= k < pkt.Length { pkt[k] := 0; }
    var totalLen := |content| + TCP_LEN + IP_LEN;
    len := totalLen + ETH_LEN;
    PutBytes(pkt, 0, dmac + smac + [8, 0]);
    ghost var eth := pkt[..];
    WriteIpHeader(pkt, totalLen, srcIp, dstIp);
    ghost var ip := pkt[..];
    assert ip[14..24][9] == IPPROTO_TCP;
    WriteTcpSegment(pkt, totalLen, srcPort, dstPort, seqNo, ack, content);
    KeptParts(eth, ip, pkt[..], len);
    IpOctets(pkt[..], totalLen, srcIp, dstIp);
    TcpOctets(pkt[..], srcPort, dstPort, seqNo, ack);
    PseudoOctets(pkt[..], totalLen - IP_LEN);
    assert pkt[52] == pkt[52..54][0] && pkt[53] == pkt[52..54][1];
  }

  lemma IpOctets(s: seq<Byte>, totalLen: nat, srcIp: nat, dstIp: nat)
    requires 34 <= |s| && totalLen <= 0xFFFF
    requires s[14..24] == IpFront(totalLen) && s[26..34] == IpBack(srcIp, dstIp)
    ensures s[14] == 0x45 && s[15] == 0 && 256 * (s[16] as int) + s[17] as int == totalLen
    ensures 256 * (s[18] as int) + s[19] as int == 2012 && 256 * (s[20] as int) + s[21] as int == 0x4000
    ensures s[22] == 249 && s[23] == 6
    ensures 0x100_0000 * (s[26] as int) + 0x1_0000 * (s[27] as int) + 0x100 * (s[28] as int) + s[29] as int
         == srcIp % 0x1_0000_0000
    ensures 0x100_0000 * (s[30] as int) + 0x1_0000 * (s[31] as int) + 0x100 * (s[32] as int) + s[33] as int
         == dstIp % 0x1_0000_0000
  {
    AtOffset(s, 14, 24, IpFront(totalLen));
    AtOffset(s, 26, 34, IpBack(srcIp, dstIp));
    IpFrontOctets(totalLen);
    IpBackOctets(srcIp, dstIp);
  }

  lemma TcpOctets(s: seq<Byte>, srcPort: nat, dstPort: nat, seqNo: nat, ack: nat)
    requires 50 <= |s| && s[34..50] == TcpFront(srcPort, dstPort, seqNo, ack)
    ensures 256 * (s[34] as int) + s[35] as int == srcPort % 0x10000
    ensures 256 * (s[36] as int) + s[37] as int == dstPort % 0x10000
    ensures 0x100_0000 * (s[38] as int) + 0x1_0000 * (s[39] as int) + 0x100 * (s[40] as int) + s[41] as int
         == seqNo % 0x1_0000_0000
    ensures 0x100_0000 * (s[42] as int) + 0x1_0000 * (s[43] as int) + 0x100 * (s[44] as int) + s[45] as int
         == ack % 0x1_0000_0000
    ensures s[46] == 0x50 && s[47] == 0x19 && 256 * (s[48] as int) + s[49] as int == 0x3fe4
  {
    AtOffset(s, 34, 50, TcpFront(srcPort, dstPort, seqNo, ack));
    TcpFrontOctets(srcPort, dstPort, seqNo, ack);
  }

  /** The pseudo-header, octet by octet: both addresses, zero, the protocol and the length of the segment. */
  lemma PseudoOctets(s: seq<Byte>, tcpLen: nat)
    requires 34 <= |s| && tcpLen <= 0xFFFF && s[23] == 6
    ensures Pseudo(s[26..30], s[30..34], s[23], tcpLen)
         == [s[26], s[27], s[28], s[29], s[30], s[31], s[32], s[33], 0, 6, tcpLen / 256, tcpLen % 256]
  {
    assert tcpLen % 0x10000 == tcpLen;
  }
}
