/**
 The two Internet checksum routines of the packet sender and the packets they are used in
 (sections 1 and 2 of RFC 1071, section 3.1 of RFC 791, section 3.1 of RFC 793). One routine reads
 16-bit words in network order and carries after each addition, the other reads them in the
 little-endian order of the host and folds the carries at the end.
 */
module Checksum {
  import opened Bytes

  // ----- sums of 16-bit words

  function Word(high: nat, low: nat): nat {
    256 * high + low
  }

  /** Words in network order; a last single octet is the high one of its word. */
  function BigSum(b: seq<Byte>): nat {
    if |b| == 0 then 0
    else if |b| == 1 then Word(b[0], 0)
    else Word(b[0], b[1]) + BigSum(b[2..])
  }

  /** Words in little-endian order; a last single octet is the low one of its word. */
  function LittleSum(b: seq<Byte>): nat {
    if |b| == 0 then 0
    else if |b| == 1 then b[0]
    else Word(b[1], b[0]) + LittleSum(b[2..])
  }

  /** The one's complement value of a sum: zero only for zero, otherwise between 1 and 0xFFFF. */
  function Canon(s: nat): (c: nat)
    ensures c <= 0xFFFF && c <= s && (c == 0 <==> s == 0)
  {
    if s == 0 then 0 else 1 + (s - 1) % 0xFFFF
  }

  lemma CanonUnique(s: nat, c: nat, k: int)
    requires s == c + 0xFFFF * k && c <= 0xFFFF && (c == 0 <==> s == 0)
    ensures Canon(s) == c
  {
  }

  lemma CanonStep(s: nat, w: nat)
    requires w <= 0xFFFF
    ensures Canon(s + w) == if Canon(s) + w > 0xFFFF then Canon(s) + w - 0xFFFF else Canon(s) + w
  {
    if s > 0 {
      var k := (s - 1) / 0xFFFF;
      assert s == Canon(s) + 0xFFFF * k;
      if Canon(s) + w > 0xFFFF {
        CanonUnique(s + w, Canon(s) + w - 0xFFFF, k + 1);
      } else {
        CanonUnique(s + w, Canon(s) + w, k);
      }
    }
  }

  lemma {:induction false} BigSumAppend(a: seq<Byte>, b: seq<Byte>)
    requires |a| % 2 == 0
    ensures BigSum(a + b) == BigSum(a) + BigSum(b)
  {
    if a == [] {
      assert a + b == b;
    } else {
      assert (a + b)[2..] == a[2..] + b;
      BigSumAppend(a[2..], b);
    }
  }

  lemma {:induction false} LittleSumAppend(a: seq<Byte>, b: seq<Byte>)
    requires |a| % 2 == 0
    ensures LittleSum(a + b) == LittleSum(a) + LittleSum(b)
  {
    if a == [] {
      assert a + b == b;
    } else {
      assert (a + b)[2..] == a[2..] + b;
      LittleSumAppend(a[2..], b);
    }
  }

  lemma {:induction false} LittleSumBound(b: seq<Byte>)
    ensures LittleSum(b) <= 0xFFFF * ((|b| + 1) / 2)
  {
    if |b| >= 2 { LittleSumBound(b[2..]); }
  }

  /** Octet by octet: those at even places weigh 256 in network order, those at odd places on the host. */
  lemma {:induction false} SumsOfOctets(b: seq<Byte>, x: Byte)
    ensures BigSum([]) == 0 && LittleSum([]) == 0
    ensures BigSum(b + [x]) == BigSum(b) + if |b| % 2 == 0 then 256 * (x as int) else x as int
    ensures LittleSum(b + [x]) == LittleSum(b) + if |b| % 2 == 0 then x as int else 256 * (x as int)
    decreases |b|
  {
    if |b| >= 2 {
      assert (b + [x])[2..] == b[2..] + [x];
      SumsOfOctets(b[2..], x);
    } else if |b| == 1 {
      assert (b + [x])[2..] == [];
    }
  }

  // ----- byte order

  function Swap(w: nat): (r: nat)
    requires w <= 0xFFFF
    ensures r <= 0xFFFF
  {
    256 * (w % 256) + w / 256
  }

  function BigBytes(w: nat): seq<Byte>
    requires w <= 0xFFFF
  {
    [w / 256, w % 256]
  }

  function LittleBytes(w: nat): seq<Byte>
    requires w <= 0xFFFF
  {
    [w % 256, w / 256]
  }

  /** Reading in the other order multiplies a sum by 256 modulo 0xFFFF. */
  lemma {:induction false} OtherOrder(b: seq<Byte>) returns (k: nat)
    ensures 256 * BigSum(b) == LittleSum(b) + 0xFFFF * k
    ensures BigSum(b) == 0 <==> LittleSum(b) == 0
  {
    if |b| == 0 {
      k := 0;
    } else if |b| == 1 {
      k := b[0];
    } else {
      var k' := OtherOrder(b[2..]);
      k := k' + b[0];
    }
  }

  lemma SwapCanon(c: nat) returns (k: int)
    requires c <= 0xFFFF
    ensures 256 * c == Swap(c) + 0xFFFF * k
    ensures Swap(c) == 0 <==> c == 0
  {
    k := c / 256;
  }

  lemma CanonParts(s: nat) returns (m: nat)
    ensures s == Canon(s) + 0xFFFF * m
  {
    m := if s == 0 then 0 else (s - 1) / 0xFFFF;
  }

  lemma SwapSum(big: nat, little: nat, k: nat)
    requires 256 * big == little + 0xFFFF * k && (big == 0 <==> little == 0)
    ensures Canon(little) == Swap(Canon(big))
  {
    var m := CanonParts(big);
    var j := SwapCanon(Canon(big));
    CanonUnique(little, Swap(Canon(big)), j + 256 * m - k);
  }

  /** Both orders give the same one's complement sum, with its octets exchanged. */
  lemma SumsAgree(b: seq<Byte>)
    ensures Canon(LittleSum(b)) == Swap(Canon(BigSum(b)))
  {
    var k := OtherOrder(b);
    SwapSum(BigSum(b), LittleSum(b), k);
  }

  /** The example of section 3 of RFC 1071, in both orders. */
  lemma Example()
    ensures var b: seq<Byte> := [0x00, 0x01, 0xF2, 0x03, 0xF4, 0xF5, 0xF6, 0xF7];
      Canon(BigSum(b)) == 0xDDF2 && Canon(LittleSum(b)) == 0xF2DD
  {
    var b: seq<Byte> := [0x00, 0x01, 0xF2, 0x03, 0xF4, 0xF5, 0xF6, 0xF7];
    assert b[2..] == [0xF2, 0x03, 0xF4, 0xF5, 0xF6, 0xF7] && b[2..][2..] == [0xF4, 0xF5, 0xF6, 0xF7];
    assert b[2..][2..][2..] == [0xF6, 0xF7] && b[2..][2..][2..][2..] == [];
    assert BigSum(b) == 0x2DDF0;
    SumsAgree(b);
  }

  // ----- the routines

  lemma BigSumPair(buf: seq<Byte>, i: nat)
    requires i % 2 == 0 && i + 1 < |buf|
    ensures BigSum(buf[..i + 2]) == BigSum(buf[..i]) + Word(buf[i], buf[i + 1])
  {
    assert buf[..i + 2] == buf[..i] + [buf[i], buf[i + 1]];
    BigSumAppend(buf[..i], [buf[i], buf[i + 1]]);
  }

  lemma BigSumLast(buf: seq<Byte>, i: nat)
    requires i % 2 == 0 && i + 1 == |buf|
    ensures BigSum(buf) == BigSum(buf[..i]) + Word(buf[i], 0)
  {
    assert buf == buf[..i] + [buf[i]];
    BigSumAppend(buf[..i], [buf[i]]);
  }

  /** Adding a word and taking the carry back in. */
  method AddWord(was: nat, w: nat, ghost s: nat, ghost t: nat) returns (sum: nat)
    requires was == Canon(s) && w <= 0xFFFF && t == s + w
    ensures sum == Canon(t)
  {
    CanonStep(s, w);
    sum := was + w;
    if sum > 0xFFFF { sum := sum - 0xFFFF; }
  }

  method InCksum2(buf: seq<Byte>, init: nat) returns (sum: nat)
    requires init <= 0xFFFF
    ensures sum == Canon(init + BigSum(buf))
  {
    sum := init;
    var nbytes := |buf|;
    var i := 0;
    ghost var total := init;
    assert buf[..0] == [];
    while i < nbytes - nbytes % 2
      invariant i % 2 == 0 && i <= nbytes - nbytes % 2
      invariant total == init + BigSum(buf[..i]) && sum == Canon(total)
    {
      var w := Word(buf[i], buf[i + 1]);
      BigSumPair(buf, i);
      sum := AddWord(sum, w, total, total + w);
      total := total + w;
      i := i + 2;
    }
    if i < nbytes {
      BigSumLast(buf, i);
      var w := Word(buf[i], 0);
      sum := AddWord(sum, w, total, total + w);
    } else {
      assert buf[..i] == buf;
    }
  }

  /** The complement of a 16-bit sum, exchanged so that storing it writes network order. */
  function WrapSum(sum: nat): nat
    requires sum <= 0xFFFF
  {
    Swap(0xFFFF - sum)
  }

  const INT_MAX: nat := 0x7FFF_FFFF

  method InCksum(p: seq<Byte>, init: nat) returns (ret: nat)
    requires init + LittleSum(p) <= INT_MAX
    ensures ret == 0xFFFF - Canon(init + LittleSum(p))
  {
    var sum := CalSum(p, init);
    ghost var s := sum;
    var high, low := sum / 0x10000, sum % 0x10000;
    sum := high + low;
    assert s == sum + 0xFFFF * high;
    ghost var t := sum;
    sum := sum + sum / 0x10000;
    sum := sum % 0x10000;
    if t < 0x10000 {
      assert sum == t;
      CanonUnique(s, sum, high);
    } else {
      assert t / 0x10000 == 1 && sum == t + 1 - 0x10000;
      CanonUnique(s, sum, high + 1);
    }
    ret := 0xFFFF - sum;
  }

  /** The adding loop of both native routines. */
  method CalSum(p: seq<Byte>, init: nat) returns (sum: nat)
    ensures sum == init + LittleSum(p)
  {
    sum := init;
    var n := 0;
    assert p[..0] == [];
    while |p| - n > 1
      invariant n % 2 == 0 && n <= |p|
      invariant sum == init + LittleSum(p[..n])
    {
      var w := Word(p[n + 1], p[n]);
      sum := sum + w;
      assert p[..n + 2] == p[..n] + [p[n], p[n + 1]];
      LittleSumAppend(p[..n], [p[n], p[n + 1]]);
      n := n + 2;
    }
    if |p| - n == 1 {
      sum := sum + p[n];
      assert p == p[..n] + [p[n]];
      LittleSumAppend(p[..n], [p[n]]);
    } else {
      assert p[..n] == p;
    }
  }

  /** Both routines store the same two octets, for every buffer of even or odd length. */
  lemma StoredAlike(b: seq<Byte>)
    ensures LittleBytes(WrapSum(Canon(BigSum(b)))) == LittleBytes(0xFFFF - Canon(LittleSum(b)))
    ensures LittleBytes(WrapSum(Canon(BigSum(b)))) == BigBytes(0xFFFF - Canon(BigSum(b)))
  {
    SumsAgree(b);
    var c, d := Canon(BigSum(b)), Canon(LittleSum(b));
    SwapComplement(c);
    SwapBytes(0xFFFF - c);
    assert WrapSum(c) == 0xFFFF - d;
  }

  lemma SwapComplement(c: nat)
    requires c <= 0xFFFF
    ensures Swap(0xFFFF - c) == 0xFFFF - Swap(c)
  {
    TwoOctets(0xFFFF - c, 255 - c / 256, 255 - c % 256);
  }

  lemma SwapBytes(x: nat)
    requires x <= 0xFFFF
    ensures LittleBytes(Swap(x)) == BigBytes(x)
  {
    TwoOctets(Swap(x), x % 256, x / 256);
  }

  lemma TwoOctets(x: nat, high: nat, low: nat)
    requires high <= 255 && low <= 255 && x == 256 * high + low
    ensures x / 256 == high && x % 256 == low
  {
  }

  lemma LittleWord(w: seq<Byte>)
    requires |w| == 2
    ensures LittleSum(w) == Word(w[1], w[0])
  {
    assert w[2..] == [];
  }

  lemma SumOfParts(seed: seq<Byte>, front: seq<Byte>, field: seq<Byte>, back: seq<Byte>)
    requires |front| % 2 == 0 && |seed| % 2 == 0 && |field| == 2
    ensures LittleSum(seed + (front + field + back))
         == LittleSum(seed) + LittleSum(front) + Word(field[1], field[0]) + LittleSum(back)
  {
    LittleSumAppend(seed, front + field + back);
    SumOfPacket(front, field, back);
  }

  lemma SumOfPacket(front: seq<Byte>, field: seq<Byte>, back: seq<Byte>)
    requires |front| % 2 == 0 && |field| == 2
    ensures LittleSum(front + field + back) == LittleSum(front) + Word(field[1], field[0]) + LittleSum(back)
  {
    assert front + field + back == front + (field + back);
    LittleSumAppend(front, field + back);
    LittleSumAppend(field, back);
    LittleWord(field);
  }

  const EMPTY_FIELD: seq<Byte> := [0, 0]

  lemma Completed(s: nat, t: nat)
    requires t == s + (0xFFFF - Canon(s))
    ensures Canon(t) == 0xFFFF
  {
    CanonUnique(t, 0xFFFF, if s == 0 then 0 else (s - 1) / 0xFFFF);
  }

  /** A buffer whose checksum field was zero sums to 0xFFFF once the checksum is stored in it. */
  lemma Verifies(seed: seq<Byte>, front: seq<Byte>, back: seq<Byte>, c: nat)
    requires |front| % 2 == 0 && |seed| % 2 == 0
    requires c == 0xFFFF - Canon(LittleSum(seed + (front + EMPTY_FIELD + back)))
    ensures Canon(LittleSum(seed + (front + LittleBytes(c) + back))) == 0xFFFF
  {
    SumOfParts(seed, front, EMPTY_FIELD, back);
    SumOfParts(seed, front, LittleBytes(c), back);
    Completed(LittleSum(seed + (front + EMPTY_FIELD + back)), LittleSum(seed + (front + LittleBytes(c) + back)));
  }
}
