/**
 The streaming part of MD5 (sections 3.1 to 3.3 and 3.5 of RFC 1321): buffering, the bit count
 held in two words, padding and the output. The block function of section 3.4 is a parameter.
 */
module Md5 {
  import opened Bytes

  type Word = w: int | 0 <= w < 0x1_0000_0000

  datatype State = State(a: Word, b: Word, c: Word, d: Word)

  const INIT := State(0x67452301, 0xEFCDAB89, 0x98BADCFE, 0x10325476)

  type BlockFunction = (State, seq<Byte>) -> State

  // ----- what MD5 of a message is

  function FoldBlocks(f: BlockFunction, s: State, m: seq<Byte>): State
    requires |m| % 64 == 0
    decreases |m|
  {
    if m == [] then s else FoldBlocks(f, f(s, m[..64]), m[64..])
  }

  function EncodeWord(w: Word): (r: seq<Byte>)
    ensures |r| == 4
  {
    [w % 0x100, w / 0x100 % 0x100, w / 0x1_0000 % 0x100, w / 0x100_0000 % 0x100]
  }

  function Encode(words: seq<Word>): (r: seq<Byte>)
    ensures |r| == 4 * |words|
  {
    if words == [] then [] else EncodeWord(words[0]) + Encode(words[1..])
  }

  /** The number of bytes of padding after which 8 more complete a block. */
  function PadLength(n: nat): (k: nat)
    ensures 1 <= k <= 64 && (n + k) % 64 == 56
  {
    if n % 64 < 56 then 56 - n % 64 else 120 - n % 64
  }

  function Padding(k: nat): (p: seq<Byte>)
    requires k >= 1
    ensures |p| == k
  {
    [0x80] + seq(k - 1, _ => 0)
  }

  /** The low word and the high word of the message's length in bits, modulo 2 to the 64. */
  function BitCount(n: nat): seq<Word> {
    [8 * n % 0x1_0000_0000, 8 * n / 0x1_0000_0000 % 0x1_0000_0000]
  }

  /** A one bit, zeros up to 56 modulo 64 bytes, and the length. */
  function Padded(m: seq<Byte>): (r: seq<Byte>)
    ensures |r| % 64 == 0 && m <= r
  {
    var k := PadLength(|m|);
    assert (|m| + k + 8) % 64 == 0;
    m + Padding(k) + Encode(BitCount(|m|))
  }

  function Digest(f: BlockFunction, m: seq<Byte>): seq<Byte> {
    var s := FoldBlocks(f, INIT, Padded(m));
    Encode([s.a, s.b, s.c, s.d])
  }

  // ----- the same, octet by octet

  lemma EightOctets(x: nat, h: nat, low: Word)
    requires x == 0x1_0000_0000 * h + low
    ensures x % 0x100 == low % 0x100 && x / 0x100 % 0x100 == low / 0x100 % 0x100
    ensures x / 0x1_0000 % 0x100 == low / 0x1_0000 % 0x100 && x / 0x100_0000 % 0x100 == low / 0x100_0000 % 0x100
  {
    Multiple(0x100_0000 * h, low);
    Multiple(0x1_0000 * h, low / 0x100);
    Multiple(0x100 * h, low / 0x1_0000);
    Multiple(h, low / 0x100_0000);
    assert x / 0x100 == 0x100 * (0x1_0000 * h) + low / 0x100;
    assert x / 0x1_0000 == 0x100 * (0x100 * h) + low / 0x1_0000;
    assert x / 0x100_0000 == 0x100 * h + low / 0x100_0000;
  }

  lemma Multiple(q: nat, r: nat)
    ensures (0x100 * q + r) % 0x100 == r % 0x100
  {
  }

  /** The octets of the message's length in bits, the lowest first. */
  lemma LengthOctets(n: nat)
    ensures var s, x := Encode(BitCount(n)), 8 * n;
      && |s| == 8
      && s[0] == x % 0x100 && s[1] == x / 0x100 % 0x100
      && s[2] == x / 0x1_0000 % 0x100 && s[3] == x / 0x100_0000 % 0x100
      && s[4] == x / 0x1_0000_0000 % 0x100 && s[5] == x / 0x1_0000_0000 / 0x100 % 0x100
      && s[6] == x / 0x1_0000_0000 / 0x1_0000 % 0x100 && s[7] == x / 0x1_0000_0000 / 0x100_0000 % 0x100
  {
    var x := 8 * n;
    var h := x / 0x1_0000_0000;
    EightOctets(x, h, x % 0x1_0000_0000);
    EightOctets(h, h / 0x1_0000_0000, h % 0x1_0000_0000);
    assert BitCount(n)[1..] == [h % 0x1_0000_0000] && BitCount(n)[1..][1..] == [];
  }

  /**
   The padded message: the message, an octet 0x80, zeros, and in the last eight octets the length in
   bits modulo 2 to the 64; it is as short as complete blocks allow.
   */
  lemma PaddedOctets(m: seq<Byte>)
    ensures var p, x := Padded(m), 8 * |m|;
      && |p| % 64 == 0 && |m| + 9 <= |p| < |m| + 9 + 64
      && p[..|m|] == m && p[|m|] == 0x80 && (forall i :: |m| < i < |p| - 8 ==> p[i] == 0)
      && p[|p| - 8..] == [x % 0x100, x / 0x100 % 0x100, x / 0x1_0000 % 0x100, x / 0x100_0000 % 0x100,
                          x / 0x1_0000_0000 % 0x100, x / 0x1_0000_0000 / 0x100 % 0x100,
                          x / 0x1_0000_0000 / 0x1_0000 % 0x100, x / 0x1_0000_0000 / 0x100_0000 % 0x100]
  {
    var k := PadLength(|m|);
    LengthOctets(|m|);
    assert Padded(m) == m + Padding(k) + Encode(BitCount(|m|));
  }

  /** The blocks of a message, one state after the other. */
  lemma {:induction false} FoldOfStates(f: BlockFunction, m: seq<Byte>, states: seq<State>)
    requires |m| % 64 == 0 && |states| == |m| / 64 + 1
    requires forall k :: 0 <= k < |m| / 64 ==> states[k + 1] == f(states[k], m[64 * k..64 * k + 64])
    ensures FoldBlocks(f, states[0], m) == states[|m| / 64]
    decreases |m|
  {
    if m != [] {
      forall k | 0 <= k < |m[64..]| / 64 ensures states[1..][k + 1] == f(states[1..][k], m[64..][64 * k..64 * k + 64]) {
        assert m[64..][64 * k..64 * k + 64] == m[64 * (k + 1)..64 * (k + 1) + 64];
      }
      assert m[64 * 0..64 * 0 + 64] == m[..64];
      assert states[0 + 1] == f(states[0], m[64 * 0..64 * 0 + 64]);
      FoldOfStates(f, m[64..], states[1..]);
    }
  }

  /**
   The digest: from the four initial words of section 3.3 of RFC 1321 on, each block of the padded
   message gives the next state, and the octets of the last one are put out from its low end.
   */
  lemma DigestOctets(f: BlockFunction, m: seq<Byte>, states: seq<State>)
    requires |states| == |Padded(m)| / 64 + 1
    requires states[0] == State(0x67452301, 0xEFCDAB89, 0x98BADCFE, 0x10325476)
    requires forall k :: 0 <= k < |Padded(m)| / 64 ==> states[k + 1] == f(states[k], Padded(m)[64 * k..64 * k + 64])
    ensures var s := states[|states| - 1];
      Digest(f, m) == [s.a % 0x100, s.a / 0x100 % 0x100, s.a / 0x1_0000 % 0x100, s.a / 0x100_0000 % 0x100,
                       s.b % 0x100, s.b / 0x100 % 0x100, s.b / 0x1_0000 % 0x100, s.b / 0x100_0000 % 0x100,
                       s.c % 0x100, s.c / 0x100 % 0x100, s.c / 0x1_0000 % 0x100, s.c / 0x100_0000 % 0x100,
                       s.d % 0x100, s.d / 0x100 % 0x100, s.d / 0x1_0000 % 0x100, s.d / 0x100_0000 % 0x100]
  {
    FoldOfStates(f, Padded(m), states);
    FourWords(states[|states| - 1]);
  }

  lemma FourWords(s: State)
    ensures Encode([s.a, s.b, s.c, s.d]) == EncodeWord(s.a) + EncodeWord(s.b) + EncodeWord(s.c) + EncodeWord(s.d)
  {
    assert [s.a, s.b, s.c, s.d][1..] == [s.b, s.c, s.d] && [s.b, s.c, s.d][1..] == [s.c, s.d];
    assert [s.c, s.d][1..] == [s.d] && [s.d][1..] == [];
    assert Encode([s.d]) == EncodeWord(s.d) && Encode([s.c, s.d]) == EncodeWord(s.c) + EncodeWord(s.d);
    assert Encode([s.b, s.c, s.d]) == EncodeWord(s.b) + (EncodeWord(s.c) + EncodeWord(s.d));
  }

  lemma {:induction false} FoldAppend(f: BlockFunction, s: State, a: seq<Byte>, b: seq<Byte>)
    requires |a| % 64 == 0 && |b| % 64 == 0
    ensures FoldBlocks(f, s, a + b) == FoldBlocks(f, FoldBlocks(f, s, a), b)
    decreases |a|
  {
    if a == [] {
      assert a + b == b;
    } else {
      assert (a + b)[..64] == a[..64] && (a + b)[64..] == a[64..] + b;
      FoldAppend(f, f(s, a[..64]), a[64..], b);
    }
  }

  lemma FoldOne(f: BlockFunction, s: State, a: seq<Byte>, b: seq<Byte>)
    requires |a| % 64 == 0 && |b| == 64
    ensures FoldBlocks(f, s, a + b) == f(FoldBlocks(f, s, a), b)
  {
    FoldAppend(f, s, a, b);
    assert b[..64] == b && b[64..] == [];
  }

  // ----- counting

  /** The buffer index is the low part of the low count word. */
  lemma IndexOfCount(n: nat)
    ensures 8 * n % 0x1_0000_0000 / 8 % 64 == n % 64
  {
    var q, r := n / 0x2000_0000, n % 0x2000_0000;
    assert n == 0x2000_0000 * q + r;
    HighPart(8 * n, q, 8 * r);
    SixBits(n, 0x80_0000 * q, r);
  }

  lemma SixBits(n: nat, k: nat, r: nat)
    requires n == 64 * k + r
    ensures 8 * r / 8 % 64 == n % 64
  {
    var k', r' := r / 64, r % 64;
    assert n == 64 * (k + k') + r';
  }

  /** What MD5Update does to the count words, the carry being found by comparing. */
  function AddCount(count: seq<Word>, len: nat): seq<Word>
    requires |count| == 2 && len < 0x1_0000_0000
  {
    var shifted := 8 * len % 0x1_0000_0000;
    var low := (count[0] + shifted) % 0x1_0000_0000;
    var high: nat := if low < shifted then (count[1] as nat + 1) % 0x1_0000_0000 else count[1];
    [low, (high + len / 0x2000_0000) % 0x1_0000_0000]
  }

  lemma Carry(c: nat, shifted: nat)
    requires c < 0x1_0000_0000 && shifted < 0x1_0000_0000
    ensures var low, carry := (c + shifted) % 0x1_0000_0000, if (c + shifted) % 0x1_0000_0000 < shifted then 1 else 0;
      c + shifted == low + 0x1_0000_0000 * carry
  {
  }

  lemma ShiftParts(len: nat)
    requires len < 0x1_0000_0000
    ensures 8 * len == 0x1_0000_0000 * (len / 0x2000_0000) + 8 * len % 0x1_0000_0000
  {
    assert len == 0x2000_0000 * (len / 0x2000_0000) + len % 0x2000_0000;
  }

  lemma HighPart(x: nat, total: nat, low: Word)
    requires x == 0x1_0000_0000 * total + low
    ensures x % 0x1_0000_0000 == low && x / 0x1_0000_0000 == total
  {
  }

  lemma AddModulo(h: nat, carry: nat, more: nat)
    requires carry <= 1
    ensures var m := h % 0x1_0000_0000;
      ((if carry == 1 then (m + 1) % 0x1_0000_0000 else m) + more) % 0x1_0000_0000
      == (h + carry + more) % 0x1_0000_0000
  {
    var m, q := h % 0x1_0000_0000, h / 0x1_0000_0000;
    assert h == 0x1_0000_0000 * q + m;
    if carry == 1 && m == 0xFFFF_FFFF {
      SameRemainder(h + carry + more, more, q + 1);
    } else {
      SameRemainder(h + carry + more, m + carry + more, q);
    }
  }

  /** The two words count the bits of everything fed, modulo 2 to the 64. */
  lemma CountAdds(n: nat, len: nat)
    requires len < 0x1_0000_0000
    ensures AddCount(BitCount(n), len) == BitCount(n + len)
  {
    var c, h := 8 * n % 0x1_0000_0000, 8 * n / 0x1_0000_0000;
    var shifted, more := 8 * len % 0x1_0000_0000, len / 0x2000_0000;
    var low := (c + shifted) % 0x1_0000_0000;
    var carry := if low < shifted then 1 else 0;
    ShiftParts(len);
    Carry(c, shifted);
    HighPart(8 * (n + len), h + more + carry, low);
    AddModulo(h, carry, more);
  }

  lemma SameRemainder(x: nat, y: nat, k: nat)
    requires x == 0x1_0000_0000 * k + y
    ensures x % 0x1_0000_0000 == y % 0x1_0000_0000
  {
  }

  // ----- the context

  /** The complete blocks of a message, and what is left over. */
  function Whole(m: seq<Byte>): (r: seq<Byte>)
    ensures |r| % 64 == 0
  {
    m[..|m| - |m| % 64]
  }

  function Left(m: seq<Byte>): (r: seq<Byte>)
    ensures |r| == |m| % 64
  {
    m[|m| - |m| % 64..]
  }

  /** The loop counter of an update never passes 2 to the 32. */
  predicate NoWrap(index: nat, len: nat)
    requires index < 64
  {
    len < 0x1_0000_0000 && (len >= 64 - index ==> len - (len - (64 - index)) % 64 + 64 < 0x1_0000_0000)
  }

  /** The loop variable of an update after k turns, an unsigned number of 32 bits. */
  function CounterAt(index: nat, k: nat): nat
    requires index < 64
  {
    (64 - index + 64 * k) % 0x1_0000_0000
  }

  /** The loop makes turn k: its test has held each time up to then. */
  predicate MakesTurn(index: nat, len: nat, k: nat)
    requires index < 64
  {
    len >= 64 - index && forall t :: 0 <= t <= k ==> (CounterAt(index, t) + 64) % 0x1_0000_0000 <= len
  }

  /** A turn that reads behind the end of the input. */
  predicate Overreads(index: nat, len: nat, k: nat)
    requires index < 64
  {
    MakesTurn(index, len, k) && CounterAt(index, k) + 64 > len
  }

  lemma SmallRemainder(n: nat)
    requires n < 0x1_0000_0000
    ensures n % 0x1_0000_0000 == n
  {
  }

  /** While the counter has not wrapped, each turn has a whole block of the input before it. */
  lemma {:induction false} TurnsInside(index: nat, len: nat, k: nat)
    requires index < 64 && NoWrap(index, len) && MakesTurn(index, len, k)
    ensures CounterAt(index, k) == 64 - index + 64 * k && CounterAt(index, k) + 64 <= len
  {
    if k > 0 { TurnsInside(index, len, k - 1); }
    var i, s := 64 - index + 64 * k, 64 - index;
    assert i <= len && len - i == len - s - 64 * k;
    LastBlock(len - s, k);
    assert i <= len - (len - s) % 64;
    SmallRemainder(i);
    SmallRemainder(i + 64);
    assert (CounterAt(index, k) + 64) % 0x1_0000_0000 <= len;
  }

  /** Without the condition the loop gets to its last block and then goes on. */
  lemma WrapReadsOn(index: nat, len: nat) returns (k: nat)
    requires index < 64 && len < 0x1_0000_0000 && !NoWrap(index, len)
    ensures Overreads(index, len, k)
  {
    var s := 64 - index;
    k := (len - s) / 64;
    LastBlock(len - s, k);
    forall t | 0 <= t <= k ensures (CounterAt(index, t) + 64) % 0x1_0000_0000 <= len {
      var i := s + 64 * t;
      SmallRemainder(i);
      if t < k {
        SmallRemainder(i + 64);
      } else {
        assert i == len - (len - s) % 64 && i + 64 >= 0x1_0000_0000;
        SmallRemainder(i + 64 - 0x1_0000_0000);
        SameRemainder(i + 64, i + 64 - 0x1_0000_0000, 1);
      }
    }
    SmallRemainder(s + 64 * k);
  }

  /** The condition is exact: without it, and only then, the loop reads behind the input. */
  lemma NoWrapExact(index: nat, len: nat)
    requires index < 64 && len < 0x1_0000_0000
    ensures NoWrap(index, len) <==> forall k: nat :: !Overreads(index, len, k)
  {
    if NoWrap(index, len) {
      forall k: nat ensures !Overreads(index, len, k) {
        if MakesTurn(index, len, k) { TurnsInside(index, len, k); }
      }
    } else {
      var k := WrapReadsOn(index, len);
    }
  }

  class Context {
    const transform: BlockFunction
    var count: seq<Word>
    var state: State
    const buffer: array<Byte>
    ghost var fed: seq<Byte>

    /** The context holds exactly what MD5 needs of the message fed so far. */
    ghost predicate Valid()
      reads this, buffer
    {
      && buffer.Length == 64
      && count == BitCount(|fed|)
      && state == FoldBlocks(transform, INIT, Whole(fed))
      && buffer[..|fed| % 64] == Left(fed)
    }

    /** MD5Init */
    constructor (transform: BlockFunction)
      ensures Valid() && fed == [] && this.transform == transform && fresh(buffer)
    {
      this.transform := transform;
      count, state, fed := [0, 0], INIT, [];
      buffer := new Byte[64](_ => 0);
    }

    method CopyIn(index: nat, input: seq<Byte>)
      requires buffer.Length == 64 && index + |input| <= 64
      modifies buffer
      ensures buffer[..index + |input|] == old(buffer[..index]) + input
    {
      for k := 0 to |input|
        invariant buffer[..index] == old(buffer[..index])
        invariant buffer[index..index + k] == input[..k]
      {
        buffer[index + k] := input[k];
      }
      assert buffer[..index + |input|] == buffer[..index] + buffer[index..index + |input|];
    }

    /** The loop over complete blocks of the input from index start on. */
    method Blocks(input: seq<Byte>, start: nat, ghost all: seq<Byte>, ghost done: nat) returns (i: nat)
      requires start <= |input| < 0x1_0000_0000 && |input| - (|input| - start) % 64 + 64 < 0x1_0000_0000
      requires |all| == 64 * done + |input| - start && all[64 * done..] == input[start..]
      requires state == FoldBlocks(transform, INIT, all[..64 * done])
      modifies this`state
      ensures start <= i <= |input| && |input| - i == (|input| - start) % 64
      ensures (64 * done + i - start) % 64 == 0
      ensures state == FoldBlocks(transform, INIT, all[..64 * done + i - start])
    {
      i := start;
      ghost var k, at: nat := 0, 64 * done;
      while (i + 64) % 0x1_0000_0000 <= |input|
        invariant k <= (|input| - start) / 64 && i == start + 64 * k
        invariant at % 64 == 0 && at == 64 * done + (i - start) && at <= |all|
        invariant state == FoldBlocks(transform, INIT, all[..at])
        decreases |input| - i
      {
        LastBlock(|input| - start, k);
        SameBlock(all, 64 * done, input, start, i - start);
        NextBlock(transform, all, at);
        state := transform(state, input[i..i + 64]);
        i, k, at := i + 64, k + 1, at + 64;
      }
      LastBlock(|input| - start, k);
    }

    /** The branch of an update that completes the buffer and runs over the complete blocks. */
    method CompleteBlocks(input: seq<Byte>, index: nat) returns (i: nat)
      requires buffer.Length == 64 && index == |fed| % 64 && |input| >= 64 - index && NoWrap(index, |input|)
      requires buffer[..index] == Left(fed) && state == FoldBlocks(transform, INIT, Whole(fed))
      modifies this`state, buffer
      ensures 0 < i <= |input| && |input| - i < 64 && (|fed| + i) % 64 == 0
      ensures state == FoldBlocks(transform, INIT, (fed + input)[..|fed| + i])
    {
      var partlen := 64 - index;
      CopyIn(index, input[..partlen]);
      FirstBlock(transform, fed, input, buffer[..]);
      state := transform(state, buffer[..]);
      ghost var all, done := fed + input, |fed| / 64 + 1;
      assert |fed| + partlen == 64 * done;
      assert all[64 * done..] == input[partlen..];
      i := Blocks(input, partlen, all, done);
    }

    /** MD5Update */
    method Update(input: seq<Byte>)
      requires Valid() && NoWrap(|fed| % 64, |input|)
      modifies this, buffer
      ensures Valid() && fed == old(fed) + input
    {
      IndexOfCount(|fed|);
      CountAdds(|fed|, |input|);
      var index := count[0] / 8 % 64;
      var partlen := 64 - index;
      var i: nat := 0;
      count := AddCount(count, |input|);
      if |input| >= partlen {
        i := CompleteBlocks(input, index);
        index := 0;
      }
      ghost var kept := buffer[..index];
      CopyIn(index, input[i..]);
      FedTail(fed, input, index, i, kept);
      fed := fed + input;
    }

    /** MD5Final */
    method Final() returns (digest: seq<Byte>)
      requires Valid()
      modifies this, buffer
      ensures digest == Digest(transform, old(fed))
      ensures Valid() && fed == Padded(old(fed))
    {
      IndexOfCount(|fed|);
      var index := count[0] / 8 % 64;
      var padlen := if index < 56 then 56 - index else 120 - index;
      var bits := Encode(count);
      assert padlen == PadLength(|fed|);
      Update(Padding(padlen));
      Update(bits);
      assert fed == Padded(old(fed));
      WholeBlocks(Padded(old(fed)));
      digest := Encode([state.a, state.b, state.c, state.d]);
    }
  }

  lemma LastBlock(n: nat, k: nat)
    requires k <= n / 64
    ensures k < n / 64 <==> 64 * k + 64 <= n
    ensures k == n / 64 ==> n - 64 * k == n % 64
    ensures 64 * k <= n - n % 64
  {
  }

  lemma SameBlock(m: seq<Byte>, at: nat, input: seq<Byte>, start: nat, k: nat)
    requires at <= |m| && start <= |input| && m[at..] == input[start..] && start + k + 64 <= |input|
    ensures |m| - at == |input| - start && m[at + k..at + k + 64] == input[start + k..start + k + 64]
  {
    assert m[at + k..at + k + 64] == m[at..][k..k + 64];
    assert input[start + k..start + k + 64] == input[start..][k..k + 64];
  }

  lemma WholeBlocks(m: seq<Byte>)
    requires |m| % 64 == 0
    ensures Whole(m) == m
  {
  }

  /** The first block of an update is what was left over, completed from the input. */
  lemma FirstBlock(f: BlockFunction, fed: seq<Byte>, input: seq<Byte>, block: seq<Byte>)
    requires |input| >= 64 - |fed| % 64
    requires block == Left(fed) + input[..64 - |fed| % 64]
    ensures var n := |fed| + (64 - |fed| % 64);
      n % 64 == 0
      && FoldBlocks(f, INIT, (fed + input)[..n]) == f(FoldBlocks(f, INIT, Whole(fed)), block)
  {
    var n := |fed| + (64 - |fed| % 64);
    FoldOne(f, INIT, Whole(fed), block);
    assert (fed + input)[..n] == Whole(fed) + block;
  }

  lemma NextBlock(f: BlockFunction, m: seq<Byte>, at: nat)
    requires at % 64 == 0 && at + 64 <= |m|
    ensures FoldBlocks(f, INIT, m[..at + 64]) == f(FoldBlocks(f, INIT, m[..at]), m[at..at + 64])
  {
    FoldOne(f, INIT, m[..at], m[at..at + 64]);
    assert m[..at + 64] == m[..at] + m[at..at + 64];
  }

  /** What an update leaves in the buffer is the rest of the message. */
  lemma FedTail(fed: seq<Byte>, input: seq<Byte>, index: nat, i: nat, kept: seq<Byte>)
    requires i <= |input| && |kept| == index && index + |input| - i < 64
    requires if i == 0 then index == |fed| % 64 && kept == Left(fed)
             else index == 0 && (|fed| + i) % 64 == 0
    ensures var all := fed + input;
      && |all| % 64 == index + (|input| - i)
      && Left(all) == kept + input[i..]
      && Whole(all) == (if i == 0 then Whole(fed) else all[..|fed| + i])
  {
    var all := fed + input;
    var r := index + (|input| - i);
    assert |all| - r == if i == 0 then |fed| - |fed| % 64 else |fed| + i;
    assert (|all| - r) % 64 == 0;
    assert |all| % 64 == r;
  }

  /**
   Any two ways to feed the same message in pieces leave the same count, the same chaining state
   and the same live part of the buffer.
   */
  lemma SplitsAgree(x: Context, y: Context)
    requires x.Valid() && y.Valid() && x.transform == y.transform && x.fed == y.fed
    ensures x.count == y.count && x.state == y.state
    ensures x.buffer[..|x.fed| % 64] == y.buffer[..|x.fed| % 64]
  {
  }
}
