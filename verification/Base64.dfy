/**
 Base64 (section 4 of RFC 4648) as the server codes it: three octets are gathered in a number and
 written as four characters, and back. Shifts and masks are written as powers of two.
 */
module Base64 {
  import opened Bytes

  type Place = p: int | 0 <= p < 64

  /** A place that strrchr finds: also that of the padding sign, 64, and of the NUL, 65. */
  type Found = p: int | 0 <= p <= 65

  // ----- the alphabet

  /** A to Z, a to z, 0 to 9, plus and slash, and at place 64 the padding sign. */
  function CharAt(i: nat): char
    requires i < 65
  {
    if i < 26 then (65 + i) as char
    else if i < 52 then (97 + i - 26) as char
    else if i < 62 then (48 + i - 52) as char
    else if i == 62 then '+'
    else if i == 63 then '/'
    else '='
  }

  /** The text that strrchr searches: the alphabet and the NUL that ends it, at place 65. */
  function BaseAt(i: nat): char
    requires i <= 65
  {
    if i == 65 then '\0' else CharAt(i)
  }

  /** The place of a character; -1 stands for the NULL that strrchr returns. */
  function PlaceOf(ch: char): (pos: int)
    ensures -1 <= pos <= 65
    ensures 0 <= pos ==> BaseAt(pos) == ch
  {
    if 'A' <= ch <= 'Z' then ch as int - 65
    else if 'a' <= ch <= 'z' then ch as int - 97 + 26
    else if '0' <= ch <= '9' then ch as int - 48 + 52
    else if ch == '+' then 62
    else if ch == '/' then 63
    else if ch == '=' then 64
    else if ch == '\0' then 65
    else -1
  }

  /** strrchr on the alphabet: the last place that holds the character. */
  method FindPos(ch: char) returns (pos: int)
    ensures pos == PlaceOf(ch)
  {
    pos := 65;
    while pos >= 0 && BaseAt(pos) != ch
      invariant -1 <= pos <= 65
      invariant forall k :: pos < k <= 65 ==> BaseAt(k) != ch
    {
      pos := pos - 1;
    }
    if pos >= 0 {
      PlaceExact(ch, pos);
    }
  }

  /** A place is found exactly for its own character, and only there. */
  lemma PlaceExact(ch: char, k: nat)
    requires k <= 65
    ensures PlaceOf(ch) == k <==> BaseAt(k) == ch
  {
    var i := PlaceOf(BaseAt(k));
    assert BaseAt(i) == BaseAt(k);
  }

  /** The characters in order, as section 4 of RFC 4648 lists them. */
  lemma AlphabetExact(k: nat)
    requires k < 26
    ensures CharAt(k) == "ABCDEFGHIJKLMNOPQRSTUVWXYZ"[k] && CharAt(26 + k) == "abcdefghijklmnopqrstuvwxyz"[k]
    ensures k < 10 ==> CharAt(52 + k) == "0123456789"[k]
    ensures CharAt(62) == '+' && CharAt(63) == '/' && CharAt(64) == '='
  {
    UpperLetters(k);
    LowerLetters(k);
  }

  lemma UpperLetters(k: nat)
    requires k < 26
    ensures "ABCDEFGHIJKLMNOPQRSTUVWXYZ"[k] as int == 65 + k
  {
  }

  lemma LowerLetters(k: nat)
    requires k < 26
    ensures "abcdefghijklmnopqrstuvwxyz"[k] as int == 97 + k
  {
  }

  // ----- groups of four characters

  /** The first octets of a group as one number of 24 bits. */
  function Gather(g: seq<Byte>): (n: nat)
    requires 1 <= |g| <= 3
    ensures n < 0x100_0000
  {
    (g[0] as int) * 0x1_0000 + (if |g| > 1 then (g[1] as int) * 0x100 else 0) + (if |g| > 2 then g[2] else 0)
  }

  /** Six bits of the number, shifted down and masked; i counts from the highest. */
  function SextetAt(n: nat, i: nat): Place
    requires i < 4
  {
    (if i == 0 then n / 0x4_0000 else if i == 1 then n / 0x1000 else if i == 2 then n / 64 else n) % 64
  }

  function Sextets(n: nat): (s: seq<Place>)
    requires n < 0x100_0000
    ensures |s| == 4
  {
    [SextetAt(n, 0), SextetAt(n, 1), SextetAt(n, 2), SextetAt(n, 3)]
  }

  function EncodeGroup(g: seq<Byte>): (s: string)
    requires 1 <= |g| <= 3
    ensures |s| == 4
  {
    var x := Sextets(Gather(g));
    [CharAt(x[0]), CharAt(x[1]), if |g| > 1 then CharAt(x[2]) else '=', if |g| > 2 then CharAt(x[3]) else '=']
  }

  function Encoded(data: seq<Byte>): string {
    if |data| == 0 then ""
    else if |data| <= 3 then EncodeGroup(data)
    else EncodeGroup(data[..3]) + Encoded(data[3..])
  }

  lemma {:induction false} EncodedLength(data: seq<Byte>)
    ensures |Encoded(data)| == (|data| + 2) / 3 * 4
  {
    if |data| > 3 {
      EncodedLength(data[3..]);
      assert |Encoded(data)| == 4 + |Encoded(data[3..])|;
      assert (|data| + 2) / 3 == 1 + (|data| - 1) / 3;
    }
  }

  lemma {:induction false} EncodedAppend(a: seq<Byte>, g: seq<Byte>, k: nat)
    requires |a| == 3 * k && 1 <= |g| <= 3
    ensures Encoded(a + g) == Encoded(a) + EncodeGroup(g)
  {
    if |a| == 0 {
      assert a + g == g;
      assert Encoded(a) == "";
    } else {
      assert (a + g)[..3] == a[..3] && (a + g)[3..] == a[3..] + g;
      EncodedAppend(a[3..], g, k - 1);
      if |a| == 3 { assert a[..3] == a && a[3..] == []; }
    }
  }

  /** The test vectors of section 10 of RFC 4648, here for texts of one group. */
  lemma ShortVectors()
    ensures Encoded([102]) == "Zg==" && Encoded([102, 111]) == "Zm8=" && Encoded([102, 111, 111]) == "Zm9v"
  {
    GroupOf([102], 0x66_0000, [25, 32, 0, 0]);
    GroupOf([102, 111], 0x66_6f00, [25, 38, 60, 0]);
    GroupOf([102, 111, 111], 0x66_6f6f, [25, 38, 61, 47]);
  }

  lemma SecondGroups()
    ensures EncodeGroup([98]) == "Yg==" && EncodeGroup([98, 97]) == "YmE=" && EncodeGroup([98, 97, 114]) == "YmFy"
  {
    GroupOf([98], 0x62_0000, [24, 32, 0, 0]);
    GroupOf([98, 97], 0x62_6100, [24, 38, 4, 0]);
    GroupOf([98, 97, 114], 0x62_6172, [24, 38, 5, 50]);
  }

  lemma GroupOf(g: seq<Byte>, n: nat, x: seq<Place>)
    requires 1 <= |g| <= 3 && Gather(g) == n < 0x100_0000 && |x| == 4
    requires n == (x[0] as int) * 0x4_0000 + (x[1] as int) * 0x1000 + (x[2] as int) * 64 + x[3] as int
    ensures EncodeGroup(g)
         == [CharAt(x[0]), CharAt(x[1]), if |g| > 1 then CharAt(x[2]) else '=', if |g| > 2 then CharAt(x[3]) else '=']
  {
    SextetsFrom(x[0], x[1], x[2], x[3]);
  }

  lemma SextetsFrom(a: Place, b: Place, c: Place, d: Place)
    ensures Sextets((a as int) * 0x4_0000 + (b as int) * 0x1000 + (c as int) * 64 + d as int) == [a, b, c, d]
  {
    var n := (a as int) * 0x4_0000 + (b as int) * 0x1000 + (c as int) * 64 + d as int;
    assert n / 64 == (a as int) * 0x1000 + (b as int) * 64 + c as int;
    assert n / 0x1000 == (a as int) * 64 + b as int;
    assert n / 0x4_0000 == a as int;
  }

  /** Texts that need the last two characters of the alphabet. */
  lemma LastCharacters()
    ensures Encoded([0xFB, 0xFF, 0xBF]) == "+/+/" && Encoded([0xFF, 0xFF, 0xFF]) == "////" && Encoded([0xFB, 0xEF]) == "++8="
  {
    GroupOf([0xFB, 0xFF, 0xBF], 0xFB_FFBF, [62, 63, 62, 63]);
    GroupOf([0xFF, 0xFF, 0xFF], 0xFF_FFFF, [63, 63, 63, 63]);
    GroupOf([0xFB, 0xEF], 0xFB_EF00, [62, 62, 60, 0]);
  }

  /** The same for texts of two groups. */
  lemma LongVectors()
    ensures Encoded([102, 111, 111, 98]) == "Zm9vYg=="
    ensures Encoded([102, 111, 111, 98, 97]) == "Zm9vYmE="
    ensures Encoded([102, 111, 111, 98, 97, 114]) == "Zm9vYmFy"
  {
    var foo: seq<Byte> := [102, 111, 111];
    ShortVectors();
    SecondGroups();
    EncodedAppend(foo, [98], 1);
    EncodedAppend(foo, [98, 97], 1);
    EncodedAppend(foo, [98, 97, 114], 1);
    assert foo + [98] == [102, 111, 111, 98];
    assert foo + [98, 97] == [102, 111, 111, 98, 97];
    assert foo + [98, 97, 114] == [102, 111, 111, 98, 97, 114];
  }

  /** The inner loop of base64_encode: up to three octets, shifted to the left of 24 bits. */
  method GatherGroup(data: seq<Byte>, from: nat) returns (prepare: nat, temp: nat)
    requires from < |data|
    ensures 1 <= temp <= 3 && temp == (if |data| - from < 3 then |data| - from else 3)
    ensures prepare == Gather(data[from..from + temp])
  {
    temp, prepare := 0, 0;
    while temp < 3 && from + temp < |data|
      invariant temp <= 3 && from + temp <= |data|
      invariant temp == 0 ==> prepare == 0
      invariant temp == 1 ==> prepare == data[from] as int
      invariant temp == 2 ==> prepare == (data[from] as int) * 256 + data[from + 1] as int
      invariant temp == 3 ==>
        prepare == (data[from] as int) * 0x1_0000 + (data[from + 1] as int) * 256 + data[from + 2] as int
    {
      prepare := prepare * 256 + data[from + temp] as int;
      temp := temp + 1;
    }
    if temp < 2 { prepare := prepare * 256; }
    if temp < 3 { prepare := prepare * 256; }
  }

  /** The loop of base64_encode that writes four characters. */
  method WriteGroup(prepare: nat, temp: nat, ghost g: seq<Byte>) returns (s: string)
    requires 1 <= temp <= 3 && temp == |g| && prepare == Gather(g)
    ensures s == EncodeGroup(g)
  {
    s := "";
    var i := 0;
    while i < 4
      invariant i <= 4 && s == EncodeGroup(g)[..i]
    {
      var changed: nat := 64;
      if temp >= i { changed := SextetAt(prepare, i); }
      s := s + [CharAt(changed)];
      i := i + 1;
    }
  }

  lemma EncodedStep(data: seq<Byte>, tmp: nat, temp: nat, k: nat)
    requires tmp == 3 * k && 1 <= temp <= 3 && tmp + temp <= |data|
    ensures Encoded(data[..tmp + temp]) == Encoded(data[..tmp]) + EncodeGroup(data[tmp..tmp + temp])
  {
    assert data[..tmp + temp] == data[..tmp] + data[tmp..tmp + temp];
    EncodedAppend(data[..tmp], data[tmp..tmp + temp], k);
  }

  /** One round of the loop of base64_encode: a group is gathered and written. */
  method EncodeNext(data: seq<Byte>, tmp: nat, ghost k: nat) returns (four: string, temp: nat)
    requires tmp < |data| && tmp == 3 * k
    ensures 1 <= temp && tmp + temp <= |data| && (tmp + temp == |data| || temp == 3)
    ensures Encoded(data[..tmp + temp]) == Encoded(data[..tmp]) + four
  {
    var prepare;
    prepare, temp := GatherGroup(data, tmp);
    four := WriteGroup(prepare, temp, data[tmp..tmp + temp]);
    EncodedStep(data, tmp, temp, k);
  }

  /** base64_encode */
  method Encode(data: seq<Byte>) returns (ret: string)
    ensures ret == Encoded(data)
  {
    ret := "";
    var tmp := 0;
    ghost var k: nat := 0;
    while tmp < |data|
      invariant tmp <= |data| && (tmp == 3 * k || tmp == |data|)
      invariant ret == Encoded(data[..tmp])
    {
      var four, temp := EncodeNext(data, tmp, k);
      ret := ret + four;
      tmp := tmp + temp;
      k := k + 1;
    }
    assert data[..tmp] == data;
  }

  // ----- decoding

  /** Up to four sextets, filled up with zeros, as one number of 24 bits. */
  function Join(s: seq<Place>): (n: nat)
    requires 1 <= |s| <= 4
    ensures n < 0x100_0000
  {
    (s[0] as int) * 0x4_0000 + (if |s| > 1 then (s[1] as int) * 0x1000 else 0)
      + (if |s| > 2 then (s[2] as int) * 64 else 0) + (if |s| > 3 then s[3] as int else 0)
  }

  function Octets(n: nat): (r: seq<Byte>)
    requires n < 0x100_0000
    ensures |r| == 3
  {
    [n / 0x1_0000, n / 0x100 % 0x100, n % 0x100]
  }

  function DecodeGroup(s: seq<Place>): seq<Byte>
    requires 1 <= |s| <= 4
  {
    if |s| < 3 then Octets(Join(s))[..|s|] else Octets(Join(s))
  }

  function Decoded(s: seq<Place>): seq<Byte>
  {
    if |s| == 0 then []
    else if |s| <= 4 then DecodeGroup(s)
    else DecodeGroup(s[..4]) + Decoded(s[4..])
  }

  /** How many of the last three characters are padding signs. */
  function EqualCount(data: string): (n: nat)
    requires |data| >= 3
    ensures n <= 3
  {
    (if data[|data| - 1] == '=' then 1 else 0) + (if data[|data| - 2] == '=' then 1 else 0)
      + (if data[|data| - 3] == '=' then 1 else 0)
  }

  /** Padding signs are counted at the last three places. */
  lemma EqualsCounted(data: string) returns (places: set<int>)
    requires |data| >= 3
    ensures forall i :: i in places <==> |data| - 3 <= i < |data| && data[i] == '='
    ensures EqualCount(data) == |places|
  {
    var n := |data|;
    var last, middle := if data[n - 1] == '=' then {n - 1} else {}, if data[n - 2] == '=' then {n - 2} else {};
    places := (if data[n - 3] == '=' then {n - 3} else {}) + middle + last;
  }

  /** The octets of a group, whatever its length: 8 bits each from the sextets, first to last. */
  lemma GroupOctets(s: seq<Place>)
    requires 1 <= |s| <= 4
    ensures var a: int, b: int := s[0], if |s| > 1 then s[1] else 0;
      var c: int, d: int := if |s| > 2 then s[2] else 0, if |s| > 3 then s[3] else 0;
      var octets := [4 * a + b / 16, 16 * (b % 16) + c / 4, 64 * (c % 4) + d];
      DecodeGroup(s) == if |s| == 1 then octets[..1] else if |s| == 2 then octets[..2] else octets
  {
    var a: int, b: int := s[0], if |s| > 1 then s[1] else 0;
    var c: int, d: int := if |s| > 2 then s[2] else 0, if |s| > 3 then s[3] else 0;
    JoinedOctets(a, b, c, d);
  }

  lemma JoinedOctets(a: int, b: int, c: int, d: int)
    requires 0 <= a < 64 && 0 <= b < 64 && 0 <= c < 64 && 0 <= d < 64
    ensures var n := a * 0x4_0000 + b * 0x1000 + c * 64 + d;
      && n / 0x1_0000 == 4 * a + b / 16 && n / 0x100 % 0x100 == 16 * (b % 16) + c / 4
      && n % 0x100 == 64 * (c % 4) + d
  {
    var n := a * 0x4_0000 + b * 0x1000 + c * 64 + d;
    var high, middle, low := 4 * a + b / 16, 16 * (b % 16) + c / 4, 64 * (c % 4) + d;
    LowByte(n, 0x100 * high + middle, low);
    LowByte(0x100 * high + middle, high, middle);
    TwoBytes(n, high, 0x100 * middle + low);
  }

  lemma LowByte(n: int, q: int, r: int)
    requires n == 0x100 * q + r && 0 <= r < 0x100
    ensures n / 0x100 == q && n % 0x100 == r
  {
  }

  lemma TwoBytes(n: int, q: int, r: int)
    requires n == 0x1_0000 * q + r && 0 <= r < 0x1_0000
    ensures n / 0x1_0000 == q
  {
  }

  /** The text without as many characters as there are padding signs. */
  function Payload(data: string): string
    requires |data| >= 3
  {
    data[..|data| - EqualCount(data)]
  }

  predicate InAlphabet(s: string) {
    forall i :: 0 <= i < |s| ==> 0 <= PlaceOf(s[i]) < 64
  }

  /** strrchr finds every character; the padding sign and the NUL are found behind the alphabet. */
  predicate Findable(s: string) {
    forall i :: 0 <= i < |s| ==> PlaceOf(s[i]) >= 0
  }

  function WithLowBit(p: Place): Place {
    p - p % 2 + 1
  }

  function FoundIn(s: string): (r: seq<Found>)
    requires Findable(s)
    ensures |r| == |s| && forall i :: 0 <= i < |r| ==> r[i] == PlaceOf(s[i])
  {
    seq(|s|, i requires 0 <= i < |s| => PlaceOf(s[i]))
  }

  /**
   What character i contributes. A padding sign or a NUL has a place of seven bits; the highest
   one falls on the lowest bit of the character before it in the same group of four.
   */
  function PlaceAt(f: seq<Found>, i: nat): Place
    requires i < |f|
  {
    if i % 4 != 3 && i + 1 < |f| && f[i + 1] >= 64 then WithLowBit(f[i] % 64) else f[i] % 64
  }

  function Contributed(f: seq<Found>): (r: seq<Place>)
    ensures |r| == |f| && forall i :: 0 <= i < |r| ==> r[i] == PlaceAt(f, i)
  {
    seq(|f|, i requires 0 <= i < |f| => PlaceAt(f, i))
  }

  function Places(s: string): (r: seq<Place>)
    requires Findable(s)
    ensures |r| == |s|
    ensures InAlphabet(s) ==> forall i :: 0 <= i < |r| ==> r[i] == PlaceOf(s[i])
  {
    Contributed(FoundIn(s))
  }

  /**
   A character counts as its own place exactly if it is in the alphabet and no padding sign or
   NUL follows it in its group, or its place is odd.
   */
  lemma PlaceKeptExact(s: string, i: nat)
    requires Findable(s) && i < |s|
    ensures Places(s)[i] == PlaceOf(s[i]) <==>
      && PlaceOf(s[i]) < 64
      && (i % 4 != 3 && i + 1 < |s| && PlaceOf(s[i + 1]) >= 64 ==> PlaceOf(s[i]) % 2 == 1)
  {
    assert Places(s)[i] == PlaceAt(FoundIn(s), i);
  }

  lemma {:induction false} DecodedAppend(a: seq<Place>, g: seq<Place>, k: nat)
    requires |a| == 4 * k && 1 <= |g| <= 4
    ensures Decoded(a + g) == Decoded(a) + DecodeGroup(g)
  {
    if |a| == 0 {
      assert a + g == g;
      assert Decoded(a) == [];
    } else {
      assert (a + g)[..4] == a[..4] && (a + g)[4..] == a[4..] + g;
      DecodedAppend(a[4..], g, k - 1);
      if |a| == 4 { assert a[..4] == a && a[4..] == []; }
    }
  }

  lemma DecodedStep(all: seq<Place>, tmp: nat, temp: nat, k: nat)
    requires tmp == 4 * k && 1 <= temp <= 4 && tmp + temp <= |all|
    ensures Decoded(all[..tmp + temp]) == Decoded(all[..tmp]) + DecodeGroup(all[tmp..tmp + temp])
  {
    assert all[..tmp + temp] == all[..tmp] + all[tmp..tmp + temp];
    DecodedAppend(all[..tmp], all[tmp..tmp + temp], k);
  }

  /** The places as one number, the first one highest. */
  function Big(s: seq<Place>): nat {
    if s == [] then 0 else Big(s[..|s| - 1]) * 64 + s[|s| - 1] as int
  }

  lemma BigAppend(s: seq<Place>, p: Place)
    ensures Big(s + [p]) == Big(s) * 64 + p as int
  {
    assert (s + [p])[..|s|] == s;
  }

  lemma {:induction false} BigOf(s: seq<Place>)
    ensures |s| == 1 ==> Big(s) == s[0] as int
    ensures |s| == 2 ==> Big(s) == (s[0] as int) * 64 + s[1] as int
    ensures |s| == 3 ==> Big(s) == (s[0] as int) * 0x1000 + (s[1] as int) * 64 + s[2] as int
    ensures |s| == 4 ==> Big(s) == (s[0] as int) * 0x4_0000 + (s[1] as int) * 0x1000 + (s[2] as int) * 64 + s[3] as int
  {
    if s != [] { BigOf(s[..|s| - 1]); }
  }

  /** A shift to the left by k times six bits. */
  function Shifted(n: nat, k: nat): nat
    requires k <= 3
  {
    if k == 0 then n else if k == 1 then n * 64 else if k == 2 then n * 0x1000 else n * 0x4_0000
  }

  /** Shifting the number to the left of 24 bits is filling the group up with zeros. */
  lemma BigJoin(s: seq<Place>)
    requires 1 <= |s| <= 4
    ensures Join(s) == Shifted(Big(s), 4 - |s|)
  {
    BigOf(s);
  }

  /** prepare << 6 | pos, for a place of up to seven bits. */
  function OrInto(prepare: nat, pos: nat): nat {
    if pos < 64 then prepare * 64 + pos else (prepare - prepare % 2 + 1) * 64 + (pos - 64)
  }

  /** What the inner loop of base64_decode has gathered from a group. */
  function Gathered(f: seq<Found>): nat {
    if f == [] then 0 else OrInto(Gathered(f[..|f| - 1]), f[|f| - 1])
  }

  /** A 64th of the seventh bit of a first place, which is shifted out in front of the places. */
  function Overflow(f: seq<Found>): nat
    requires |f| <= 4
  {
    if f == [] || f[0] < 64 then 0 else Shifted(1, |f| - 1)
  }

  /** The number gathered is that of the places, but for the bit in front of them. */
  lemma {:induction false} GatheredPlaces(f: seq<Found>)
    requires |f| <= 4
    ensures Gathered(f) == 64 * Overflow(f) + Big(Contributed(f))
  {
    if f != [] {
      var n := |f| - 1;
      GatheredPlaces(f[..n]);
      NextPlace(f, n);
      OverflowStep(f, n);
      OneMorePlace(Gathered(f[..n]), Overflow(f[..n]), Contributed(f[..n]), f[n], Overflow(f), Contributed(f));
    }
  }

  lemma OneMorePlace(g: nat, high: nat, was: seq<Place>, pos: Found, higher: nat, now: seq<Place>)
    requires g == 64 * high + Big(was) && higher == NextOverflow(high, |was|, pos)
    requires now == Raised(was, pos) + [pos % 64] && (was == [] ==> high == 0)
    ensures OrInto(g, pos) == 64 * higher + Big(now)
  {
    NextBig(was, pos, now);
    if was == [] {
      FirstPlace(pos);
    } else {
      OrIntoPlaces(high, was, pos);
    }
  }

  lemma NextBig(was: seq<Place>, pos: Found, now: seq<Place>)
    requires now == Raised(was, pos) + [pos % 64]
    ensures Big(now) == Big(Raised(was, pos)) * 64 + pos % 64
  {
    BigAppend(Raised(was, pos), pos % 64);
  }

  lemma FirstPlace(pos: Found)
    ensures OrInto(0, pos) == (if pos < 64 then 0 else 64) + pos % 64
  {
  }

  function NextOverflow(high: nat, n: nat, pos: Found): nat {
    if n == 0 then (if pos < 64 then 0 else 1) else 64 * high
  }

  lemma OverflowStep(f: seq<Found>, n: nat)
    requires |f| == n + 1 <= 4
    ensures Overflow(f) == NextOverflow(Overflow(f[..n]), n, f[n])
  {
  }

  /** Reading one more place leaves the ones before it, or sets the lowest bit of the last. */
  lemma NextPlace(f: seq<Found>, n: nat)
    requires |f| == n + 1 <= 4
    ensures Contributed(f) == Raised(Contributed(f[..n]), f[n]) + [f[n] % 64]
  {
    assert forall i :: 0 <= i < n ==> Contributed(f)[i] == Raised(Contributed(f[..n]), f[n])[i];
  }

  /** The places of a group when another character follows. */
  function Raised(s: seq<Place>, pos: Found): (r: seq<Place>)
    ensures |r| == |s|
  {
    if s == [] || pos < 64 then s else s[..|s| - 1] + [WithLowBit(s[|s| - 1])]
  }

  lemma OrIntoPlaces(high: nat, s: seq<Place>, pos: Found)
    requires s != []
    ensures OrInto(64 * high + Big(s), pos) == 64 * (64 * high) + Big(Raised(s, pos)) * 64 + pos % 64
  {
    var p, b := s[|s| - 1], Big(s[..|s| - 1]);
    BigAppend(s[..|s| - 1], p);
    BigAppend(s[..|s| - 1], WithLowBit(p));
    assert s == s[..|s| - 1] + [p];
    OrOne(high + b, p, pos);
  }

  lemma OrOne(m: nat, p: Place, pos: Found)
    ensures OrInto(64 * m + p as int, pos)
         == (64 * m + if pos < 64 then p as int else WithLowBit(p) as int) * 64 + pos % 64
  {
    SameParity(64 * m + p as int, p, 32 * m);
  }

  lemma SameParity(x: nat, y: nat, k: nat)
    requires x == 2 * k + y
    ensures x % 2 == y % 2
  {
  }

  /** A group of four, or a last shorter one, can be taken on its own. */
  lemma GroupOfPlaces(f: seq<Found>, from: nat, to: nat)
    requires from % 4 == 0 && from <= to <= |f| && (to == from + 4 || to == |f| <= from + 4)
    ensures Contributed(f[from..to]) == Contributed(f)[from..to]
  {
    var g := f[from..to];
    forall i | 0 <= i < |g| ensures PlaceAt(g, i) == PlaceAt(f, from + i) {
      assert (from + i) % 4 == i % 4;
    }
  }

  /** The inner loop of base64_decode: up to four places, shifted to the left of 24 bits. */
  method JoinGroup(data: string, from: nat, last: nat, ghost f: seq<Found>) returns (prepare: nat, temp: nat)
    requires from < last <= |data| && |f| == last && from % 4 == 0
    requires forall i :: 0 <= i < last ==> PlaceOf(data[i]) == f[i]
    ensures 1 <= temp <= 4 && temp == (if last - from < 4 then last - from else 4)
    ensures var n := Join(Contributed(f)[from..from + temp]); prepare == n || prepare == n + 0x100_0000
  {
    prepare, temp := ReadPlaces(data, from, last, f);
    ghost var g := f[from..from + temp];
    GroupOfPlaces(f, from, from + temp);
    GatheredPlaces(g);
    BigJoin(Contributed(g));
    prepare := Shifted(prepare, 4 - temp);
  }

  method ReadPlaces(data: string, from: nat, last: nat, ghost f: seq<Found>) returns (prepare: nat, temp: nat)
    requires from < last <= |data| && |f| == last
    requires forall i :: 0 <= i < last ==> PlaceOf(data[i]) == f[i]
    ensures 1 <= temp <= 4 && temp == (if last - from < 4 then last - from else 4)
    ensures prepare == Gathered(f[from..from + temp])
  {
    temp, prepare := 0, 0;
    var tmp := from;
    while temp < 4 && tmp < last
      invariant temp <= 4 && tmp == from + temp <= last
      invariant prepare == Gathered(f[from..tmp])
    {
      var pos := FindPos(data[tmp]);
      GatheredMore(f, from, tmp);
      prepare := OrInto(prepare, pos);
      temp := temp + 1;
      tmp := tmp + 1;
    }
  }

  lemma GatheredMore(f: seq<Found>, from: nat, to: nat)
    requires from <= to < |f|
    ensures Gathered(f[from..to + 1]) == OrInto(Gathered(f[from..to]), f[to])
  {
    var g := f[from..to + 1];
    assert g[..|g| - 1] == f[from..to] && g[|g| - 1] == f[to];
  }

  /** The loop of base64_decode that writes up to three bytes; a bit above the 24 is masked away. */
  method WriteOctets(prepare: nat, temp: nat, ghost g: seq<Place>) returns (s: seq<Byte>)
    requires 1 <= temp <= 4 && temp == |g|
    requires prepare == Join(g) || prepare == Join(g) + 0x100_0000
    ensures s == DecodeGroup(g)
  {
    s := [];
    var i := 0;
    while i < 3 && i != temp
      invariant i <= 3 && i <= temp && s == Octets(Join(g))[..i]
    {
      MaskedAway(Join(g), prepare, i);
      s := s + [OctetAt(prepare, i)];
      i := i + 1;
    }
  }

  /** Eight bits of the number, shifted down and masked; i counts from the highest of 24 bits. */
  function OctetAt(n: nat, i: nat): Byte
    requires i < 3
  {
    (if i == 0 then n / 0x1_0000 else if i == 1 then n / 0x100 else n) % 0x100
  }

  lemma MaskedAway(n: nat, prepare: nat, i: nat)
    requires n < 0x100_0000 && i < 3 && (prepare == n || prepare == n + 0x100_0000)
    ensures OctetAt(prepare, i) == Octets(n)[i]
  {
    assert (n + 0x100_0000) / 0x1_0000 == n / 0x1_0000 + 0x100;
    assert (n + 0x100_0000) / 0x100 == n / 0x100 + 0x1_0000;
  }

  /** The start of base64_decode: the padding signs among the last three characters. */
  method CountEquals(data: string) returns (equalCount: nat)
    requires |data| >= 3
    ensures equalCount == EqualCount(data)
  {
    equalCount := 0;
    if data[|data| - 1] == '=' { equalCount := equalCount + 1; }
    if data[|data| - 2] == '=' { equalCount := equalCount + 1; }
    if data[|data| - 3] == '=' { equalCount := equalCount + 1; }
  }

  /** One round of the loop of base64_decode: a group is read and written. */
  method DecodeNext(data: string, tmp: nat, last: nat, ghost k: nat, ghost f: seq<Found>, ghost all: seq<Place>)
    returns (bytes: seq<Byte>, temp: nat)
    requires tmp < last <= |data| && |f| == last && tmp == 4 * k && all == Contributed(f)
    requires forall i :: 0 <= i < last ==> PlaceOf(data[i]) == f[i]
    ensures 1 <= temp && tmp + temp <= last && (tmp + temp == last || temp == 4)
    ensures Decoded(all[..tmp + temp]) == Decoded(all[..tmp]) + bytes
  {
    var prepare;
    prepare, temp := JoinGroup(data, tmp, last, f);
    bytes := WriteOctets(prepare, temp, all[tmp..tmp + temp]);
    DecodedStep(all, tmp, temp, k);
  }

  /** The outer loop of base64_decode. */
  method DecodeGroups(data: string, last: nat, ghost f: seq<Found>, ghost all: seq<Place>) returns (ret: seq<Byte>)
    requires last <= |data| && |f| == last && all == Contributed(f)
    requires forall i :: 0 <= i < last ==> PlaceOf(data[i]) == f[i]
    ensures ret == Decoded(all)
  {
    ret := [];
    var tmp := 0;
    ghost var k: nat := 0;
    while tmp < last
      invariant tmp <= last && (tmp == 4 * k || tmp == last)
      invariant ret == Decoded(all[..tmp])
    {
      var bytes, temp := DecodeNext(data, tmp, last, k, f, all);
      ret := ret + bytes;
      tmp := tmp + temp;
      k := k + 1;
    }
    assert all[..tmp] == all;
  }

  /** base64_decode of a text of characters that strrchr finds. */
  method Decode(data: string) returns (ret: seq<Byte>)
    requires |data| >= 3 && Findable(Payload(data))
    ensures ret == Decoded(Places(Payload(data)))
  {
    var equalCount := CountEquals(data);
    ret := DecodeGroups(data, |data| - equalCount, FoundIn(Payload(data)), Places(Payload(data)));
  }

  // ----- the round trip

  /** How many padding signs end an encoded text. */
  function Padding(n: nat): nat {
    if n == 0 then 0 else if n <= 3 then 3 - n else Padding(n - 3)
  }

  lemma {:induction false} PaddingFormula(n: nat)
    ensures Padding(n) == if n % 3 == 0 then 0 else 3 - n % 3
  {
    if n > 3 { PaddingFormula(n - 3); }
  }

  /** The sextets of the characters of a group that are not padding. */
  function GroupPlaces(g: seq<Byte>): (s: seq<Place>)
    requires 1 <= |g| <= 3
    ensures |s| == |g| + 1
  {
    Sextets(Gather(g))[..|g| + 1]
  }

  lemma SextetsOf(n: nat)
    requires n < 0x100_0000
    ensures var s := Sextets(n); n == (s[0] as int) * 0x4_0000 + (s[1] as int) * 0x1000 + (s[2] as int) * 64 + s[3] as int
  {
    var a, b, c := n / 64, n / 0x1000, n / 0x4_0000;
    assert n == 64 * a + n % 64 && a == 64 * b + a % 64 && b == 64 * c + b % 64;
    assert c < 64;
  }

  /** A number of 24 bits whose low octets are zero has low sextets that are zero. */
  lemma LowSextets(n: nat)
    requires n < 0x100_0000
    ensures n % 0x1_0000 == 0 ==> Sextets(n)[2] == 0 && Sextets(n)[3] == 0
    ensures n % 0x100 == 0 ==> Sextets(n)[3] == 0
  {
    if n % 0x1_0000 == 0 {
      Sixty4(0x400 * (n / 0x1_0000));
      Sixty4(0x10 * (n / 0x1_0000));
    } else if n % 0x100 == 0 {
      Sixty4(4 * (n / 0x100));
    }
  }

  lemma Sixty4(q: nat)
    ensures 64 * q / 64 == q && 64 * q % 64 == 0
  {
  }

  lemma OctetsOf(a: Byte, b: Byte, c: Byte)
    ensures Octets((a as int) * 0x1_0000 + (b as int) * 0x100 + c as int) == [a, b, c]
  {
    var n := (a as int) * 0x1_0000 + (b as int) * 0x100 + c as int;
    TopOctet(a as int, (b as int) * 0x100 + c as int);
    LowOctet((a as int) * 0x100 + b as int, c);
    LowOctet(a as int, b);
    assert n == ((a as int) * 0x100 + b as int) * 0x100 + c as int;
  }

  lemma LowOctet(q: nat, r: Byte)
    ensures (q * 0x100 + r as int) / 0x100 == q && (q * 0x100 + r as int) % 0x100 == r as int
  {
  }

  lemma TopOctet(q: nat, r: nat)
    requires r < 0x1_0000
    ensures (q * 0x1_0000 + r) / 0x1_0000 == q
  {
  }

  lemma JoinsBack(g: seq<Byte>)
    requires 1 <= |g| <= 3
    ensures Join(GroupPlaces(g)) == Gather(g)
  {
    SextetsOf(Gather(g));
    LowSextets(Gather(g));
    if |g| == 1 { assert Gather(g) == 0x1_0000 * (g[0] as int); }
    else if |g| == 2 { assert Gather(g) == 0x100 * ((g[0] as int) * 0x100 + g[1] as int); }
  }

  /** The bytes of a group come back, followed by a zero byte if the group was not full. */
  lemma GroupRoundTrip(g: seq<Byte>)
    requires 1 <= |g| <= 3
    ensures DecodeGroup(GroupPlaces(g)) == if |g| == 3 then g else g + [0]
  {
    JoinsBack(g);
    OctetsOf(g[0], if |g| > 1 then g[1] else 0, if |g| > 2 then g[2] else 0);
  }

  lemma GroupText(g: seq<Byte>)
    requires 1 <= |g| <= 3
    ensures var t := EncodeGroup(g)[..|g| + 1]; InAlphabet(t) && Places(t) == GroupPlaces(g)
    ensures forall i :: |g| < i < 4 ==> EncodeGroup(g)[i] == '='
    ensures forall i :: 0 <= i <= |g| ==> EncodeGroup(g)[i] != '='
  {
    var x := Sextets(Gather(g));
    var t := EncodeGroup(g)[..|g| + 1];
    forall i | 0 <= i < |t| ensures t[i] == CharAt(x[i]) && PlaceOf(t[i]) == x[i] {
      PlaceExact(t[i], x[i]);
    }
    assert Places(t) == GroupPlaces(g);
  }

  function AllPlaces(data: seq<Byte>): seq<Place>
  {
    if |data| == 0 then []
    else if |data| <= 3 then GroupPlaces(data)
    else GroupPlaces(data[..3]) + AllPlaces(data[3..])
  }

  lemma PlacesAppend(a: string, b: string)
    requires InAlphabet(a) && InAlphabet(b)
    ensures InAlphabet(a + b) && Places(a + b) == Places(a) + Places(b)
  {
  }

  /** The encoded text ends in as many padding signs as its length asks for. */
  lemma {:induction false} EncodedPadding(data: seq<Byte>)
    requires data != []
    ensures |Encoded(data)| >= 4 && EqualCount(Encoded(data)) == Padding(|data|)
  {
    if |data| <= 3 {
      GroupPayload(data);
    } else {
      EncodedPadding(data[3..]);
      SameEqualCount(EncodeGroup(data[..3]), Encoded(data[3..]));
    }
  }

  /** The encoded text without its padding signs gives the sextets. */
  lemma {:induction false} EncodedPayload(data: seq<Byte>)
    requires data != []
    ensures |Encoded(data)| >= 4 && InAlphabet(Payload(Encoded(data)))
    ensures Places(Payload(Encoded(data))) == AllPlaces(data)
  {
    if |data| <= 3 {
      GroupText(data);
      GroupPayload(data);
    } else {
      FullGroup(data[..3]);
      EncodedPayload(data[3..]);
      PayloadSplits(EncodeGroup(data[..3]), Encoded(data[3..]));
    }
  }

  lemma FullGroup(g: seq<Byte>)
    requires |g| == 3
    ensures InAlphabet(EncodeGroup(g)) && Places(EncodeGroup(g)) == GroupPlaces(g)
  {
    GroupText(g);
    assert EncodeGroup(g)[..4] == EncodeGroup(g);
  }

  lemma GroupPayload(g: seq<Byte>)
    requires 1 <= |g| <= 3
    ensures EqualCount(EncodeGroup(g)) == 3 - |g| == Padding(|g|)
    ensures Payload(EncodeGroup(g)) == EncodeGroup(g)[..|g| + 1]
  {
    GroupText(g);
  }

  lemma SameEqualCount(a: string, r: string)
    requires |r| >= 3
    ensures EqualCount(a + r) == EqualCount(r)
  {
    var e := a + r;
    assert e[|e| - 1] == r[|r| - 1] && e[|e| - 2] == r[|r| - 2] && e[|e| - 3] == r[|r| - 3];
  }

  lemma PayloadSplits(a: string, r: string)
    requires |r| >= 4 && InAlphabet(a) && InAlphabet(Payload(r))
    ensures InAlphabet(Payload(a + r)) && Places(Payload(a + r)) == Places(a) + Places(Payload(r))
  {
    SameEqualCount(a, r);
    assert Payload(a + r) == a + Payload(r);
    PlacesAppend(a, Payload(r));
  }

  lemma {:induction false} PlacesDecoded(data: seq<Byte>)
    ensures Decoded(AllPlaces(data)) == data + if Padding(|data|) == 0 then [] else [0]
  {
    if |data| == 0 {
    } else if |data| <= 3 {
      GroupRoundTrip(data);
    } else {
      var g, rest := data[..3], data[3..];
      GroupRoundTrip(g);
      PlacesDecoded(rest);
      var s := AllPlaces(data);
      assert s[..4] == GroupPlaces(g) && s[4..] == AllPlaces(rest);
      assert data == g + rest;
    }
  }

  /** The bytes up to the first zero byte: what a C string function sees. */
  function CString(b: seq<Byte>): seq<Byte> {
    if b == [] || b[0] == 0 then [] else [b[0]] + CString(b[1..])
  }

  lemma {:induction false} CStringEnds(b: seq<Byte>, more: seq<Byte>)
    requires 0 !in b && (more == [] || more[0] == 0)
    ensures CString(b + more) == b
  {
    if b == [] {
      assert b + more == more;
    } else {
      assert (b + more)[1..] == b[1..] + more;
      CStringEnds(b[1..], more);
    }
  }

  /**
   Decoding an encoded text gives the bytes back, followed by one zero byte when their number is
   no multiple of three; so text without a zero byte comes back as the same C string.
   */
  lemma RoundTrip(data: seq<Byte>)
    requires data != []
    ensures |Encoded(data)| == (|data| + 2) / 3 * 4 && InAlphabet(Payload(Encoded(data)))
    ensures Decoded(Places(Payload(Encoded(data)))) == data + if |data| % 3 == 0 then [] else [0]
    ensures 0 !in data ==> CString(Decoded(Places(Payload(Encoded(data))))) == data
  {
    EncodedLength(data);
    var back := DecodedBack(data);
  }

  lemma DecodedBack(data: seq<Byte>) returns (back: seq<Byte>)
    requires data != []
    ensures |Encoded(data)| >= 4 && InAlphabet(Payload(Encoded(data)))
    ensures back == Decoded(Places(Payload(Encoded(data)))) == data + if |data| % 3 == 0 then [] else [0]
    ensures 0 !in data ==> CString(back) == data
  {
    EncodedPayload(data);
    PlacesDecoded(data);
    PaddingFormula(|data|);
    back := data + if Padding(|data|) == 0 then [] else [0];
    if 0 !in data { CStringEnds(data, if Padding(|data|) == 0 then [] else [0]); }
  }
}
