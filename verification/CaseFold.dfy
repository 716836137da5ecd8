/**
 caseFoldCharset: the ranges of a character set are widened by the other case of their ASCII
 letters, sorted, and consolidated.
 */
module CaseFold {
  datatype Range = Range(lo: nat, hi: nat)

  predicate In(c: nat, r: Range) {
    r.lo <= c <= r.hi
  }

  predicate Denotes(rs: seq<Range>, c: nat) {
    exists i :: 0 <= i < |rs| && In(c, rs[i])
  }

  /** The other case of an ASCII letter, and every other code point itself. */
  function OtherCase(c: nat): nat {
    if 65 <= c <= 90 then c + 32 else if 97 <= c <= 122 then c - 32 else c
  }

  function Max(a: nat, b: nat): nat {
    if a < b then b else a
  }

  function Min(a: nat, b: nat): nat {
    if a < b then a else b
  }

  /** x | 32 */
  function SetBit5(x: nat): nat {
    if x / 32 % 2 == 0 then x + 32 else x
  }

  /** x & ~32 */
  function ClearBit5(x: nat): nat {
    if x / 32 % 2 == 1 then x - 32 else x
  }

  /** The comparator given to sort: by start, and by end downwards. */
  predicate Before(a: Range, b: Range) {
    a.lo < b.lo || (a.lo == b.lo && a.hi >= b.hi)
  }

  predicate Sorted(rs: seq<Range>) {
    forall i, j :: 0 <= i < j < |rs| ==> Before(rs[i], rs[j])
  }

  /** Disjoint, in order, and with a gap between neighbours. */
  predicate Consolidated(rs: seq<Range>) {
    && (forall i :: 0 <= i < |rs| ==> rs[i].lo <= rs[i].hi)
    && (forall i, j :: 0 <= i < j < |rs| ==> rs[i].hi + 1 < rs[j].lo)
  }

  lemma DenotesAppend(rs: seq<Range>, r: Range, c: nat)
    ensures Denotes(rs + [r], c) <==> Denotes(rs, c) || In(c, r)
  {
    var u := rs + [r];
    if Denotes(rs, c) {
      var i :| 0 <= i < |rs| && In(c, rs[i]);
      assert In(c, u[i]);
    }
    assert u[|rs|] == r;
  }

  /** What a first loop that has seen the parts must have collected. */
  ghost predicate Widened(parts: seq<Range>, ranges: seq<Range>) {
    && (forall i :: 0 <= i < |ranges| ==> ranges[i].lo <= ranges[i].hi)
    && (forall c :: Denotes(ranges, c) <==> Denotes(parts, c) || Denotes(parts, OtherCase(c)))
  }

  function Upper(r: Range): seq<Range> {
    if !(r.hi < 65 || r.lo > 90) then [Range(SetBit5(Max(65, r.lo)), SetBit5(Min(r.hi, 90)))] else []
  }

  function Lower(r: Range): seq<Range> {
    if !(r.hi < 97 || r.lo > 122) then [Range(ClearBit5(Max(97, r.lo)), ClearBit5(Min(r.hi, 122)))] else []
  }

  /** One round of the first loop: a part of the set, and after it the other case of its letters. */
  method ExpandPart(ranges: seq<Range>, part: Range) returns (wider: seq<Range>)
    ensures wider == ranges + [part] + Upper(part) + Lower(part)
  {
    var start, end := part.lo, part.hi;
    wider := ranges + [Range(start, end)];
    if !(end < 65 || start > 122) {
      if !(end < 65 || start > 90) {
        wider := wider + [Range(SetBit5(Max(65, start)), SetBit5(Min(end, 90)))];
      }
      if !(end < 97 || start > 122) {
        wider := wider + [Range(ClearBit5(Max(97, start)), ClearBit5(Min(end, 122)))];
      }
    }
  }

  /** The first loop. */
  method Expand(parts: seq<Range>) returns (ranges: seq<Range>)
    requires forall i :: 0 <= i < |parts| ==> parts[i].lo <= parts[i].hi
    ensures Widened(parts, ranges)
  {
    ranges := [];
    for i := 0 to |parts|
      invariant Widened(parts[..i], ranges)
    {
      ghost var before := ranges;
      ranges := ExpandPart(ranges, parts[i]);
      WidenedStep(parts[..i], parts[i], before, ranges);
      assert parts[..i + 1] == parts[..i] + [parts[i]];
    }
    assert parts[..|parts|] == parts;
  }

  /** One round adds exactly the part and the other case of its letters. */
  lemma ExpandedPart(before: seq<Range>, part: Range, after: seq<Range>, c: nat)
    requires part.lo <= part.hi
    requires after == before + [part] + Upper(part) + Lower(part)
    ensures Denotes(after, c) <==> Denotes(before, c) || In(c, part) || In(OtherCase(c), part)
  {
    DenotesAppend(before, part, c);
    var one := before + [part];
    var two := one + Upper(part);
    if Upper(part) != [] { DenotesAppend(one, Upper(part)[0], c); } else { assert two == one; }
    if Lower(part) != [] { DenotesAppend(two, Lower(part)[0], c); } else { assert after == two; }
  }

  lemma WidenedStep(seen: seq<Range>, part: Range, before: seq<Range>, after: seq<Range>)
    requires part.lo <= part.hi && Widened(seen, before)
    requires after == before + [part] + Upper(part) + Lower(part)
    ensures Widened(seen + [part], after)
  {
    forall c
      ensures Denotes(after, c) <==> Denotes(seen + [part], c) || Denotes(seen + [part], OtherCase(c))
    {
      ExpandedPart(before, part, after, c);
      DenotesAppend(seen, part, c);
      DenotesAppend(seen, part, OtherCase(c));
    }
  }

  /** The second loop: sorted ranges are merged when they overlap or touch. */
  method Consolidate(ranges: seq<Range>) returns (consolidated: seq<Range>)
    requires Sorted(ranges)
    requires forall i :: 0 <= i < |ranges| ==> ranges[i].lo <= ranges[i].hi
    ensures Consolidated(consolidated)
    ensures forall c :: Denotes(consolidated, c) <==> Denotes(ranges, c)
  {
    consolidated := [];
    for i := 0 to |ranges|
      invariant Consolidated(consolidated)
      invariant forall c :: Denotes(consolidated, c) <==> Denotes(ranges[..i], c)
      invariant forall k, j :: 0 <= k < |consolidated| && i <= j < |ranges| ==> consolidated[k].lo <= ranges[j].lo
    {
      var range := ranges[i];
      ghost var was := consolidated;
      if consolidated != [] && range.lo <= consolidated[|consolidated| - 1].hi + 1 {
        var last := consolidated[|consolidated| - 1];
        consolidated := consolidated[..|consolidated| - 1] + [last.(hi := Max(last.hi, range.hi))];
      } else {
        consolidated := consolidated + [range];
      }
      assert ranges[..i + 1] == ranges[..i] + [range];
      forall c ensures Denotes(consolidated, c) <==> Denotes(ranges[..i + 1], c) {
        DenotesAppend(ranges[..i], range, c);
        if |consolidated| == |was| {
          LastWidened(was, range, c);
        } else {
          DenotesAppend(was, range, c);
        }
      }
    }
    assert ranges[..|ranges|] == ranges;
  }

  /** Widening the last range up to the end of one that overlaps or touches it adds just that one. */
  lemma LastWidened(was: seq<Range>, range: Range, c: nat)
    requires was != []
    requires was[|was| - 1].lo <= range.lo <= range.hi && range.lo <= was[|was| - 1].hi + 1
    ensures var last := was[|was| - 1];
      Denotes(was[..|was| - 1] + [last.(hi := Max(last.hi, range.hi))], c) <==> Denotes(was, c) || In(c, range)
  {
    var front, last := was[..|was| - 1], was[|was| - 1];
    assert was == front + [last];
    DenotesAppend(front, last, c);
    DenotesAppend(front, last.(hi := Max(last.hi, range.hi)), c);
  }

  // ----- the call to sort

  function Insert(r: Range, rs: seq<Range>): seq<Range> {
    if rs == [] || Before(r, rs[0]) then [r] + rs else [rs[0]] + Insert(r, rs[1..])
  }

  /** The array's sort with the comparator above. */
  function Sort(rs: seq<Range>): seq<Range> {
    if rs == [] then [] else Insert(rs[0], Sort(rs[1..]))
  }

  lemma {:induction false} InsertMembers(r: Range, rs: seq<Range>)
    ensures multiset(Insert(r, rs)) == multiset{r} + multiset(rs)
  {
    if rs != [] {
      assert rs == [rs[0]] + rs[1..];
      if !Before(r, rs[0]) { InsertMembers(r, rs[1..]); }
    }
  }

  lemma {:induction false} InsertSorted(r: Range, rs: seq<Range>)
    requires Sorted(rs)
    ensures Sorted(Insert(r, rs))
  {
    if rs != [] && !Before(r, rs[0]) {
      InsertSorted(r, rs[1..]);
      InsertMembers(r, rs[1..]);
      AllAfterFirst(rs[0], r, rs[1..], Insert(r, rs[1..]));
    }
  }

  lemma AllAfterFirst(first: Range, r: Range, rest: seq<Range>, u: seq<Range>)
    requires Sorted(u) && multiset(u) == multiset{r} + multiset(rest)
    requires Before(first, r) && forall j :: 0 <= j < |rest| ==> Before(first, rest[j])
    ensures Sorted([first] + u)
  {
    forall j | 0 <= j < |u| ensures Before(first, u[j]) {
      assert u[j] in multiset(u);
      assert u[j] == r || u[j] in rest;
    }
  }

  lemma {:induction false} SortCorrect(rs: seq<Range>)
    ensures Sorted(Sort(rs)) && multiset(Sort(rs)) == multiset(rs)
  {
    if rs != [] {
      SortCorrect(rs[1..]);
      InsertSorted(rs[0], Sort(rs[1..]));
      InsertMembers(rs[0], Sort(rs[1..]));
      assert rs == [rs[0]] + rs[1..];
    }
  }

  lemma SameMembers(a: seq<Range>, b: seq<Range>)
    requires multiset(a) == multiset(b)
    ensures forall r :: r in a <==> r in b
    ensures forall c :: Denotes(a, c) <==> Denotes(b, c)
  {
    forall r ensures r in a <==> r in b {
      assert r in a <==> r in multiset(a);
      assert r in b <==> r in multiset(b);
    }
    forall c ensures Denotes(a, c) <==> Denotes(b, c) {
      if Denotes(a, c) { var i :| 0 <= i < |a| && In(c, a[i]); assert a[i] in b; }
      if Denotes(b, c) { var i :| 0 <= i < |b| && In(c, b[i]); assert b[i] in a; }
    }
  }

  /**
   The folded set is in order without overlaps or neighbours, and holds exactly the code points of
   the original set and the other case of its ASCII letters.
   */
  ghost predicate Folds(parts: seq<Range>, out: seq<Range>) {
    Consolidated(out) && forall c :: Denotes(out, c) <==> Denotes(parts, c) || Denotes(parts, OtherCase(c))
  }

  /**
   The same, letter by letter: the k-th letters of both cases are in the folded set together, when one
   of them was in the set, and every other code point is in it exactly when it was.
   */
  lemma FoldedLetters(parts: seq<Range>, out: seq<Range>, k: nat, c: nat)
    requires Folds(parts, out)
    ensures k < 26 ==>
      && (Denotes(out, 'A' as int + k) <==> Denotes(parts, 'A' as int + k) || Denotes(parts, 'a' as int + k))
      && (Denotes(out, 'a' as int + k) <==> Denotes(parts, 'A' as int + k) || Denotes(parts, 'a' as int + k))
    ensures !('A' as int <= c <= 'Z' as int) && !('a' as int <= c <= 'z' as int) ==>
      (Denotes(out, c) <==> Denotes(parts, c))
  {
    if k < 26 {
      assert OtherCase(65 + k) == 97 + k && OtherCase(97 + k) == 65 + k;
    }
    assert !(65 <= c <= 90) && !(97 <= c <= 122) ==> OtherCase(c) == c;
  }

  method CaseFoldCharset(parts: seq<Range>) returns (out: seq<Range>)
    requires forall i :: 0 <= i < |parts| ==> parts[i].lo <= parts[i].hi
    ensures Folds(parts, out)
  {
    var ranges := Expand(parts);
    SortCorrect(ranges);
    SameMembers(ranges, Sort(ranges));
    forall i | 0 <= i < |Sort(ranges)| ensures Sort(ranges)[i].lo <= Sort(ranges)[i].hi {
      assert Sort(ranges)[i] in ranges;
    }
    out := Consolidate(Sort(ranges));
  }

  /** Consolidated ranges are determined by the code points they hold. */
  lemma {:induction false} ConsolidatedUnique(a: seq<Range>, b: seq<Range>)
    requires Consolidated(a) && Consolidated(b)
    requires forall c :: Denotes(a, c) <==> Denotes(b, c)
    ensures a == b
    decreases |a|
  {
    if a == [] {
      if b != [] { assert In(b[0].lo, b[0]); assert Denotes(b, b[0].lo); }
    } else {
      assert In(a[0].lo, a[0]) && Denotes(a, a[0].lo);
      assert b != [];
      FirstRange(a, b);
      FirstRange(b, a);
      RestDenotes(a);
      RestDenotes(b);
      ConsolidatedUnique(a[1..], b[1..]);
      assert a == [a[0]] + a[1..] && b == [b[0]] + b[1..];
    }
  }

  lemma FirstRange(a: seq<Range>, b: seq<Range>)
    requires Consolidated(a) && Consolidated(b) && a != [] && b != []
    requires forall c :: Denotes(a, c) <==> Denotes(b, c)
    ensures a[0].lo >= b[0].lo && a[0].hi >= b[0].hi
  {
    assert In(a[0].lo, a[0]) && Denotes(a, a[0].lo);
    var i :| 0 <= i < |b| && In(a[0].lo, b[i]);
    assert In(b[0].lo, b[0]) && Denotes(b, b[0].lo);
    assert !Denotes(a, a[0].hi + 1);
    FirstDenotes(b, a[0].hi + 1);
  }

  lemma FirstDenotes(b: seq<Range>, c: nat)
    requires b != []
    ensures In(c, b[0]) ==> Denotes(b, c)
  {
  }

  lemma RestDenotes(a: seq<Range>)
    requires Consolidated(a) && a != []
    ensures Consolidated(a[1..])
    ensures forall c :: Denotes(a[1..], c) <==> Denotes(a, c) && !In(c, a[0])
  {
    forall c ensures Denotes(a[1..], c) <==> Denotes(a, c) && !In(c, a[0]) {
      if Denotes(a[1..], c) {
        var i :| 0 <= i < |a[1..]| && In(c, a[1..][i]);
        assert In(c, a[i + 1]);
      }
      if Denotes(a, c) && !In(c, a[0]) {
        var i :| 0 <= i < |a| && In(c, a[i]);
        assert a[1..][i - 1] == a[i];
      }
    }
  }

  /** The folded ranges of a set are unique, and folding them again changes nothing. */
  lemma FoldOnce(parts: seq<Range>, out: seq<Range>, again: seq<Range>)
    requires Folds(parts, out) && (Folds(parts, again) || Folds(out, again))
    ensures again == out
  {
    forall c ensures Denotes(out, c) <==> Denotes(again, c) {
      assert OtherCase(OtherCase(c)) == c;
      assert Denotes(out, OtherCase(c)) <==> Denotes(out, c);
    }
    ConsolidatedUnique(out, again);
  }
}
