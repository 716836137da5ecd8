/**
 Stacking lines: with gaps in either series, the stacked series is the sum of both as functions that
 are linear between adjoining points.
 */
module StackedLines {
  import opened Stacking

  // ----- piecewise linear functions, with gaps

  /** At the first point, or on the line from it to the second one. */
  predicate OnFirst(rows: seq<Row>, x: real)
    requires rows != []
  {
    rows[0].Point? &&
    (x == rows[0].x || (|rows| > 1 && rows[1].Point? && rows[0].x < x < rows[1].x))
  }

  /** The series has a value at x: x is the key of a point or lies between two adjoining points. */
  predicate InDomain(rows: seq<Row>, x: real) {
    rows != [] && (OnFirst(rows, x) || InDomain(rows[1..], x))
  }

  /** The value at x of the function that joins adjoining points by straight lines. */
  function Interpolant(rows: seq<Row>, x: real): real
    requires InDomain(rows, x)
  {
    if OnFirst(rows, x) then if x == rows[0].x then rows[0].y else LineAt(rows[1], rows[0], x)
    else Interpolant(rows[1..], x)
  }

  /** The bottom of the first point at or after x. */
  function BottomAt(rows: seq<Row>, x: real): real
    requires InDomain(rows, x)
  {
    if OnFirst(rows, x) then if x == rows[0].x then rows[0].bottom else rows[1].bottom
    else BottomAt(rows[1..], x)
  }

  predicate HasKey(rows: seq<Row>, x: real) {
    exists i :: 0 <= i < |rows| && rows[i].Point? && rows[i].x == x
  }

  lemma HasKeyCons(r: Row, rows: seq<Row>, x: real)
    ensures HasKey([r] + rows, x) <==> (r.Point? && r.x == x) || HasKey(rows, x)
  {
    var u := [r] + rows;
    assert u[0] == r;
    if HasKey(rows, x) {
      var k :| 0 <= k < |rows| && rows[k].Point? && rows[k].x == x;
      assert u[k + 1] == rows[k];
    }
  }

  lemma HasKeyTail(rows: seq<Row>, x: real)
    requires rows != []
    ensures HasKey(rows, x) <==> (rows[0].Point? && rows[0].x == x) || HasKey(rows[1..], x)
  {
    assert rows == [rows[0]] + rows[1..];
    HasKeyCons(rows[0], rows[1..], x);
  }

  lemma InDomainCons(r: Row, rows: seq<Row>, x: real)
    ensures var u := [r] + rows;
      && (InDomain(u, x) <==> OnFirst(u, x) || InDomain(rows, x))
      && (!OnFirst(u, x) && InDomain(rows, x) ==> Interpolant(u, x) == Interpolant(rows, x))
  {
    assert ([r] + rows)[1..] == rows;
  }

  /** Some point stands at or before every place that has a value. */
  lemma {:induction false} PointBefore(rows: seq<Row>, x: real) returns (k: nat)
    requires InDomain(rows, x)
    ensures k < |rows| && rows[k].Point? && rows[k].x <= x
  {
    if OnFirst(rows, x) {
      k := 0;
    } else {
      k := PointBefore(rows[1..], x);
      k := k + 1;
    }
  }

  /** What the rest of a series says holds of the whole series. */
  lemma TailSame(rows: seq<Row>, x: real)
    requires Increasing(rows) && rows != [] && InDomain(rows[1..], x)
    ensures InDomain(rows, x) && !OnFirst(rows, x)
    ensures Interpolant(rows, x) == Interpolant(rows[1..], x) && BottomAt(rows, x) == BottomAt(rows[1..], x)
  {
    var k := PointBefore(rows[1..], x);
    assert rows[1..][k] == rows[k + 1];
    assert rows[0].Point? ==> rows[0].x < rows[k + 1].x;
    assert |rows| > 1 && rows[1].Point? ==> rows[1].x <= rows[k + 1].x;
  }

  /** The line through two points is the same from either end. */
  lemma SameLine(a: Row, b: Row, x: real)
    requires a.Point? && b.Point? && a.x != b.x
    ensures LineAt(a, b, x) == LineAt(b, a, x)
  {
    SlopeOf(a, b, x);
    SlopeOf(b, a, x);
    var s, t := Slope(a, b), Slope(b, a);
    assert t * (a.x - b.x) == -(t * (b.x - a.x));
    SameFactor(s, t, a.x - b.x);
    assert s * (x - b.x) == s * (x - a.x) + s * (a.x - b.x);
  }

  lemma SameFactor(s: real, t: real, d: real)
    requires s * d == t * d && d != 0.0
    ensures s == t
  {
    Cancel(s, d);
    Cancel(t, d);
  }

  function Slope(a: Row, b: Row): real
    requires a.Point? && b.Point? && a.x != b.x
  {
    (a.y - b.y) / (a.x - b.x)
  }

  /** The value of a line is that of b and the slope times the distance from b. */
  lemma SlopeOf(a: Row, b: Row, x: real)
    requires a.Point? && b.Point? && a.x != b.x
    ensures Slope(a, b) * (a.x - b.x) == a.y - b.y
    ensures LineAt(a, b, x) == b.y + Slope(a, b) * (x - b.x)
  {
    var d, slope := a.x - b.x, Slope(a, b);
    assert (a.y - b.y) * (x - b.x) == slope * (x - b.x) * d;
    Cancel(slope * (x - b.x), d);
  }

  lemma Cancel(a: real, d: real)
    requires d != 0.0
    ensures a * d / d == a
  {
  }

  /** At a point of the series the interpolant is the point's own value. */
  lemma {:induction false} AtPoint(rows: seq<Row>, k: nat)
    requires Increasing(rows) && k < |rows| && rows[k].Point?
    ensures InDomain(rows, rows[k].x)
    ensures Interpolant(rows, rows[k].x) == rows[k].y && BottomAt(rows, rows[k].x) == rows[k].bottom
  {
    if k > 0 {
      AtPoint(rows[1..], k - 1);
      TailSame(rows, rows[k].x);
    }
  }

  /** Between two adjoining points it is the line that the plugin uses. */
  lemma {:induction false} BetweenPoints(rows: seq<Row>, k: nat, x: real)
    requires Increasing(rows) && 0 < k < |rows| && rows[k - 1].Point? && rows[k].Point?
    requires rows[k - 1].x < x < rows[k].x
    ensures InDomain(rows, x)
    ensures Interpolant(rows, x) == LineAt(rows[k - 1], rows[k], x) && BottomAt(rows, x) == rows[k].bottom
  {
    if k == 1 {
      SameLine(rows[0], rows[1], x);
    } else {
      BetweenPoints(rows[1..], k - 1, x);
      TailSame(rows, x);
    }
  }

  /** A series has a value exactly at its points and between two adjoining ones. */
  lemma {:induction false} DomainExact(rows: seq<Row>, x: real)
    ensures InDomain(rows, x) <==> exists k :: ValueFrom(rows, k, x)
  {
    if rows != [] {
      DomainExact(rows[1..], x);
      forall k | ValueFrom(rows[1..], k, x) ensures ValueFrom(rows, k + 1, x) {
        assert rows[1..][k] == rows[k + 1];
      }
      forall k | ValueFrom(rows, k, x) && k > 0 ensures ValueFrom(rows[1..], k - 1, x) {
        assert rows[1..][k - 1] == rows[k];
      }
      assert OnFirst(rows, x) <==> ValueFrom(rows, 0, x);
    }
  }

  /** At the k-th point, or between it and the next row, which is a point too. */
  predicate ValueFrom(rows: seq<Row>, k: int, x: real) {
    && 0 <= k < |rows| && rows[k].Point?
    && (x == rows[k].x || (k + 1 < |rows| && rows[k + 1].Point? && rows[k].x < x < rows[k + 1].x))
  }

  /** Between two points the value divides the rise as the key divides the distance. */
  lemma ValueInRatio(rows: seq<Row>, k: nat, x: real)
    requires Increasing(rows) && 0 < k < |rows| && rows[k - 1].Point? && rows[k].Point?
    requires rows[k - 1].x < x < rows[k].x
    ensures InDomain(rows, x)
    ensures (Interpolant(rows, x) - rows[k - 1].y) * (rows[k].x - rows[k - 1].x)
         == (rows[k].y - rows[k - 1].y) * (x - rows[k - 1].x)
  {
    BetweenPoints(rows, k, x);
    SlopeOf(rows[k], rows[k - 1], x);
    SameLine(rows[k - 1], rows[k], x);
    Regroup(Slope(rows[k], rows[k - 1]), rows[k].x - rows[k - 1].x, x - rows[k - 1].x);
  }

  lemma Regroup(s: real, d: real, e: real)
    ensures (s * e) * d == (s * d) * e
  {
  }

  // ----- lines: the sum of two functions

  /** What two series and the series on top of them say at x, beside the bottoms. */
  predicate SumAt(t: seq<Row>, a: seq<Row>, b: seq<Row>, x: real) {
    && (InDomain(t, x) <==> InDomain(a, x) && InDomain(b, x))
    && (InDomain(t, x) ==> Interpolant(t, x) == Interpolant(a, x) + Interpolant(b, x))
    && (HasKey(t, x) <==> InDomain(t, x) && (HasKey(a, x) || HasKey(b, x)))
  }

  /** No row behind the first one of either series lies before the first one of the other. */
  predicate Abreast(a: seq<Row>, b: seq<Row>)
    requires a != [] && b != []
  {
    && (a[0].Point? ==> AllAbove(b[1..], a[0].x))
    && (b[0].Point? ==> AllAbove(a[1..], b[0].x))
  }

  predicate Ready(a: seq<Row>, b: seq<Row>) {
    a != [] && b != [] && Increasing(a) && Increasing(b) && Abreast(a, b)
  }

  /**
   The last row pushed: if both series are just behind a point it is the sum at the later one of
   the two, and otherwise there is none, or a gap.
   */
  predicate Joint(a: seq<Row>, b: seq<Row>, l: Row)
    requires a != [] && b != []
  {
    if a[0].Point? && b[0].Point? then
      && l.Point? && l.x == (if a[0].x < b[0].x then b[0].x else a[0].x)
      && InDomain(a, l.x) && InDomain(b, l.x) && l.y == Interpolant(a, l.x) + Interpolant(b, l.x)
    else l.Gap?
  }

  /** A gap in a series is a gap in the sum. */
  lemma GapCase(a: seq<Row>, b: seq<Row>, l: Row, rows: seq<Row>, x: real)
    requires Ready(a, b) && Joint(a, b, l) && |a| > 1 && a[1].Gap?
    requires SumAt([Gap] + rows, a[1..], b, x)
    ensures SumAt([l] + ([Gap] + rows), a, b, x)
  {
    var rest := [Gap] + rows;
    InDomainCons(l, rest, x);
    HasKeyCons(l, rest, x);
    HasKeyTail(a, x);
    if InDomain(a[1..], x) { TailSame(a, x); }
    if a[0].Point? && x == a[0].x { OnlyFirst(b, x); }
    if l.Point? { OnlyFirst(a, l.x); }
  }

  /** Where a series has a value before its second point it starts with a point. */
  lemma OnlyFirst(b: seq<Row>, x: real)
    requires b != [] && AllAbove(b[1..], x)
    ensures InDomain(b, x) <==> OnFirst(b, x)
    ensures OnFirst(b, x) ==> b[0].Point? && b[0].x <= x
    ensures !HasKey(b[1..], x)
  {
    AllLater(b[1..], x);
  }

  lemma {:induction false} AllLater(rows: seq<Row>, x: real)
    requires AllAbove(rows, x)
    ensures !InDomain(rows, x) && !HasKey(rows, x)
  {
    if rows != [] { AllLater(rows[1..], x); }
  }

  /** Before its second point a series is the line from its first one. */
  lemma BeforeSecond(a: seq<Row>, c: real, x: real)
    requires Increasing(a) && |a| > 1 && a[1].Point? && x < c <= a[1].x
    ensures InDomain(a, x) <==> a[0].Point? && a[0].x <= x
    ensures InDomain(a, x) ==> Interpolant(a, x) == LineAt(a[1], a[0], x)
    ensures HasKey(a, x) <==> a[0].Point? && a[0].x == x
  {
    OnlyFirst(a, x);
    HasKeyTail(a, x);
    if a[0].Point? { LineEnds(a[1], a[0]); }
  }

  lemma LineEnds(a: Row, b: Row)
    requires a.Point? && b.Point? && a.x != b.x
    ensures LineAt(a, b, b.x) == b.y && LineAt(a, b, a.x) == a.y
  {
    SlopeOf(a, b, a.x);
    SlopeOf(a, b, b.x);
  }

  /** The series from the next cursor on, if the row at the cursor has the key c. */
  function Past(a: seq<Row>, c: real): (r: seq<Row>)
    requires |a| > 1
    ensures r != []
  {
    if a[1].Point? && a[1].x == c then a[1..] else a
  }

  lemma FromSecond(a: seq<Row>, c: real, x: real)
    requires Increasing(a) && |a| > 1 && a[1].Point? && c <= a[1].x && c <= x
    ensures InDomain(a, x) <==> InDomain(Past(a, c), x)
    ensures InDomain(a, x) ==> Interpolant(a, x) == Interpolant(Past(a, c), x)
    ensures HasKey(a, x) <==> HasKey(Past(a, c), x)
  {
    HasKeyTail(a, x);
    if InDomain(a[1..], x) { TailSame(a, x); }
  }

  lemma NotBefore(a: seq<Row>, c: real, x: real)
    requires Increasing(a) && |a| > 1 && a[1].Point? && a[1].x == c && x < c
    ensures !InDomain(a[1..], x)
  {
    AllLater(a[1..], x);
  }

  lemma Affine(a: Row, b: Row, x: real)
    requires a.Point? && b.Point? && a.x != b.x
    ensures LineAt(a, b, x) == Slope(a, b) * x + (b.y - Slope(a, b) * b.x)
  {
    SlopeOf(a, b, x);
  }

  lemma ThroughLine(l: Row, r: Row, w: real, c: real, x: real)
    requires l.Point? && r.Point? && l.x != r.x && l.y == w * l.x + c && r.y == w * r.x + c
    ensures LineAt(r, l, x) == w * x + c
  {
    SlopeOf(r, l, x);
    assert w * (r.x - l.x) == r.y - l.y;
    SameFactor(Slope(r, l), w, r.x - l.x);
    assert w * (x - l.x) == w * x - w * l.x;
  }

  /** Two lines add up to the line through their sums. */
  lemma LineSum(l: Row, r: Row, a: Row, a': Row, b: Row, b': Row, x: real)
    requires l.Point? && r.Point? && a.Point? && a'.Point? && b.Point? && b'.Point?
    requires l.x != r.x && a.x != a'.x && b.x != b'.x
    requires l.y == LineAt(a', a, l.x) + LineAt(b', b, l.x) && r.y == LineAt(a', a, r.x) + LineAt(b', b, r.x)
    ensures LineAt(r, l, x) == LineAt(a', a, x) + LineAt(b', b, x)
  {
    var w, c := SumAffine(a, a', b, b', l.x, r.x, x);
    ThroughLine(l, r, w, c, x);
  }

  /** The sum of two lines is one line through all places, here through three. */
  lemma SumAffine(a: Row, a': Row, b: Row, b': Row, x1: real, x2: real, x3: real) returns (w: real, c: real)
    requires a.Point? && a'.Point? && b.Point? && b'.Point? && a.x != a'.x && b.x != b'.x
    ensures LineAt(a', a, x1) + LineAt(b', b, x1) == w * x1 + c
    ensures LineAt(a', a, x2) + LineAt(b', b, x2) == w * x2 + c
    ensures LineAt(a', a, x3) + LineAt(b', b, x3) == w * x3 + c
  {
    w := Slope(a', a) + Slope(b', b);
    c := (a.y - Slope(a', a) * a.x) + (b.y - Slope(b', b) * b.x);
    SumAt1(a, a', b, b', x1, w, c);
    SumAt1(a, a', b, b', x2, w, c);
    SumAt1(a, a', b, b', x3, w, c);
  }

  lemma SumAt1(a: Row, a': Row, b: Row, b': Row, x: real, w: real, c: real)
    requires a.Point? && a'.Point? && b.Point? && b'.Point? && a.x != a'.x && b.x != b'.x
    requires w == Slope(a', a) + Slope(b', b) && c == (a.y - Slope(a', a) * a.x) + (b.y - Slope(b', b) * b.x)
    ensures LineAt(a', a, x) + LineAt(b', b, x) == w * x + c
  {
    Affine(a', a, x);
    Affine(b', b, x);
    Distribute(Slope(a', a), Slope(b', b), x);
  }

  lemma Distribute(v: real, w: real, x: real)
    ensures v * x + w * x == (v + w) * x
  {
  }

  /** Both series go on with a point, and the sum at the earlier one, at c, is pushed. */
  predicate Pushes(a: seq<Row>, b: seq<Row>, r: Row) {
    && |a| > 1 && |b| > 1 && a[1].Point? && b[1].Point? && r.Point?
    && r.x == (if a[1].x < b[1].x then a[1].x else b[1].x)
    && InDomain(a, r.x) && InDomain(b, r.x) && r.y == Interpolant(a, r.x) + Interpolant(b, r.x)
  }

  lemma PushBefore(a: seq<Row>, b: seq<Row>, l: Row, r: Row, rows: seq<Row>, x: real)
    requires Ready(a, b) && Joint(a, b, l) && Pushes(a, b, r) && x < r.x
    requires SumAt([r] + rows, Past(a, r.x), Past(b, r.x), x)
    ensures SumAt([l] + ([r] + rows), a, b, x)
  {
    var rest := [r] + rows;
    InDomainCons(l, rest, x);
    HasKeyCons(l, rest, x);
    BeforeSecond(a, r.x, x);
    BeforeSecond(b, r.x, x);
    if a[1].x == r.x { NotBefore(a, r.x, x); } else { NotBefore(b, r.x, x); }
    assert !InDomain(rest, x) && !HasKey(rest, x);
    if l.Point? && l.x < x { PushValue(a, b, l, r, x); }
  }

  lemma PushValue(a: seq<Row>, b: seq<Row>, l: Row, r: Row, x: real)
    requires Ready(a, b) && Joint(a, b, l) && Pushes(a, b, r) && l.Point? && l.x < x < r.x
    ensures InDomain(a, x) && InDomain(b, x)
    ensures LineAt(r, l, x) == Interpolant(a, x) + Interpolant(b, x)
  {
    BeforeSecond(a, r.x, x);
    BeforeSecond(b, r.x, x);
    BeforeSecond(a, r.x, l.x);
    BeforeSecond(b, r.x, l.x);
    UpToSecond(a, r.x);
    UpToSecond(b, r.x);
    LineSum(l, r, a[0], a[1], b[0], b[1], x);
  }

  lemma UpToSecond(a: seq<Row>, c: real)
    requires Increasing(a) && |a| > 1 && a[0].Point? && a[1].Point? && a[0].x < c <= a[1].x
    ensures InDomain(a, c) && Interpolant(a, c) == LineAt(a[1], a[0], c)
  {
    if c < a[1].x {
      BeforeSecond(a, a[1].x, c);
    } else {
      AtPoint(a, 1);
      LineEnds(a[1], a[0]);
    }
  }

  lemma PushCase(a: seq<Row>, b: seq<Row>, l: Row, r: Row, rows: seq<Row>, x: real)
    requires Ready(a, b) && Joint(a, b, l) && Pushes(a, b, r)
    requires SumAt([r] + rows, Past(a, r.x), Past(b, r.x), x)
    ensures SumAt([l] + ([r] + rows), a, b, x)
  {
    if x < r.x {
      PushBefore(a, b, l, r, rows, x);
    } else {
      InDomainCons(l, [r] + rows, x);
      HasKeyCons(l, [r] + rows, x);
      FromSecond(a, r.x, x);
      FromSecond(b, r.x, x);
      assert l.Point? ==> l.x < r.x;
    }
  }

  /** After a push the row is the last one pushed. */
  lemma PushJoint(a: seq<Row>, b: seq<Row>, r: Row)
    requires Ready(a, b) && Pushes(a, b, r)
    ensures Ready(Past(a, r.x), Past(b, r.x)) && Joint(Past(a, r.x), Past(b, r.x), r)
  {
    FromSecond(a, r.x, r.x);
    FromSecond(b, r.x, r.x);
    if r.x < a[1].x { BeforeSecond(a, a[1].x, r.x); }
    if r.x < b[1].x { BeforeSecond(b, b[1].x, r.x); }
  }

  /** A point of b that lies before the next point of a, while a is behind a gap, adds nothing. */
  lemma SkipCase(a: seq<Row>, b: seq<Row>, t: seq<Row>, x: real)
    requires Ready(a, b) && |a| > 1 && |b| > 1 && a[0].Gap? && a[1].Point? && b[1].Point? && b[1].x < a[1].x
    requires SumAt(t, a, b[1..], x)
    ensures SumAt(t, a, b, x)
  {
    if InDomain(a, x) {
      var k := PointBefore(a, x);
      if k > 1 { IncreasingPairs(a, 1, k); }
      FromSecond(b, b[1].x, x);
    }
  }

  /** Once the cursor of b is at the end, only gaps follow. */
  lemma EndCase(a: seq<Row>, b: seq<Row>, l: Row, rows: seq<Row>, x: real)
    requires Ready(a, b) && Joint(a, b, l) && |b| == 1
    requires forall k :: 0 <= k < |rows| ==> rows[k].Gap?
    ensures SumAt([l] + rows, a, b, x)
  {
    NoPoints(rows, x);
    NoPoints(b[1..], x);
    InDomainCons(l, rows, x);
    HasKeyCons(l, rows, x);
    HasKeyTail(b, x);
    if b[0].Point? && x == b[0].x { OnlyFirst(a, x); }
  }

  lemma {:induction false} NoPoints(rows: seq<Row>, x: real)
    requires forall k :: 0 <= k < |rows| ==> rows[k].Gap?
    ensures !InDomain(rows, x) && !HasKey(rows, x)
  {
    if rows != [] { NoPoints(rows[1..], x); }
  }

  // ----- the loop in line mode

  /** The state of the loop: what is left of the series, the flag and the last row pushed fit together. */
  predicate Stacks(a: seq<Row>, b: seq<Row>, fromGap: bool, l: Row) {
    Ready(a, b) && Apart(a) && Apart(b) && Joint(a, b, l) && (fromGap <==> b[0].Gap?)
  }

  /** Both series go on with a point. */
  predicate TwoMore(a: seq<Row>, b: seq<Row>) {
    |a| > 1 && |b| > 1 && a[1].Point? && b[1].Point?
  }

  /** What a turn pushes then: the sum at the earlier of both points, or nothing outside a domain. */
  lemma TurnPushes(a: seq<Row>, b: seq<Row>, fromGap: bool, l: Row, withBottom: bool)
    requires Stacks(a, b, fromGap, l) && TwoMore(a, b)
    ensures var t := OneTurn(a, b, fromGap, true, withBottom);
      if t.rows == [] then
        || (t.a == a && t.b == b[1..] && a[1].x > b[1].x && a[0].Gap? && !t.fromGap)
        || (t.a == a[1..] && t.b == b && a[1].x < b[1].x && b[0].Gap? && t.fromGap == fromGap)
      else
        && |t.rows| == 1 && Pushes(a, b, t.rows[0]) && !t.fromGap && SumRow(a, b, withBottom, t.rows[0])
        && t.a == Past(a, t.rows[0].x) && t.b == Past(b, t.rows[0].x)
  {
    AtPoint(a, 1);
    AtPoint(b, 1);
    if a[1].x > b[1].x {
      if a[0].Point? { BetweenPoints(a, 1, b[1].x); }
    } else if a[1].x < b[1].x {
      if b[0].Point? { BetweenPoints(b, 1, a[1].x); }
    }
  }

  /** What is still pushed when the other series is used up. */
  lemma {:induction false} PushedEnd(a: seq<Row>, b: seq<Row>, fromGap: bool, withBottom: bool)
    requires a != [] && |b| == 1 && Apart(a) && Apart(b)
    ensures forall k :: 0 <= k < |Pushed(a, b, fromGap, true, withBottom)| ==>
              Pushed(a, b, fromGap, true, withBottom)[k].Gap?
    decreases |a|
  {
    if |a| > 1 { PushedEnd(a[1..], b, fromGap, withBottom); }
  }

  /** The cursors may move over a gap, or over a point that lies before what is left of the other series. */
  lemma ReadyNext(a: seq<Row>, b: seq<Row>)
    requires Ready(a, b) && |a| > 1 && (a[1].Point? ==> AllAbove(b[1..], a[1].x))
    ensures Ready(a[1..], b) && Ready(b, a[1..])
  {
  }

  lemma StacksGap(a: seq<Row>, b: seq<Row>, fromGap: bool, l: Row)
    requires Stacks(a, b, fromGap, l)
    ensures |a| > 1 && a[1].Gap? ==> Stacks(a[1..], b, fromGap, Gap)
    ensures |b| > 1 && b[1].Gap? ==> Stacks(a, b[1..], true, Gap)
  {
    if |a| > 1 && a[1].Gap? { ReadyNext(a, b); }
    if |b| > 1 && b[1].Gap? { ReadyNext(b, a); }
  }

  /** The turn at two points, and the row that is then the last one pushed. */
  lemma PointsTurn(a: seq<Row>, b: seq<Row>, fromGap: bool, l: Row, withBottom: bool) returns (t: Turn, l': Row)
    requires Stacks(a, b, fromGap, l) && TwoMore(a, b)
    ensures t == OneTurn(a, b, fromGap, true, withBottom) && l' == if t.rows == [] then l else t.rows[0]
    ensures Stacks(t.a, t.b, t.fromGap, l')
  {
    t := OneTurn(a, b, fromGap, true, withBottom);
    l' := if t.rows == [] then l else t.rows[0];
    TurnPushes(a, b, fromGap, l, withBottom);
    if t.rows != [] {
      PushJoint(a, b, t.rows[0]);
    } else if a[1].x > b[1].x {
      BeforeRest(b, a);
      ReadyNext(b, a);
    } else {
      BeforeRest(a, b);
      ReadyNext(a, b);
    }
  }

  lemma BeforeRest(a: seq<Row>, b: seq<Row>)
    requires TwoMore(a, b) && Increasing(b) && a[1].x < b[1].x
    ensures AllAbove(b[1..], a[1].x)
  {
    assert b[1..][0] == b[1];
    forall k | 0 <= k < |b[1..]| && b[1..][k].Point? ensures a[1].x < b[1..][k].x {
      if k > 0 { assert b[1..][k] == b[1..][1..][k - 1]; }
    }
  }

  /** What the loop pushes from here on, behind the last row, is the sum of what is left. */
  predicate SumFrom(a: seq<Row>, b: seq<Row>, fromGap: bool, l: Row, withBottom: bool, x: real)
    requires a != [] && b != [] && Apart(a) && Apart(b)
  {
    SumAt([l] + Pushed(a, b, fromGap, true, withBottom), a, b, x)
  }

  lemma {:induction false} LinesAt(a: seq<Row>, b: seq<Row>, fromGap: bool, l: Row, withBottom: bool, x: real)
    requires Stacks(a, b, fromGap, l)
    ensures SumFrom(a, b, fromGap, l, withBottom, x)
    decreases |a| + |b|
  {
    if |b| == 1 {
      PushedEnd(a, b, fromGap, withBottom);
      EndCase(a, b, l, Pushed(a, b, fromGap, true, withBottom), x);
    } else if |a| == 1 {
      EndCase(b, a, l, [], x);
    } else if a[1].Gap? {
      StacksGap(a, b, fromGap, l);
      LinesAt(a[1..], b, fromGap, Gap, withBottom, x);
      GapCase(a, b, l, Pushed(a[1..], b, fromGap, true, withBottom), x);
    } else if b[1].Gap? {
      StacksGap(a, b, fromGap, l);
      LinesAt(a, b[1..], true, Gap, withBottom, x);
      GapCase(b, a, l, Pushed(a, b[1..], true, true, withBottom), x);
    } else {
      var t, l' := PointsTurn(a, b, fromGap, l, withBottom);
      LinesAt(t.a, t.b, t.fromGap, l', withBottom, x);
      TurnAt(a, b, fromGap, l, withBottom, x, t, Pushed(t.a, t.b, t.fromGap, true, withBottom));
    }
  }

  lemma TurnAt(a: seq<Row>, b: seq<Row>, fromGap: bool, l: Row, withBottom: bool, x: real, t: Turn, rows: seq<Row>)
    requires Stacks(a, b, fromGap, l) && TwoMore(a, b) && t == OneTurn(a, b, fromGap, true, withBottom)
    requires SumAt([if t.rows == [] then l else t.rows[0]] + rows, t.a, t.b, x)
    ensures SumAt([l] + (t.rows + rows), a, b, x)
  {
    TurnPushes(a, b, fromGap, l, withBottom);
    if t.rows != [] {
      assert t.rows == [t.rows[0]];
      PushCase(a, b, l, t.rows[0], rows, x);
    } else {
      assert t.rows + rows == rows;
      if a[1].x > b[1].x { SkipCase(a, b, [l] + rows, x); } else { SkipCase(b, a, [l] + rows, x); }
    }
  }

  // ----- the rows one by one

  /** A row of the sum at its key. */
  predicate SumRow(a: seq<Row>, b: seq<Row>, withBottom: bool, r: Row) {
    && r.Point? && InDomain(a, r.x) && InDomain(b, r.x)
    && r.y == Interpolant(a, r.x) + Interpolant(b, r.x)
    && r.bottom == BottomAt(a, r.x) + if withBottom then Interpolant(b, r.x) else 0.0
  }

  /** All points are rows of the sum. */
  predicate SumRows(a: seq<Row>, b: seq<Row>, withBottom: bool, rows: seq<Row>) {
    forall k :: 0 <= k < |rows| && rows[k].Point? ==> SumRow(a, b, withBottom, rows[k])
  }

  /** Rows of what a turn leaves are rows of what there was. */
  lemma RowsBefore(a: seq<Row>, b: seq<Row>, a': seq<Row>, b': seq<Row>, withBottom: bool, rows: seq<Row>)
    requires a != [] && b != [] && Increasing(a) && Increasing(b)
    requires (a' == a || a' == a[1..]) && (b' == b || b' == b[1..]) && SumRows(a', b', withBottom, rows)
    ensures SumRows(a, b, withBottom, rows)
  {
    forall k | 0 <= k < |rows| && rows[k].Point? ensures SumRow(a, b, withBottom, rows[k]) {
      if a' == a[1..] { TailSame(a, rows[k].x); }
      if b' == b[1..] { TailSame(b, rows[k].x); }
    }
  }

  lemma AboveTail(rows: seq<Row>, c: real)
    requires rows != [] && AllAbove(rows, c)
    ensures AllAbove(rows[1..], c)
  {
  }

  /** Nothing is pushed before the keys that are still to come. */
  lemma {:induction false} PushedAbove(a: seq<Row>, b: seq<Row>, fromGap: bool, withBottom: bool, c: real)
    requires a != [] && b != [] && Apart(a) && Apart(b) && AllAbove(a[1..], c) && AllAbove(b[1..], c)
    ensures AllAbove(Pushed(a, b, fromGap, true, withBottom), c)
    decreases |a| + |b|
  {
    if |a| > 1 {
      var t := OneTurn(a, b, fromGap, true, withBottom);
      TurnAbove(a, b, fromGap, withBottom, c);
      PushedAbove(t.a, t.b, t.fromGap, withBottom, c);
    }
  }

  lemma TurnAbove(a: seq<Row>, b: seq<Row>, fromGap: bool, withBottom: bool, c: real)
    requires |a| > 1 && b != [] && Apart(a) && Apart(b) && AllAbove(a[1..], c) && AllAbove(b[1..], c)
    ensures var t := OneTurn(a, b, fromGap, true, withBottom);
      AllAbove(t.rows, c) && AllAbove(t.a[1..], c) && AllAbove(t.b[1..], c)
  {
    AboveTail(a[1..], c);
    if |b| > 1 { AboveTail(b[1..], c); }
    assert a[1..][0] == a[1] && (|b| > 1 ==> b[1..][0] == b[1]);
  }

  /** The rows have increasing keys, and each point is a row of the sum. */
  predicate RowsOk(a: seq<Row>, b: seq<Row>, withBottom: bool, rows: seq<Row>) {
    Increasing(rows) && SumRows(a, b, withBottom, rows)
  }

  lemma RowThen(a: seq<Row>, b: seq<Row>, withBottom: bool, r: Row, rows: seq<Row>)
    requires RowsOk(a, b, withBottom, rows)
    requires r.Point? ==> SumRow(a, b, withBottom, r) && AllAbove(rows, r.x)
    ensures RowsOk(a, b, withBottom, [r] + rows)
  {
    assert ([r] + rows)[1..] == rows;
  }

  lemma {:induction false} AllGaps(rows: seq<Row>)
    requires forall k :: 0 <= k < |rows| ==> rows[k].Gap?
    ensures Increasing(rows)
  {
    if rows != [] { AllGaps(rows[1..]); }
  }

  lemma {:induction false} RowsFrom(a: seq<Row>, b: seq<Row>, fromGap: bool, l: Row, withBottom: bool)
    requires Stacks(a, b, fromGap, l)
    ensures RowsOk(a, b, withBottom, Pushed(a, b, fromGap, true, withBottom))
    decreases |a| + |b|
  {
    if |b| == 1 {
      PushedEnd(a, b, fromGap, withBottom);
      AllGaps(Pushed(a, b, fromGap, true, withBottom));
    } else if |a| == 1 {
    } else if a[1].Gap? {
      StacksGap(a, b, fromGap, l);
      RowsFrom(a[1..], b, fromGap, Gap, withBottom);
      RowsBefore(a, b, a[1..], b, withBottom, Pushed(a[1..], b, fromGap, true, withBottom));
      RowThen(a, b, withBottom, Gap, Pushed(a[1..], b, fromGap, true, withBottom));
    } else if b[1].Gap? {
      StacksGap(a, b, fromGap, l);
      RowsFrom(a, b[1..], true, Gap, withBottom);
      RowsBefore(a, b, a, b[1..], withBottom, Pushed(a, b[1..], true, true, withBottom));
      RowThen(a, b, withBottom, Gap, Pushed(a, b[1..], true, true, withBottom));
    } else {
      var t, l' := PointsTurn(a, b, fromGap, l, withBottom);
      RowsFrom(t.a, t.b, t.fromGap, l', withBottom);
      RowsTurn(a, b, fromGap, l, withBottom, t);
    }
  }

  lemma RowsTurn(a: seq<Row>, b: seq<Row>, fromGap: bool, l: Row, withBottom: bool, t: Turn)
    requires Stacks(a, b, fromGap, l) && TwoMore(a, b) && t == OneTurn(a, b, fromGap, true, withBottom)
    requires RowsOk(t.a, t.b, withBottom, Pushed(t.a, t.b, t.fromGap, true, withBottom))
    ensures RowsOk(a, b, withBottom, t.rows + Pushed(t.a, t.b, t.fromGap, true, withBottom))
  {
    var rows := Pushed(t.a, t.b, t.fromGap, true, withBottom);
    TurnPushes(a, b, fromGap, l, withBottom);
    RowsBefore(a, b, t.a, t.b, withBottom, rows);
    if t.rows == [] {
      assert t.rows + rows == rows;
    } else {
      assert t.rows == [t.rows[0]];
      PushAbove(a, b, t.rows[0]);
      PushedAbove(t.a, t.b, t.fromGap, withBottom, t.rows[0].x);
      RowThen(a, b, withBottom, t.rows[0], rows);
    }
  }

  /** All that is left after a push lies behind the row pushed. */
  lemma PushAbove(a: seq<Row>, b: seq<Row>, r: Row)
    requires Ready(a, b) && Pushes(a, b, r)
    ensures AllAbove(Past(a, r.x)[1..], r.x) && AllAbove(Past(b, r.x)[1..], r.x)
  {
    assert Increasing(a[1..]) && Increasing(b[1..]) && a[1..][0] == a[1] && b[1..][0] == b[1];
    if a[1].x > r.x { BeforeRest(b, a); }
    if b[1].x > r.x { BeforeRest(a, b); }
  }

  // ----- the theorem

  lemma GapFirst(p: seq<Row>, x: real)
    requires Increasing(p)
    ensures Increasing([Gap] + p)
    ensures InDomain([Gap] + p, x) <==> InDomain(p, x)
    ensures InDomain(p, x) ==>
      Interpolant([Gap] + p, x) == Interpolant(p, x) && BottomAt([Gap] + p, x) == BottomAt(p, x)
    ensures HasKey([Gap] + p, x) <==> HasKey(p, x)
  {
    assert ([Gap] + p)[1..] == p;
    InDomainCons(Gap, p, x);
    HasKeyCons(Gap, p, x);
    if InDomain(p, x) { TailSame([Gap] + p, x); }
  }

  /**
   Lines: the stacked series, with all gaps, is as a function the sum of both series, defined
   exactly where both are. Its points stand in increasing order at exactly the keys of either
   series in that domain.
   */
  lemma LinesAreSums(p: seq<Row>, q: seq<Row>, withBottom: bool)
    requires Increasing(p) && Increasing(q)
    ensures Apart(p) && Apart(q)
    ensures var rows := Stacked(p, q, true, withBottom);
      && Increasing(rows) && SumRows(p, q, withBottom, rows)
      && forall x :: SumAt(rows, p, q, x)
  {
    IncreasingApart(p);
    IncreasingApart(q);
    var a, b, rows := [Gap] + p, [Gap] + q, Stacked(p, q, true, withBottom);
    assert a[1..] == p && b[1..] == q;
    RowsFrom(a, b, true, Gap, withBottom);
    RowsBack(p, q, withBottom, rows);
    forall x ensures SumAt(rows, p, q, x) {
      LinesAt(a, b, true, Gap, withBottom, x);
      GapFirst(p, x);
      GapFirst(q, x);
      GapFirst(rows, x);
    }
  }

  lemma RowsBack(p: seq<Row>, q: seq<Row>, withBottom: bool, rows: seq<Row>)
    requires Increasing(p) && Increasing(q) && SumRows([Gap] + p, [Gap] + q, withBottom, rows)
    ensures SumRows(p, q, withBottom, rows)
  {
    forall k | 0 <= k < |rows| && rows[k].Point? ensures SumRow(p, q, withBottom, rows[k]) {
      GapFirst(p, rows[k].x);
      GapFirst(q, rows[k].x);
    }
  }
}
