/**
 Stacking bars: the other series is added where it has a bar at the same place, and its gaps are
 kept between the bars.
 */
module StackedBars {
  import opened Stacking

  /** The value of the bar at x, or nothing. */
  function BarAt(q: seq<Row>, x: real): real {
    if q == [] then 0.0
    else if q[0].Point? && q[0].x == x then q[0].y
    else BarAt(q[1..], x)
  }

  function BarOn(q: seq<Row>, r: Row, withBottom: bool): Row {
    if r.Gap? then Gap else Raised(r, BarAt(q, r.x), BarAt(q, r.x), withBottom)
  }

  /** How many gaps the other series has before its first point at or after x. */
  function GapsBefore(q: seq<Row>, x: real): nat {
    if q == [] then 0
    else if q[0].Gap? then 1 + GapsBefore(q[1..], x)
    else if q[0].x < x then GapsBefore(q[1..], x)
    else 0
  }

  /** The gaps of the other series that are reached: those before the last point of this one. */
  function GapsReached(p: seq<Row>, q: seq<Row>): nat {
    if p == [] then 0
    else if p[0].Point? && !HasPoint(p[1..]) then GapsBefore(q, p[0].x)
    else GapsReached(p[1..], q)
  }

  predicate HasPoint(p: seq<Row>) {
    exists k :: 0 <= k < |p| && p[k].Point?
  }

  function Points(rows: seq<Row>): seq<Row> {
    if rows == [] then [] else (if rows[0].Point? then [rows[0]] else []) + Points(rows[1..])
  }

  function RaisedPoints(p: seq<Row>, q: seq<Row>, withBottom: bool): seq<Row> {
    if p == [] then []
    else (if p[0].Point? then [BarOn(q, p[0], withBottom)] else []) + RaisedPoints(p[1..], q, withBottom)
  }

  /** Row m is the one of p[k]: behind all rows of p and all gaps of q that come before. */
  predicate StandsAt(p: seq<Row>, q: seq<Row>, k: nat, m: nat) {
    k < |p| && p[k].Point? && m == k + GapsBefore(q, p[k].x)
  }

  /** Where each point of p stands, raised by its bar; all other rows are gaps. */
  ghost predicate BarRows(p: seq<Row>, q: seq<Row>, withBottom: bool, rows: seq<Row>) {
    && |rows| == |p| + GapsReached(p, q)
    && Points(rows) == RaisedPoints(p, q, withBottom)
    && (forall k: nat, m: nat :: StandsAt(p, q, k, m) ==> m < |rows| && rows[m] == BarOn(q, p[k], withBottom))
    && (forall m: nat :: m < |rows| && rows[m].Point? ==> exists k: nat :: StandsAt(p, q, k, m))
  }

  /** The bar is the value of the point at that key. */
  lemma {:induction false} BarAtExact(q: seq<Row>, x: real)
    requires Increasing(q)
    ensures forall j :: 0 <= j < |q| && q[j].Point? && q[j].x == x ==> BarAt(q, x) == q[j].y
    ensures (forall j :: 0 <= j < |q| && q[j].Point? ==> q[j].x != x) ==> BarAt(q, x) == 0.0
  {
    if q != [] {
      BarAtExact(q[1..], x);
      forall j | 0 < j < |q| && q[j].Point? && q[j].x == x ensures BarAt(q, x) == q[j].y {
        IncreasingTail(q, j);
        assert q[1..][j - 1] == q[j];
      }
      if forall j :: 0 <= j < |q| && q[j].Point? ==> q[j].x != x {
        assert forall j :: 0 <= j < |q[1..]| && q[1..][j].Point? ==> q[j + 1].x != x;
      }
    }
  }

  lemma IncreasingTail(q: seq<Row>, j: nat)
    requires Increasing(q) && 0 < j < |q| && q[j].Point?
    ensures q[0].Point? ==> q[0].x < q[j].x
  {
    if q[0].Point? { IncreasingPairs(q, 0, j); }
  }

  /** A gap before a key: all points before the gap are before the key. */
  predicate GapBefore(q: seq<Row>, x: real, i: int) {
    0 <= i < |q| && q[i].Gap? && forall j :: 0 <= j < i && q[j].Point? ==> q[j].x < x
  }

  /** These places, one after the other, are all gaps before a key. */
  predicate AllGapsBefore(q: seq<Row>, x: real, gaps: seq<int>) {
    && (forall i, j :: 0 <= i < j < |gaps| ==> gaps[i] < gaps[j])
    && (forall i :: 0 <= i < |gaps| ==> GapBefore(q, x, gaps[i]))
    && (forall i :: 0 <= i < |q| && GapBefore(q, x, i) ==> i in gaps)
  }

  /** The number counted is that of these gaps. */
  lemma {:induction false} GapsCounted(q: seq<Row>, x: real) returns (gaps: seq<int>)
    ensures AllGapsBefore(q, x, gaps) && GapsBefore(q, x) == |gaps|
  {
    gaps := [];
    if q != [] && (q[0].Gap? || q[0].x < x) {
      var rest := GapsCounted(q[1..], x);
      gaps := OneLater(q, x, rest);
    }
  }

  lemma OneLater(q: seq<Row>, x: real, rest: seq<int>) returns (gaps: seq<int>)
    requires q != [] && (q[0].Gap? || q[0].x < x) && AllGapsBefore(q[1..], x, rest)
    ensures AllGapsBefore(q, x, gaps) && |gaps| == |rest| + if q[0].Gap? then 1 else 0
  {
    var moved := seq(|rest|, i requires 0 <= i < |rest| => rest[i] + 1);
    gaps := (if q[0].Gap? then [0] else []) + moved;
    forall i | i > 0 ensures GapBefore(q, x, i) <==> GapBefore(q[1..], x, i - 1) { GapBeforeTail(q, x, i); }
    forall i | 0 <= i < |q| && GapBefore(q, x, i) ensures i in gaps {
      if i > 0 { LaterHas(rest, gaps, i); } else { assert gaps[0] == 0; }
    }
  }

  lemma LaterHas(rest: seq<int>, gaps: seq<int>, i: int)
    requires |rest| <= |gaps| && i - 1 in rest
    requires forall k :: 0 <= k < |rest| ==> gaps[|gaps| - |rest| + k] == rest[k] + 1
    ensures i in gaps
  {
    var k :| 0 <= k < |rest| && rest[k] == i - 1;
    assert gaps[|gaps| - |rest| + k] == i;
  }

  lemma GapBeforeTail(q: seq<Row>, x: real, i: int)
    requires q != [] && i > 0
    ensures GapBefore(q, x, i) <==> (q[0].Point? ==> q[0].x < x) && GapBefore(q[1..], x, i - 1)
  {
    if GapBefore(q, x, i) {
      forall j | 0 <= j < i - 1 && q[1..][j].Point? ensures q[1..][j].x < x { assert q[j + 1].x < x; }
    }
    if GapBefore(q[1..], x, i - 1) {
      forall j | 0 < j < i && q[j].Point? ensures q[j].x < x { assert q[1..][j - 1].x < x; }
    }
  }

  /** The gaps reached are those before the last point. */
  lemma {:induction false} ReachedExact(p: seq<Row>, q: seq<Row>, k: nat)
    requires k < |p| && p[k].Point? && forall j :: k < j < |p| ==> p[j].Gap?
    ensures GapsReached(p, q) == GapsBefore(q, p[k].x)
  {
    if k > 0 {
      assert p[1..][k - 1].Point?;
      ReachedExact(p[1..], q, k - 1);
    } else {
      assert forall j :: 0 <= j < |p[1..]| ==> p[1..][j] == p[j + 1];
    }
  }

  lemma {:induction false} NoBar(q: seq<Row>, x: real)
    requires AllAbove(q, x)
    ensures BarAt(q, x) == 0.0
  {
    if q != [] { NoBar(q[1..], x); }
  }

  /** For the points of p both series have the same bars, and the second one d gaps less before them. */
  predicate SameBars(p: seq<Row>, q: seq<Row>, q': seq<Row>, d: nat) {
    forall k :: 0 <= k < |p| && p[k].Point? ==>
      BarAt(q, p[k].x) == BarAt(q', p[k].x) && GapsBefore(q, p[k].x) == d + GapsBefore(q', p[k].x)
  }

  lemma {:induction false} SameRaised(p: seq<Row>, q: seq<Row>, q': seq<Row>, d: nat, withBottom: bool)
    requires SameBars(p, q, q', d)
    ensures RaisedPoints(p, q, withBottom) == RaisedPoints(p, q', withBottom)
    ensures GapsReached(p, q) == (if HasPoint(p) then d else 0) + GapsReached(p, q')
  {
    if p != [] {
      assert SameBars(p[1..], q, q', d);
      SameRaised(p[1..], q, q', d, withBottom);
      HasPointTail(p);
    }
  }

  lemma HasPointTail(p: seq<Row>)
    requires p != []
    ensures HasPoint(p) <==> p[0].Point? || HasPoint(p[1..])
  {
    if HasPoint(p[1..]) {
      var k :| 0 <= k < |p[1..]| && p[1..][k].Point?;
      assert p[k + 1].Point?;
    }
  }

  /** The next row of p is pushed; from there on the other series is q', with the same bars. */
  lemma BarNext(p: seq<Row>, q: seq<Row>, q': seq<Row>, withBottom: bool, rows: seq<Row>)
    requires p != [] && SameBars(p[1..], q, q', 0) && BarRows(p[1..], q', withBottom, rows)
    requires p[0].Point? ==> GapsBefore(q, p[0].x) == 0
    ensures BarRows(p, q, withBottom, [BarOn(q, p[0], withBottom)] + rows)
  {
    var all := [BarOn(q, p[0], withBottom)] + rows;
    SameRaised(p[1..], q, q', 0, withBottom);
    HasPointTail(p);
    NoneReached(p[1..], q);
    assert all[1..] == rows;
    forall k: nat, m: nat | StandsAt(p, q, k, m) ensures m < |all| && all[m] == BarOn(q, p[k], withBottom) {
      if k > 0 { assert StandsAt(p[1..], q', k - 1, m - 1); }
    }
    forall m: nat | m < |all| && all[m].Point? ensures exists k: nat :: StandsAt(p, q, k, m) {
      if m == 0 {
        assert StandsAt(p, q, 0, 0);
      } else {
        var k: nat :| StandsAt(p[1..], q', k, m - 1);
        assert StandsAt(p, q, k + 1, m);
      }
    }
  }

  lemma {:induction false} NoneReached(p: seq<Row>, q: seq<Row>)
    ensures !HasPoint(p) ==> GapsReached(p, q) == 0
  {
    if p != [] {
      NoneReached(p[1..], q);
      HasPointTail(p);
    }
  }

  /** A row of q is passed over: a gap is pushed, a point before all points of p is not. */
  lemma BarOver(p: seq<Row>, q: seq<Row>, withBottom: bool, rows: seq<Row>)
    requires q != [] && HasPoint(p) && BarRows(p, q[1..], withBottom, rows)
    requires q[0].Point? ==> AllAbove(p, q[0].x)
    ensures BarRows(p, q, withBottom, (if q[0].Gap? then [Gap] else []) + rows)
  {
    var d := if q[0].Gap? then 1 else 0;
    var all := (if q[0].Gap? then [Gap] else []) + rows;
    SameRaised(p, q, q[1..], d, withBottom);
    assert all[d..] == rows;
    PlacesOver(p, q, d, withBottom, rows, all);
  }

  lemma PlacesOver(p: seq<Row>, q: seq<Row>, d: nat, withBottom: bool, rows: seq<Row>, all: seq<Row>)
    requires q != [] && d == (if q[0].Gap? then 1 else 0) && BarRows(p, q[1..], withBottom, rows)
    requires q[0].Point? ==> AllAbove(p, q[0].x)
    requires all == (if q[0].Gap? then [Gap] else []) + rows
    ensures forall k: nat, m: nat :: StandsAt(p, q, k, m) ==> m < |all| && all[m] == BarOn(q, p[k], withBottom)
    ensures forall m: nat :: m < |all| && all[m].Point? ==> exists k: nat :: StandsAt(p, q, k, m)
  {
    assert |all| == d + |rows| && forall m: nat :: d <= m < |all| ==> all[m] == rows[m - d];
    forall k: nat, m: nat | StandsAt(p, q, k, m) ensures m < |all| && all[m] == BarOn(q, p[k], withBottom) {
      PlaceOver(p, q, d, k, m);
    }
    forall m: nat | m < |all| && all[m].Point? ensures exists k: nat :: StandsAt(p, q, k, m) {
      assert rows[m - d].Point?;
      var k: nat :| StandsAt(p, q[1..], k, m - d);
      PlaceOver(p, q, d, k, m);
    }
  }

  /** Passing over a row of q moves the places of the points of p by the gap pushed, if it is one. */
  lemma PlaceOver(p: seq<Row>, q: seq<Row>, d: nat, k: nat, m: nat)
    requires q != [] && d == (if q[0].Gap? then 1 else 0)
    requires q[0].Point? ==> AllAbove(p, q[0].x)
    ensures StandsAt(p, q, k, m) <==> m >= d && StandsAt(p, q[1..], k, m - d)
    ensures StandsAt(p, q, k, m) ==> BarAt(q, p[k].x) == BarAt(q[1..], p[k].x)
  {
  }

  lemma AllLaterKeys(p: seq<Row>)
    requires Increasing(p) && p != [] && p[0].Point?
    ensures AllAbove(p[1..], p[0].x) && HasPoint(p)
  {
  }

  /** The turns of the loop in bar mode, on what is left of both series. */
  lemma {:induction false} BarsFrom(a: seq<Row>, b: seq<Row>, fromGap: bool, withBottom: bool)
    requires a != [] && b != [] && Apart(a) && Apart(b) && Increasing(a[1..]) && Increasing(b[1..])
    ensures BarRows(a[1..], b[1..], withBottom, Pushed(a, b, fromGap, false, withBottom))
    decreases |a| + |b|
  {
    if |a| > 1 {
      var t := OneTurn(a, b, fromGap, false, withBottom);
      BarsFrom(t.a, t.b, t.fromGap, withBottom);
      BarTurn(a, b, fromGap, withBottom, t, Pushed(t.a, t.b, t.fromGap, false, withBottom));
    }
  }

  lemma BarTurn(a: seq<Row>, b: seq<Row>, fromGap: bool, withBottom: bool, t: Turn, rows: seq<Row>)
    requires |a| > 1 && b != [] && Apart(a) && Apart(b) && Increasing(a[1..]) && Increasing(b[1..])
    requires t == OneTurn(a, b, fromGap, false, withBottom) && BarRows(t.a[1..], t.b[1..], withBottom, rows)
    ensures BarRows(a[1..], b[1..], withBottom, t.rows + rows)
  {
    var p, q := a[1..], b[1..];
    assert p[0] == a[1] && (q != [] ==> q[0] == b[1]);
    if p[0].Gap? {
      BarNext(p, q, q, withBottom, rows);
    } else {
      AllLaterKeys(p);
      if q == [] {
        BarNext(p, q, q, withBottom, rows);
      } else if q[0].Gap? {
        BarOver(p, q, withBottom, rows);
      } else {
        BarPoints(p, q, withBottom, t, rows);
      }
    }
  }

  /** The turn with a point on both sides. */
  lemma BarPoints(a: seq<Row>, b: seq<Row>, withBottom: bool, t: Turn, rows: seq<Row>)
    requires Increasing(a) && Increasing(b) && a != [] && b != [] && a[0].Point? && b[0].Point?
    requires if a[0].x == b[0].x then
               t.rows == [Raised(a[0], b[0].y, b[0].y, withBottom)] && BarRows(a[1..], b[1..], withBottom, rows)
             else if a[0].x > b[0].x then t.rows == [] && BarRows(a, b[1..], withBottom, rows)
             else t.rows == [Raised(a[0], 0.0, 0.0, withBottom)] && BarRows(a[1..], b, withBottom, rows)
    ensures BarRows(a, b, withBottom, t.rows + rows)
  {
    AllLaterKeys(a);
    AllLaterKeys(b);
    if a[0].x == b[0].x {
      BarNext(a, b, b[1..], withBottom, rows);
    } else if a[0].x > b[0].x {
      BarOver(a, b, withBottom, rows);
    } else {
      NoBar(b, a[0].x);
      BarNext(a, b, b, withBottom, rows);
    }
  }

  /**
   Bars: each point of the series is kept, raised by the other series' bar at its key if there is
   one; it stands behind the rows of its own series before it and the gaps of the other series
   before its key, and all other rows are gaps.
   */
  lemma BarsAreRaised(p: seq<Row>, q: seq<Row>, withBottom: bool)
    requires Increasing(p) && Increasing(q)
    ensures Apart(p) && Apart(q) && BarRows(p, q, withBottom, Stacked(p, q, false, withBottom))
  {
    IncreasingApart(p);
    IncreasingApart(q);
    assert ([Gap] + p)[1..] == p && ([Gap] + q)[1..] == q;
    BarsFrom([Gap] + p, [Gap] + q, true, withBottom);
  }

  /** On a series without gaps every row, point or gap, stays in its place. */
  lemma BarsInPlace(p: seq<Row>, q: seq<Row>, withBottom: bool)
    requires Increasing(p) && Increasing(q) && forall k :: 0 <= k < |q| ==> q[k].Point?
    ensures Apart(p) && Apart(q)
    ensures var rows := Stacked(p, q, false, withBottom);
      |rows| == |p| && forall k :: 0 <= k < |p| ==> rows[k] == BarOn(q, p[k], withBottom)
  {
    BarsAreRaised(p, q, withBottom);
    var rows := Stacked(p, q, false, withBottom);
    GapFree(p, q);
    forall k | 0 <= k < |p| ensures rows[k] == BarOn(q, p[k], withBottom) {
      if p[k].Point? { assert StandsAt(p, q, k, k); }
    }
  }

  lemma {:induction false} GapFree(p: seq<Row>, q: seq<Row>)
    requires forall k :: 0 <= k < |q| ==> q[k].Point?
    ensures GapsReached(p, q) == 0 && forall x :: GapsBefore(q, x) == 0
  {
    forall x ensures GapsBefore(q, x) == 0 { NoGapBefore(q, x); }
    if p != [] { GapFree(p[1..], q); }
  }

  lemma {:induction false} NoGapBefore(q: seq<Row>, x: real)
    requires forall k :: 0 <= k < |q| ==> q[k].Point?
    ensures GapsBefore(q, x) == 0
  {
    if q != [] { NoGapBefore(q[1..], x); }
  }

  /** A point at whose key the other series has one is raised by it; another one stays as it is. */
  lemma BarValues(p: seq<Row>, q: seq<Row>, withBottom: bool, k: nat, m: nat)
    requires Increasing(p) && Increasing(q) && StandsAt(p, q, k, m)
    ensures Apart(p) && Apart(q)
    ensures var rows := Stacked(p, q, false, withBottom);
      && m < |rows|
      && (forall j :: 0 <= j < |q| && q[j].Point? && q[j].x == p[k].x ==>
            rows[m] == Point(p[k].x, p[k].y + q[j].y, if withBottom then p[k].bottom + q[j].y else p[k].bottom))
      && ((forall j :: 0 <= j < |q| && q[j].Point? ==> q[j].x != p[k].x) ==> rows[m] == p[k])
  {
    BarsAreRaised(p, q, withBottom);
    BarAtExact(q, p[k].x);
  }

  // ----- gaps between lines

  /** Lines and bars push the same number of gaps, whatever was pushed before. */
  lemma {:induction false} SameGaps(a: seq<Row>, b: seq<Row>, fromGap: bool, fromGap': bool, withBottom: bool)
    requires a != [] && b != [] && Apart(a) && Apart(b)
    ensures var lines, bars := Pushed(a, b, fromGap, true, withBottom), Pushed(a, b, fromGap', false, withBottom);
      |lines| - |Points(lines)| == |bars| - |Points(bars)|
    decreases |a| + |b|
  {
    if |a| > 1 {
      var t, t' := OneTurn(a, b, fromGap, true, withBottom), OneTurn(a, b, fromGap', false, withBottom);
      SameCursors(a, b, fromGap, fromGap', withBottom);
      SameGaps(t.a, t.b, t.fromGap, t'.fromGap, withBottom);
      PointsAppend(t.rows, Pushed(t.a, t.b, t.fromGap, true, withBottom));
      PointsAppend(t'.rows, Pushed(t.a, t.b, t'.fromGap, false, withBottom));
    }
  }

  lemma SameCursors(a: seq<Row>, b: seq<Row>, fromGap: bool, fromGap': bool, withBottom: bool)
    requires |a| > 1 && b != [] && Apart(a) && Apart(b)
    ensures var t, t' := OneTurn(a, b, fromGap, true, withBottom), OneTurn(a, b, fromGap', false, withBottom);
      t.a == t'.a && t.b == t'.b && |t.rows| - |Points(t.rows)| == |t'.rows| - |Points(t'.rows)|
  {
    TurnGaps(a, b, fromGap, true, withBottom);
    TurnGaps(a, b, fromGap', false, withBottom);
  }

  /** A turn pushes a gap exactly at a gap of either series. */
  lemma TurnGaps(a: seq<Row>, b: seq<Row>, fromGap: bool, lines: bool, withBottom: bool)
    requires |a| > 1 && b != [] && Apart(a) && Apart(b)
    ensures var t := OneTurn(a, b, fromGap, lines, withBottom);
      |t.rows| - |Points(t.rows)| == if a[1].Gap? || (|b| > 1 && b[1].Gap?) then 1 else 0
  {
    AtMostOne(OneTurn(a, b, fromGap, lines, withBottom).rows);
  }

  lemma AtMostOne(rows: seq<Row>)
    ensures rows == [] ==> Points(rows) == []
    ensures |rows| == 1 ==> Points(rows) == if rows[0].Point? then rows else []
  {
  }

  lemma {:induction false} PointsAppend(r: seq<Row>, s: seq<Row>)
    ensures Points(r + s) == Points(r) + Points(s)
  {
    if r == [] {
      assert r + s == s;
    } else {
      var x, front := r[0], r[1..];
      assert r == [x] + front && r + s == [x] + (front + s);
      PointsAppend(front, s);
      PointsFirst(x, front);
      PointsFirst(x, front + s);
      Grouped(if x.Point? then [x] else [], Points(front), Points(s));
    }
  }

  lemma PointsFirst(x: Row, rows: seq<Row>)
    ensures Points([x] + rows) == (if x.Point? then [x] else []) + Points(rows)
  {
    assert ([x] + rows)[1..] == rows;
  }

  lemma Grouped(a: seq<Row>, b: seq<Row>, c: seq<Row>)
    ensures a + (b + c) == (a + b) + c
  {
  }

  lemma {:induction false} RaisedCount(p: seq<Row>, q: seq<Row>, withBottom: bool)
    ensures |RaisedPoints(p, q, withBottom)| == |Points(p)|
  {
    if p != [] { RaisedCount(p[1..], q, withBottom); }
  }

  /** Lines: the gaps in the result are those of the series and those of the other one before its last point. */
  lemma LineGaps(p: seq<Row>, q: seq<Row>, withBottom: bool)
    requires Increasing(p) && Increasing(q)
    ensures Apart(p) && Apart(q)
    ensures var rows := Stacked(p, q, true, withBottom);
      |rows| - |Points(rows)| == |p| - |Points(p)| + GapsReached(p, q)
  {
    BarsAreRaised(p, q, withBottom);
    RaisedCount(p, q, withBottom);
    assert ([Gap] + p)[1..] == p && ([Gap] + q)[1..] == q;
    SameGaps([Gap] + p, [Gap] + q, true, true, withBottom);
  }
}
