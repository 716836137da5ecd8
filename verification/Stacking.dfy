/**
 Stacking one chart series on another: the merge loop of the flot stack plugin over reals. Its
 result is described by what each turn does to the rows that are left of both series.
 */
module Stacking {
  /** A point with its key, its stacked coordinate and its bottom, or a gap in the series. */
  datatype Row = Gap | Point(x: real, y: real, bottom: real)

  // ----- series

  /** All points lie behind c. */
  predicate AllAbove(rows: seq<Row>, c: real) {
    forall k :: 0 <= k < |rows| && rows[k].Point? ==> c < rows[k].x
  }

  /** Strictly increasing keys, whatever gaps lie between. */
  predicate Increasing(rows: seq<Row>) {
    rows == [] || (Increasing(rows[1..]) && (rows[0].Point? ==> AllAbove(rows[1..], rows[0].x)))
  }

  /** Adjoining points have different keys: what the interpolation divides by is never zero. */
  predicate Apart(rows: seq<Row>) {
    |rows| < 2 || (Apart(rows[1..]) && (rows[0].Point? && rows[1].Point? ==> rows[0].x != rows[1].x))
  }

  lemma {:induction false} IncreasingApart(rows: seq<Row>)
    requires Increasing(rows)
    ensures Apart(rows)
  {
    if |rows| > 1 {
      IncreasingApart(rows[1..]);
      assert rows[1..][0] == rows[1];
    }
  }

  /** Any two points of such a series stand in order. */
  lemma {:induction false} IncreasingPairs(rows: seq<Row>, i: nat, j: nat)
    requires Increasing(rows) && i < j < |rows| && rows[i].Point? && rows[j].Point?
    ensures rows[i].x < rows[j].x
  {
    if i > 0 { IncreasingPairs(rows[1..], i - 1, j - 1); } else { assert rows[j] == rows[1..][j - 1]; }
  }

  // ----- the loop, as a function of what is left of the series

  function LineAt(a: Row, b: Row, x: real): real
    requires a.Point? && b.Point? && a.x != b.x
  {
    b.y + (a.y - b.y) * (x - b.x) / (a.x - b.x)
  }

  function Raised(r: Row, rise: real, bottom: real, withBottom: bool): Row
    requires r.Point?
  {
    Point(r.x, r.y + rise, if withBottom then r.bottom + bottom else r.bottom)
  }

  /** One turn of the loop: the rows it pushes and what it leaves of both series. */
  datatype Turn = Turn(rows: seq<Row>, a: seq<Row>, b: seq<Row>, fromGap: bool)

  /** The first row of a and of b is the one before the cursor, the second one that at the cursor. */
  function OneTurn(a: seq<Row>, b: seq<Row>, fromGap: bool, lines: bool, withBottom: bool): (t: Turn)
    requires |a| > 1 && b != [] && Apart(a) && Apart(b)
    ensures t.a != [] && t.b != [] && Apart(t.a) && Apart(t.b)
    ensures |t.a| <= |a| && |t.b| <= |b| && |t.a| + |t.b| < |a| + |b|
  {
    if a[1].Gap? then Turn([Gap], a[1..], b, fromGap)
    else if |b| == 1 then Turn(if lines then [] else [a[1]], a[1..], b, fromGap)
    else if b[1].Gap? then Turn([Gap], a, b[1..], true)
    else if a[1].x == b[1].x then Turn([Raised(a[1], b[1].y, b[1].y, withBottom)], a[1..], b[1..], false)
    else if a[1].x > b[1].x then
      if lines && a[0].Point? then
        var between := Point(b[1].x, LineAt(a[0], a[1], b[1].x), a[1].bottom);
        Turn([Raised(between, b[1].y, b[1].y, withBottom)], a, b[1..], false)
      else Turn([], a, b[1..], false)
    else if fromGap && lines then Turn([], a[1..], b, fromGap)
    else
      var below := if lines && b[0].Point? then LineAt(b[0], b[1], a[1].x) else 0.0;
      Turn([Raised(a[1], below, below, withBottom)], a[1..], b, false)
  }

  /** What is still pushed. */
  function Pushed(a: seq<Row>, b: seq<Row>, fromGap: bool, lines: bool, withBottom: bool): seq<Row>
    requires a != [] && b != [] && Apart(a) && Apart(b)
    decreases |a| + |b|
  {
    if |a| == 1 then []
    else
      var t := OneTurn(a, b, fromGap, lines, withBottom);
      t.rows + Pushed(t.a, t.b, t.fromGap, lines, withBottom)
  }

  /** The whole result; nothing stands before the first rows. */
  function Stacked(p: seq<Row>, q: seq<Row>, lines: bool, withBottom: bool): seq<Row>
    requires Apart(p) && Apart(q)
  {
    assert ([Gap] + p)[1..] == p && ([Gap] + q)[1..] == q;
    Pushed([Gap] + p, [Gap] + q, true, lines, withBottom)
  }

  // ----- the loop itself

  /** The series from the row before the cursor on. */
  function From(p: seq<Row>, i: nat): (a: seq<Row>)
    requires i <= |p|
    ensures |a| == |p| - i + 1
  {
    [if i == 0 then Gap else p[i - 1]] + p[i..]
  }

  lemma FromNext(p: seq<Row>, i: nat)
    requires i < |p|
    ensures From(p, i)[1] == p[i] && From(p, i)[1..] == From(p, i + 1)
    ensures From(p, i)[0] == if i == 0 then Gap else p[i - 1]
  {
  }

  lemma {:induction false} FromApart(p: seq<Row>, i: nat)
    requires Apart(p) && i <= |p|
    ensures Apart(From(p, i))
  {
    if i == 0 {
      assert From(p, i) == [Gap] + p && ([Gap] + p)[1..] == p;
    } else {
      FromApart(p, i - 1);
      FromNext(p, i - 1);
    }
  }

  lemma Carry(was: seq<Row>, rows: seq<Row>, rest: seq<Row>)
    ensures was + (rows + rest) == (was + rows) + rest
  {
  }

  /** Accumulating the bottom in the row that was just pushed, if one was. */
  function Bottomed(newrows: seq<Row>, bottom: real, withbottom: bool): seq<Row>
    requires newrows == [] || newrows[0].Point?
  {
    if newrows != [] && withbottom then [newrows[0].(bottom := newrows[0].bottom + bottom)] else newrows
  }

  /** The branch for a point of the other series that comes first: the own line is interpolated. */
  method OtherFirst(points: seq<Row>, otherpoints: seq<Row>, i: nat, j: nat, ghost fromgap: bool, withlines: bool,
                    ghost withbottom: bool)
    returns (newrows: seq<Row>, bottom: real)
    requires i < |points| && j < |otherpoints| && Apart(From(points, i)) && Apart(From(otherpoints, j))
    requires points[i].Point? && otherpoints[j].Point? && points[i].x > otherpoints[j].x
    ensures newrows == [] || (|newrows| == 1 && newrows[0].Point?)
    ensures Turn(Bottomed(newrows, bottom, withbottom), From(points, i), From(otherpoints, j + 1), false)
         == OneTurn(From(points, i), From(otherpoints, j), fromgap, withlines, withbottom)
  {
    FromNext(points, i);
    FromNext(otherpoints, j);
    var qx, qy := otherpoints[j].x, otherpoints[j].y;
    newrows, bottom := [], 0.0;
    if withlines && i > 0 && points[i - 1].Point? {
      var intery := LineAt(points[i - 1], points[i], qx);
      newrows := [Point(qx, intery + qy, points[i].bottom)];
      bottom := qy;
    }
  }

  /** The branch for an own point that comes first: the line of the other series is interpolated. */
  method OwnFirst(points: seq<Row>, otherpoints: seq<Row>, i: nat, j: nat, ghost fromgap: bool, withlines: bool,
                  ghost withbottom: bool)
    returns (newrows: seq<Row>, bottom: real)
    requires i < |points| && j < |otherpoints| && Apart(From(points, i)) && Apart(From(otherpoints, j))
    requires points[i].Point? && otherpoints[j].Point? && points[i].x < otherpoints[j].x
    requires !(fromgap && withlines)
    ensures |newrows| == 1 && newrows[0].Point?
    ensures Turn(Bottomed(newrows, bottom, withbottom), From(points, i + 1), From(otherpoints, j), false)
         == OneTurn(From(points, i), From(otherpoints, j), fromgap, withlines, withbottom)
  {
    FromNext(points, i);
    FromNext(otherpoints, j);
    bottom := 0.0;
    if withlines && j > 0 && otherpoints[j - 1].Point? {
      bottom := LineAt(otherpoints[j - 1], otherpoints[j], points[i].x);
    }
    newrows := [points[i].(y := points[i].y + bottom)];
  }

  /** The turn in which both series have a point. */
  method TwoPoints(points: seq<Row>, otherpoints: seq<Row>, i: nat, j: nat, fromgap: bool, withlines: bool, withbottom: bool)
    returns (newrows: seq<Row>, i': nat, j': nat, fromgap': bool)
    requires i < |points| && j < |otherpoints| && Apart(From(points, i)) && Apart(From(otherpoints, j))
    requires points[i].Point? && otherpoints[j].Point?
    ensures i' <= |points| && j' <= |otherpoints|
    ensures Turn(newrows, From(points, i'), From(otherpoints, j'), fromgap')
         == OneTurn(From(points, i), From(otherpoints, j), fromgap, withlines, withbottom)
  {
    FromNext(points, i);
    FromNext(otherpoints, j);
    var px, qx, bottom := points[i].x, otherpoints[j].x, 0.0;
    i', j', fromgap' := i, j, false;
    if px == qx {
      newrows := [points[i].(y := points[i].y + otherpoints[j].y)];
      bottom := otherpoints[j].y;
      i' := i + 1;
      j' := j + 1;
    } else if px > qx {
      newrows, bottom := OtherFirst(points, otherpoints, i, j, fromgap, withlines, withbottom);
      j' := j + 1;
    } else {
      if fromgap && withlines {
        return [], i + 1, j, fromgap;
      }
      newrows, bottom := OwnFirst(points, otherpoints, i, j, fromgap, withlines, withbottom);
      i' := i + 1;
    }
    newrows := Bottomed(newrows, bottom, withbottom);
  }

  /** The turns in which one series has a gap or the other one is used up. */
  method OnePoint(points: seq<Row>, otherpoints: seq<Row>, i: nat, j: nat, fromgap: bool, withlines: bool, withbottom: bool)
    returns (newrows: seq<Row>, i': nat, j': nat, fromgap': bool)
    requires i < |points| && j <= |otherpoints| && Apart(From(points, i)) && Apart(From(otherpoints, j))
    requires points[i].Gap? || j == |otherpoints| || otherpoints[j].Gap?
    ensures i' <= |points| && j' <= |otherpoints|
    ensures Turn(newrows, From(points, i'), From(otherpoints, j'), fromgap')
         == OneTurn(From(points, i), From(otherpoints, j), fromgap, withlines, withbottom)
  {
    FromNext(points, i);
    newrows := [];
    i', j', fromgap' := i, j, fromgap;
    if points[i].Gap? {
      newrows := [Gap];
      i' := i + 1;
    } else if j >= |otherpoints| {
      if !withlines {
        newrows := [points[i]];
      }
      i' := i + 1;
    } else {
      FromNext(otherpoints, j);
      newrows := [Gap];
      fromgap' := true;
      j' := j + 1;
    }
  }

  /** One turn of the loop on the rows of both series. */
  method MakeTurn(points: seq<Row>, otherpoints: seq<Row>, i: nat, j: nat, fromgap: bool, withlines: bool, withbottom: bool)
    returns (newrows: seq<Row>, i': nat, j': nat, fromgap': bool)
    requires i < |points| && j <= |otherpoints| && Apart(From(points, i)) && Apart(From(otherpoints, j))
    ensures i' <= |points| && j' <= |otherpoints|
    ensures Turn(newrows, From(points, i'), From(otherpoints, j'), fromgap')
         == OneTurn(From(points, i), From(otherpoints, j), fromgap, withlines, withbottom)
  {
    if points[i].Point? && j < |otherpoints| && otherpoints[j].Point? {
      newrows, i', j', fromgap' := TwoPoints(points, otherpoints, i, j, fromgap, withlines, withbottom);
    } else {
      newrows, i', j', fromgap' := OnePoint(points, otherpoints, i, j, fromgap, withlines, withbottom);
    }
  }

  /** stackData on the rows of a series and of the series below it. */
  method StackData(points: seq<Row>, otherpoints: seq<Row>, withlines: bool, withbottom: bool)
    returns (newpoints: seq<Row>)
    requires Apart(points) && Apart(otherpoints)
    ensures newpoints == Stacked(points, otherpoints, withlines, withbottom)
  {
    newpoints := [];
    var fromgap := true;
    var i: nat, j: nat := 0, 0;
    StackedFrom(points, otherpoints, withlines, withbottom);
    while i < |points|
      invariant i <= |points| && j <= |otherpoints|
      invariant Apart(From(points, i)) && Apart(From(otherpoints, j))
      invariant newpoints + Pushed(From(points, i), From(otherpoints, j), fromgap, withlines, withbottom)
             == Stacked(points, otherpoints, withlines, withbottom)
      decreases |points| - i + |otherpoints| - j
    {
      var newrows;
      TurnOn(newpoints, From(points, i), From(otherpoints, j), fromgap, withlines, withbottom);
      newrows, i, j, fromgap := MakeTurn(points, otherpoints, i, j, fromgap, withlines, withbottom);
      newpoints := newpoints + newrows;
    }
  }

  lemma StackedFrom(p: seq<Row>, q: seq<Row>, lines: bool, withBottom: bool)
    requires Apart(p) && Apart(q)
    ensures Apart(From(p, 0)) && Apart(From(q, 0))
    ensures Stacked(p, q, lines, withBottom) == Pushed(From(p, 0), From(q, 0), true, lines, withBottom)
  {
    FromApart(p, 0);
    FromApart(q, 0);
    assert From(p, 0) == [Gap] + p && From(q, 0) == [Gap] + q;
  }

  lemma TurnOn(was: seq<Row>, a: seq<Row>, b: seq<Row>, fromGap: bool, lines: bool, withBottom: bool)
    requires |a| > 1 && b != [] && Apart(a) && Apart(b)
    ensures var t := OneTurn(a, b, fromGap, lines, withBottom);
      was + Pushed(a, b, fromGap, lines, withBottom)
        == (was + t.rows) + Pushed(t.a, t.b, t.fromGap, lines, withBottom)
  {
    var t := OneTurn(a, b, fromGap, lines, withBottom);
    Carry(was, t.rows, Pushed(t.a, t.b, t.fromGap, lines, withBottom));
  }
}
