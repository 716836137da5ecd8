/**
 Paths into a configuration tree: how put and locate cut a path into segments, what put does
 to the tree, and when a value that was put is the value that is read back.
 */
module ConfigPaths {
  import opened Options
  import opened ConfigTree

  // ----- cutting a path

  /** A leading slash is optional and ignored. */
  function Strip(path: string): string {
    if |path| > 0 && path[0] == '/' then path[1..] else path
  }

  /** Where the next segment ends: at the first slash, or at the end of the path. */
  function SlashAt(p: string): (k: nat)
    ensures k <= |p|
    ensures k < |p| ==> p[k] == '/'
  {
    if p == "" || p[0] == '/' then 0 else 1 + SlashAt(p[1..])
  }

  function Segment(path: string): string {
    Strip(path)[..SlashAt(Strip(path))]
  }

  /** What follows the next segment: "" or a text that starts with a slash. */
  function Rest(path: string): (rest: string)
    ensures rest != "" ==> rest[0] == '/'
    ensures |rest| <= |Strip(path)|
  {
    Strip(path)[SlashAt(Strip(path))..]
  }

  /** The segments that locate walks through, never none. */
  function Segs(path: string): (segs: seq<string>)
    ensures segs != [] && segs[0] == Segment(path)
    decreases |Strip(path)|
  {
    if Rest(path) == "" then [Segment(path)] else [Segment(path)] + Segs(Rest(path))
  }

  lemma SegsShape(path: string)
    ensures var p := Strip(path);
      var k, segs := SlashAt(p), Segs(path);
      && segs[0] == p[..k]
      && (k == |p| ==> |segs| == 1)
      && (k < |p| ==> |segs| > 1 && segs[1..] == Segs(p[k..]) && |Strip(p[k..])| < |p|)
  {
  }

  /** The segments with a slash between each and the next. */
  function Joined(segs: seq<string>): string
    requires segs != []
  {
    if |segs| == 1 then segs[0] else segs[0] + "/" + Joined(segs[1..])
  }

  predicate SlashFree(segs: seq<string>) {
    forall i :: 0 <= i < |segs| ==> '/' !in segs[i]
  }

  lemma SlashAtExact(p: string, k: nat)
    requires k <= |p| && '/' !in p[..k] && (k < |p| ==> p[k] == '/')
    ensures SlashAt(p) == k
  {
    if k > 0 {
      assert p[..k][0] == p[0] && p[1..][..k - 1] == p[..k][1..];
      SlashAtExact(p[1..], k - 1);
    }
  }

  lemma {:induction false} NoSlashBefore(p: string)
    ensures '/' !in p[..SlashAt(p)]
  {
    if p != "" && p[0] != '/' {
      NoSlashBefore(p[1..]);
      assert p[..SlashAt(p)] == [p[0]] + p[1..][..SlashAt(p[1..])];
    }
  }

  lemma {:induction false} SegsJoined(path: string)
    ensures SlashFree(Segs(path)) && Joined(Segs(path)) == Strip(path)
    decreases |Strip(path)|
  {
    var p, segs := Strip(path), Segs(path);
    var k := SlashAt(p);
    NoSlashBefore(p);
    SegsShape(path);
    if k == |p| {
      assert p[..k] == p;
    } else {
      SegsJoined(p[k..]);
      FirstFree(segs);
      SplitAtSlash(p, k);
    }
  }

  lemma SplitAtSlash(p: string, k: nat)
    requires k < |p| && p[k] == '/'
    ensures p == p[..k] + "/" + Strip(p[k..])
  {
  }

  lemma FirstFree(segs: seq<string>)
    requires segs != [] && '/' !in segs[0] && SlashFree(segs[1..])
    ensures SlashFree(segs)
  {
    assert segs == [segs[0]] + segs[1..];
  }

  lemma {:induction false} JoinedInjective(a: seq<string>, b: seq<string>)
    requires a != [] && b != [] && SlashFree(a) && SlashFree(b) && Joined(a) == Joined(b)
    ensures a == b
  {
    FirstJoined(a);
    FirstJoined(b);
    var p := Joined(a);
    SlashAtExact(p, |a[0]|);
    SlashAtExact(p, |b[0]|);
    assert a == [a[0]] + a[1..] && b == [b[0]] + b[1..];
    if |a| > 1 {
      assert p[|a[0]| + 1..] == Joined(a[1..]) && p[|b[0]| + 1..] == Joined(b[1..]);
      JoinedInjective(a[1..], b[1..]);
    }
  }

  lemma FirstJoined(a: seq<string>)
    requires a != [] && SlashFree(a)
    ensures var p, k := Joined(a), |a[0]|;
      k <= |p| && p[..k] == a[0] && '/' !in p[..k] && (if |a| == 1 then k == |p| else k < |p| && p[k] == '/')
  {
  }

  /** A path is cut at every slash, but for one that it starts with. */
  lemma SegsExact(path: string, segs: seq<string>)
    ensures Segs(path) == segs <==>
      && segs != [] && SlashFree(segs)
      && (if path != "" && path[0] == '/' then path == "/" + Joined(segs) else path == Joined(segs))
  {
    SegsJoined(path);
    if segs != [] && SlashFree(segs) && Joined(segs) == Strip(path) {
      JoinedInjective(Segs(path), segs);
    }
    if segs != [] && path != "" && path[0] == '/' {
      assert path == "/" + path[1..] && ("/" + Joined(segs))[1..] == Joined(segs);
    }
  }

  // ----- what put and locate compute

  /** zz_config_put: the tree below an item after putting v at a path. */
  function PutPath(t: Tree<()>, path: string, v: string): Tree<()>
    decreases |Strip(path)|, 1, t
  {
    PutSibling(t, Segment(path), Rest(path), v)
  }

  /** The search through the siblings t for the segment, with rest still to follow. */
  function PutSibling(t: Tree<()>, seg: string, rest: string, v: string): Tree<()>
    requires rest != "" ==> rest[0] == '/'
    decreases |rest|, 0, t
  {
    match t
    case Nil =>
      if rest == "" then Leaf((), seg, Some(v)) else Item((), seg, None, PutPath(Nil, rest, v), Nil)
    case Item(_, name, _, kids, next) =>
      if name != seg then t.(next := PutSibling(next, seg, rest, v))
      else if rest == "" then t.(value := Some(v))
      else t.(kids := PutPath(kids, rest[1..], v))
  }

  /** The item that a list of segments leads to, with its later siblings; Nil if there is none. */
  function Locate<T>(t: Tree<T>, segs: seq<string>): (r: Tree<T>)
    requires segs != []
    decreases |segs|, t
  {
    match t
    case Nil => Nil
    case Item(_, name, _, kids, next) =>
      if name != segs[0] then Locate(next, segs)
      else if |segs| == 1 then t
      else Locate(kids, segs[1..])
  }

  /** None if nothing is located, otherwise the value found, which may be missing. */
  function ValueAt<T>(t: Tree<T>, segs: seq<string>): Option<Option<string>>
    requires segs != []
  {
    var r := Locate(t, segs);
    if r.Nil? then None else Some(r.value)
  }

  /** Putting a value at a list of segments: the first item with each name, or a new last one. */
  function PutSegs(t: Tree<()>, segs: seq<string>, v: string): (r: Tree<()>)
    requires segs != []
    ensures r.Item?
    decreases |segs|, t
  {
    match t
    case Nil =>
      if |segs| == 1 then Leaf((), segs[0], Some(v))
      else Item((), segs[0], None, PutSegs(Nil, segs[1..], v), Nil)
    case Item(_, name, _, kids, next) =>
      if name != segs[0] then t.(next := PutSegs(next, segs, v))
      else if |segs| == 1 then t.(value := Some(v))
      else t.(kids := PutSegs(kids, segs[1..], v))
  }

  // ----- the laws of put and get

  lemma PrefixUnfold(p: seq<string>, q: seq<string>)
    requires p != [] && q != []
    ensures q <= p <==> q[0] == p[0] && (|q| == 1 || q[1..] <= p[1..])
    ensures q == p <==> q[0] == p[0] && q[1..] == p[1..]
  {
    assert p == [p[0]] + p[1..];
    assert q == [q[0]] + q[1..];
  }

  lemma PutFresh(p: seq<string>, v: string, q: seq<string>)
    requires p != [] && q != []
    ensures ValueAt(PutSegs(Nil, p, v), q)
         == if q[0] != p[0] then None
            else if |q| == 1 then Some(if |p| == 1 then Some(v) else None)
            else if |p| == 1 then None
            else ValueAt(PutSegs(Nil, p[1..], v), q[1..])
  {
    var u := PutSegs(Nil, p, v);
    assert u.name == p[0] && u.next == Nil;
    assert |p| == 1 ==> u.kids == Nil;
    assert Locate<()>(Nil, q) == Nil;
    assert |q| > 1 ==> Locate<()>(Nil, q[1..]) == Nil;
  }

  /**
   The whole effect of a put, path by path: the path itself gets the value, every path that
   led somewhere keeps its value, and the only new paths are the prefixes of the path put,
   which lead to items without a value.
   */
  lemma {:induction false} PutEffect(t: Tree<()>, p: seq<string>, v: string, q: seq<string>)
    requires p != [] && q != []
    ensures ValueAt(PutSegs(t, p, v), q)
         == if q == p then Some(Some(v))
            else if ValueAt(t, q).Some? then ValueAt(t, q)
            else if q <= p then Some(None)
            else None
    decreases |p|, t
  {
    PrefixUnfold(p, q);
    match t
    case Nil =>
      PutFresh(p, v, q);
      if q[0] == p[0] && |p| > 1 && |q| > 1 {
        PutEffect(Nil, p[1..], v, q[1..]);
      }
    case Item(_, name, _, kids, next) =>
      if name != p[0] {
        PutEffect(next, p, v, q);
      } else if q[0] == p[0] && |p| > 1 && |q| > 1 {
        PutEffect(kids, p[1..], v, q[1..]);
      }
  }

  /** u is t with values changed and new items added after the last sibling of some lists. */
  predicate Grows(t: Tree<()>, u: Tree<()>) {
    t.Nil? || (u.Item? && u.name == t.name && Grows(t.kids, u.kids) && Grows(t.next, u.next))
  }

  lemma {:induction false} GrowsReflexive(t: Tree<()>)
    ensures Grows(t, t)
  {
    if t.Item? { GrowsReflexive(t.kids); GrowsReflexive(t.next); }
  }

  /** How many leading segments already lead somewhere. */
  function Known(t: Tree<()>, segs: seq<string>): (n: nat)
    requires segs != []
    ensures n <= |segs|
    decreases |segs|, t
  {
    match t
    case Nil => 0
    case Item(_, name, _, kids, next) =>
      if name != segs[0] then Known(next, segs)
      else if |segs| == 1 then 1
      else 1 + Known(kids, segs[1..])
  }

  /** A put keeps every item in its place and adds one item for each segment not yet there. */
  lemma {:induction false} PutGrows(t: Tree<()>, p: seq<string>, v: string)
    requires p != []
    ensures Grows(t, PutSegs(t, p, v))
    ensures Size(PutSegs(t, p, v)) == Size(t) + |p| - Known(t, p)
    decreases |p|, t
  {
    match t
    case Nil =>
      if |p| > 1 { PutGrows(Nil, p[1..], v); }
    case Item(_, name, _, kids, next) =>
      GrowsReflexive(kids);
      GrowsReflexive(next);
      if name != p[0] { PutGrows(next, p, v); }
      else if |p| > 1 { PutGrows(kids, p[1..], v); }
  }

  // ----- the segments that put walks, and when they are those of locate

  lemma SegsTail(path: string)
    requires Rest(path) != ""
    ensures Segs(path) == [Segment(path)] + Segs(Rest(path))
    ensures |Strip(Rest(path)[1..])| < |Strip(path)|
    ensures |Segs(Rest(path))| > 1 && Segs(Rest(path))[0] == ""
        ==> Segs(Rest(path)) == [""] + Segs(Rest(path)[1..])
    ensures !(|Segs(Rest(path))| > 1 && Segs(Rest(path))[0] == "")
        ==> Segs(Rest(path)) == Segs(Rest(path)[1..])
  {
    var rest := Rest(path);
    var p := rest[1..];
    assert Strip(rest) == p;
    if SlashAt(p) == 0 && p != "" {
      assert Rest(rest) == p;
    } else {
      assert Strip(p) == p;
      SameStrip(rest, p);
    }
  }

  lemma SameStrip(p: string, q: string)
    requires Strip(p) == Strip(q)
    ensures Segs(p) == Segs(q)
  {
  }

  lemma {:induction false} PutPathNil(path: string, v: string)
    ensures PutPath(Nil, path, v) == PutSegs(Nil, Segs(path), v)
    decreases |Strip(path)|
  {
    if Rest(path) != "" { PutPathNil(Rest(path), v); }
  }

  /** What put goes on with below an item that is there: an empty segment is passed over. */
  function DropEmpty(segs: seq<string>): (r: seq<string>)
    requires segs != []
    ensures r != [] && |r| <= |segs|
  {
    if |segs| > 1 && segs[0] == "" then segs[1..] else segs
  }

  /** The segments that put walks in a tree. */
  function Walked(t: Tree<()>, segs: seq<string>): (w: seq<string>)
    requires segs != []
    ensures w != [] && w[0] == segs[0] && |w| <= |segs|
    decreases |segs|, t
  {
    match t
    case Nil => segs
    case Item(_, name, _, kids, next) =>
      if name != segs[0] then Walked(next, segs)
      else if |segs| == 1 then segs
      else [segs[0]] + Walked(kids, DropEmpty(segs[1..]))
  }

  /** Put walks just these segments, in every tree. */
  lemma {:induction false} PutWalks(t: Tree<()>, path: string, v: string)
    ensures PutPath(t, path, v) == PutSegs(t, Walked(t, Segs(path)), v)
    decreases |Strip(path)|, t
  {
    match t
    case Nil => PutPathNil(path, v);
    case Item(_, name, _, kids, next) =>
      if name != Segment(path) {
        PutWalks(next, path, v);
      } else if Rest(path) != "" {
        SegsTail(path);
        var below := Rest(path)[1..];
        assert Segs(path)[1..] == Segs(Rest(path));
        assert DropEmpty(Segs(path)[1..]) == Segs(below);
        PutWalks(kids, below, v);
        PutBelow(t, Segs(path), Walked(kids, Segs(below)), v);
      }
  }

  lemma PutBelow(t: Tree<()>, segs: seq<string>, w: seq<string>, v: string)
    requires t.Item? && segs != [] && t.name == segs[0] && w != []
    ensures PutSegs(t, [segs[0]] + w, v) == t.(kids := PutSegs(t.kids, w, v))
  {
    assert ([segs[0]] + w)[1..] == w;
  }

  /** An empty segment between the first and the last one, below an item that is there. */
  predicate SwallowedAt(t: Tree<()>, segs: seq<string>, i: nat) {
    1 <= i < |segs| - 1 && segs[i] == "" && Locate(t, segs[..i]).Item?
  }

  ghost predicate Swallows(t: Tree<()>, segs: seq<string>) {
    exists i: nat :: SwallowedAt(t, segs, i)
  }

  lemma SwallowedNext(t: Tree<()>, segs: seq<string>, i: nat)
    requires t.Item? && segs != [] && t.name != segs[0]
    ensures SwallowedAt(t, segs, i) == SwallowedAt(t.next, segs, i)
  {
    if 1 <= i < |segs| { assert segs[..i][0] == segs[0]; }
  }

  lemma SwallowedBelow(t: Tree<()>, segs: seq<string>, i: nat)
    requires t.Item? && |segs| > 1 && t.name == segs[0] && i >= 1
    ensures SwallowedAt(t, segs, i + 1) == SwallowedAt(t.kids, segs[1..], i)
    ensures SwallowedAt(t, segs, 1) <==> |segs| > 2 && segs[1] == ""
  {
    assert segs[..1][0] == segs[0];
    if i + 1 < |segs| {
      assert segs[..i + 1][0] == segs[0] && segs[..i + 1][1..] == segs[1..][..i];
    }
  }

  /** Put and locate walk the same segments exactly if put passes over none. */
  lemma {:induction false} WalkedExact(t: Tree<()>, segs: seq<string>)
    requires segs != []
    ensures Walked(t, segs) == segs <==> !Swallows(t, segs)
    decreases |segs|, t
  {
    if t.Item? && t.name != segs[0] {
      WalkedExact(t.next, segs);
      SameSwallows(t, segs);
    } else if t.Item? && |segs| > 1 {
      var tail := segs[1..];
      SwallowedBelow(t, segs, 1);
      assert segs == [segs[0]] + tail;
      if DropEmpty(tail) == tail {
        WalkedExact(t.kids, tail);
        SwallowsBelow(t, segs);
      } else {
        assert SwallowedAt(t, segs, 1);
      }
    }
  }

  lemma SameSwallows(t: Tree<()>, segs: seq<string>)
    requires t.Item? && segs != [] && t.name != segs[0]
    ensures Swallows(t, segs) == Swallows(t.next, segs)
  {
    forall i: nat ensures SwallowedAt(t, segs, i) == SwallowedAt(t.next, segs, i) { SwallowedNext(t, segs, i); }
  }

  lemma SwallowsBelow(t: Tree<()>, segs: seq<string>)
    requires t.Item? && |segs| > 1 && t.name == segs[0] && (|segs| == 2 || segs[1] != "")
    ensures Swallows(t, segs) == Swallows(t.kids, segs[1..])
  {
    SwallowedBelow(t, segs, 1);
    if Swallows(t, segs) {
      var i: nat :| SwallowedAt(t, segs, i);
      SwallowedBelow(t, segs, i - 1);
    }
    if Swallows(t.kids, segs[1..]) {
      var i: nat :| SwallowedAt(t.kids, segs[1..], i);
      SwallowedBelow(t, segs, i);
      assert SwallowedAt(t, segs, i + 1);
    }
  }

  /**
   The laws of put on path texts, for every tree and path: the segments walked read the value,
   every path that led somewhere else keeps its value, and only items on the way to the new one
   appear.
   */
  lemma PutPathEffect(t: Tree<()>, path: string, v: string, other: string)
    ensures var w, q := Walked(t, Segs(path)), Segs(other);
      ValueAt(PutPath(t, path, v), q)
         == if q == w then Some(Some(v))
            else if ValueAt(t, q).Some? then ValueAt(t, q)
            else if q <= w then Some(None)
            else None
    ensures Grows(t, PutPath(t, path, v))
  {
    var w := Walked(t, Segs(path));
    PutWalks(t, path, v);
    PutEffect(t, w, v, Segs(other));
    PutGrows(t, w, v);
  }

  /**
   Reading back what was put, exactly: it works if and only if put passes over no segment of the
   path, or the value was there before.
   */
  lemma PutThenResolve(t: Tree<()>, path: string, v: string)
    ensures ValueAt(PutPath(t, path, v), Segs(path)) == Some(Some(v))
       <==> !Swallows(t, Segs(path)) || ValueAt(t, Segs(path)) == Some(Some(v))
  {
    PutPathEffect(t, path, v, path);
    WalkedExact(t, Segs(path));
    var w, segs := Walked(t, Segs(path)), Segs(path);
    assert segs <= w ==> segs == w;
  }

  /** Some segment other than the first and the last is empty: a "//" inside the path. */
  predicate InnerEmpty(segs: seq<string>) {
    exists i :: 1 <= i < |segs| - 1 && segs[i] == ""
  }

  /** A path is read back from every tree exactly if it has no empty segment inside. */
  lemma SafePath(path: string)
    ensures (forall t, v :: ValueAt(PutPath(t, path, v), Segs(path)) == Some(Some(v)))
       <==> !InnerEmpty(Segs(path))
  {
    var segs := Segs(path);
    if InnerEmpty(segs) {
      var i :| 1 <= i < |segs| - 1 && segs[i] == "";
      var front := segs[..i];
      var t := PutSegs(Nil, front, "");
      PutEffect(Nil, front, "", front);
      PutEffect(Nil, front, "", segs);
      assert Locate<()>(Nil, segs).Nil?;
      assert SwallowedAt(t, segs, i);
      PutThenResolve(t, path, "");
    } else {
      forall t, v ensures ValueAt(PutPath(t, path, v), segs) == Some(Some(v)) {
        PutThenResolve(t, path, v);
      }
    }
  }
}
