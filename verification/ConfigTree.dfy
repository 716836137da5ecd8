/**
 The item tree behind the ZPL configuration code: a first-child/next-sibling tree, the
 "last node at a depth" rule by which the loader attaches items, and paths into the tree.
 The type parameter labels each item with the heap node that holds it, or with ().
 */
module ConfigTree {
  import opened Options

  /** A list of siblings: the first item, the items below it, and the siblings after it. */
  datatype Tree<+T> =
    | Nil
    | Item(id: T, name: string, value: Option<string>, kids: Tree<T>, next: Tree<T>)

  /** A named line of a ZPL file. */
  datatype Entry = Entry(level: nat, name: string, value: Option<string>)

  function Leaf<T>(id: T, name: string, value: Option<string>): Tree<T> {
    Item(id, name, value, Nil, Nil)
  }

  /** Forgets which heap node holds each item. */
  function Erase<T>(t: Tree<T>): Tree<()> {
    match t
    case Nil => Nil
    case Item(_, name, value, kids, next) => Item((), name, value, Erase(kids), Erase(next))
  }

  /** Number of items in the tree. */
  function Size<T>(t: Tree<T>): nat {
    match t
    case Nil => 0
    case Item(_, _, _, kids, next) => 1 + Size(kids) + Size(next)
  }

  // ----- attaching at a depth

  /** Places u after the last sibling of t. */
  function Append<T>(t: Tree<T>, u: Tree<T>): Tree<T> {
    match t
    case Nil => u
    case Item(_, _, _, _, next) => t.(next := Append(next, u))
  }

  /** The number of levels met when always taking the last sibling. */
  function RightDepth<T>(t: Tree<T>): nat {
    match t
    case Nil => 0
    case Item(_, _, _, kids, Nil) => 1 + RightDepth(kids)
    case Item(_, _, _, _, next) => RightDepth(next)
  }

  /** Attaches x below the last node at the given depth, 0 being the owner of t. */
  function AttachAt<T>(t: Tree<T>, level: nat, x: Tree<T>): Tree<T>
    requires level <= RightDepth(t)
    decreases t
  {
    if level == 0 then Append(t, x)
    else match t
      case Item(_, _, _, kids, Nil) => t.(kids := AttachAt(kids, level - 1, x))
      case Item(_, _, _, _, next) => t.(next := AttachAt(next, level, x))
  }

  /** The named lines of the tree in file order; the first siblings are at level d. */
  function Preorder<T>(t: Tree<T>, d: nat): seq<Entry> {
    match t
    case Nil => []
    case Item(_, name, value, kids, next) =>
      [Entry(d, name, value)] + Preorder(kids, d + 1) + Preorder(next, d)
  }

  /** What the loader does with the named lines it meets, starting from tree t. */
  function BuildFrom(t: Tree<()>, es: seq<Entry>): Option<Tree<()>>
    decreases |es|
  {
    if es == [] then Some(t)
    else if es[0].level > RightDepth(t) then None
    else BuildFrom(AttachAt(t, es[0].level, Leaf((), es[0].name, es[0].value)), es[1..])
  }

  function Build(es: seq<Entry>): Option<Tree<()>> {
    BuildFrom(Nil, es)
  }

  /** Each line is at most one level below the line before it; the first is at most at depth. */
  predicate WellNested(depth: nat, es: seq<Entry>) {
    && (es != [] ==> es[0].level <= depth)
    && (forall i :: 1 <= i < |es| ==> es[i].level <= es[i - 1].level + 1)
  }

  lemma {:induction false} AppendPreorder<T>(t: Tree<T>, u: Tree<T>, d: nat)
    ensures Preorder(Append(t, u), d) == Preorder(t, d) + Preorder(u, d)
  {
    match t
    case Nil =>
    case Item(_, _, _, kids, next) => AppendPreorder(next, u, d);
  }

  lemma {:induction false} AppendRightDepth<T>(t: Tree<T>, x: Tree<T>)
    requires x.Item? && x.next.Nil? && x.kids.Nil?
    ensures RightDepth(Append(t, x)) == 1
  {
    match t
    case Nil =>
    case Item(_, _, _, _, next) => AppendRightDepth(next, x);
  }

  /** Attaching a leaf adds exactly one line, at the end, and makes it the last node. */
  lemma {:induction false} AttachAddsLastLine<T>(t: Tree<T>, level: nat, x: Tree<T>, d: nat)
    requires level <= RightDepth(t)
    requires x.Item? && x.next.Nil? && x.kids.Nil?
    ensures Preorder(AttachAt(t, level, x), d) == Preorder(t, d) + [Entry(d + level, x.name, x.value)]
    ensures RightDepth(AttachAt(t, level, x)) == level + 1
    decreases t
  {
    if level == 0 {
      AppendPreorder(t, x, d);
      AppendRightDepth(t, x);
    } else {
      match t
      case Item(_, _, _, kids, Nil) =>
        AttachAddsLastLine(kids, level - 1, x, d + 1);
      case Item(_, _, _, _, next) =>
        AttachAddsLastLine(next, level, x, d);
        AttachKeepsItem(next, level, x);
    }
  }

  lemma AttachKeepsItem<T>(t: Tree<T>, level: nat, x: Tree<T>)
    requires level <= RightDepth(t) && t.Item?
    ensures AttachAt(t, level, x).Item?
  {
  }

  /** Loading accepts exactly the well nested files, and the tree then has the file's lines. */
  lemma {:induction false} BuildFromExact(t: Tree<()>, es: seq<Entry>)
    ensures BuildFrom(t, es).Some? <==> WellNested(RightDepth(t), es)
    ensures BuildFrom(t, es).Some? ==> Preorder(BuildFrom(t, es).value, 0) == Preorder(t, 0) + es
    decreases |es|
  {
    if es != [] && es[0].level <= RightDepth(t) {
      var t' := AttachAt(t, es[0].level, Leaf((), es[0].name, es[0].value));
      AttachAddsLastLine(t, es[0].level, Leaf((), es[0].name, es[0].value), 0);
      BuildFromExact(t', es[1..]);
      assert es == [es[0]] + es[1..];
      assert WellNested(RightDepth(t'), es[1..]) ==> WellNested(RightDepth(t), es) by {
        if WellNested(RightDepth(t'), es[1..]) {
          forall i | 1 <= i < |es|
            ensures es[i].level <= es[i - 1].level + 1
          {
            assert es[i] == es[1..][i - 1];
          }
        }
      }
    }
  }

  lemma BuildExact(es: seq<Entry>)
    ensures Build(es).Some? <==> WellNested(0, es)
    ensures Build(es).Some? ==> Preorder(Build(es).value, 0) == es
  {
    BuildFromExact(Nil, es);
  }

  /** The lines that follow a subtree printed at level d start above level d, or there are none. */
  predicate Outside(es: seq<Entry>, d: nat) {
    es == [] || es[0].level < d
  }

  lemma PreorderUnfold<T>(t: Tree<T>, d: nat, r: seq<Entry>)
    requires t.Item?
    ensures Preorder(t, d) + r
         == [Entry(d, t.name, t.value)] + (Preorder(t.kids, d + 1) + (Preorder(t.next, d) + r))
  {
  }

  lemma {:induction false} PreorderInjectiveTail<T, U>(t: Tree<T>, u: Tree<U>, d: nat, r: seq<Entry>, s: seq<Entry>)
    requires Outside(r, d) && Outside(s, d)
    requires Preorder(t, d) + r == Preorder(u, d) + s
    ensures Erase(t) == Erase(u) && r == s
    decreases t
  {
    assert u.Nil? ==> Preorder(u, d) + s == s;
    if t.Item? {
      PreorderUnfold(t, d, r);
      if u.Item? {
        PreorderUnfold(u, d, s);
        var tr, us := Preorder(t.next, d) + r, Preorder(u.next, d) + s;
        var tt, uu := Preorder(t.kids, d + 1) + tr, Preorder(u.kids, d + 1) + us;
        assert tt == ([Entry(d, t.name, t.value)] + tt)[1..] == uu;
        PreorderInjectiveTail(t.kids, u.kids, d + 1, tr, us);
        PreorderInjectiveTail(t.next, u.next, d, r, s);
      }
    } else {
      assert Preorder(t, d) + r == r;
      if u.Item? {
        PreorderUnfold(u, d, s);
      }
    }
  }

  /** A tree is determined by its lines. */
  lemma PreorderInjective<T, U>(t: Tree<T>, u: Tree<U>)
    requires Preorder(t, 0) == Preorder(u, 0)
    ensures Erase(t) == Erase(u)
  {
    assert Preorder(t, 0) + [] == Preorder(u, 0) + [];
    PreorderInjectiveTail(t, u, 0, [], []);
  }

  lemma {:induction false} PreorderNested<T>(t: Tree<T>, d: nat)
    ensures WellNested(d, Preorder(t, d))
    ensures forall i :: 0 <= i < |Preorder(t, d)| ==> Preorder(t, d)[i].level >= d
  {
    match t
    case Nil =>
    case Item(_, name, value, kids, next) =>
      PreorderNested(kids, d + 1);
      PreorderNested(next, d);
  }

  lemma {:induction false} EraseIdempotent(t: Tree<()>)
    ensures Erase(t) == t
  {
    match t
    case Nil =>
    case Item(id, _, _, kids, next) =>
      assert id == ();
      EraseIdempotent(kids);
      EraseIdempotent(next);
  }

  /** Rebuilding a tree from its own lines gives it back, whatever its shape. */
  lemma BuildInverts<T>(t: Tree<T>)
    ensures Build(Preorder(t, 0)) == Some(Erase(t))
  {
    PreorderNested(t, 0);
    BuildExact(Preorder(t, 0));
    var u := Build(Preorder(t, 0)).value;
    PreorderInjective(u, t);
    EraseIdempotent(u);
  }

  lemma {:induction false} EraseAppend<T>(t: Tree<T>, u: Tree<T>)
    ensures Erase(Append(t, u)) == Append(Erase(t), Erase(u))
  {
    match t
    case Nil =>
    case Item(_, _, _, _, next) => EraseAppend(next, u);
  }

  lemma {:induction false} EraseAttach<T>(t: Tree<T>, level: nat, x: Tree<T>)
    requires level <= RightDepth(t)
    ensures RightDepth(Erase(t)) == RightDepth(t)
    ensures Erase(AttachAt(t, level, x)) == AttachAt(Erase(t), level, Erase(x))
    decreases t
  {
    EraseDepth(t);
    if level == 0 {
      EraseAppend(t, x);
    } else {
      match t
      case Item(_, _, _, kids, Nil) => EraseAttach(kids, level - 1, x);
      case Item(_, _, _, _, next) => EraseAttach(next, level, x);
    }
  }

  lemma {:induction false} EraseDepth<T>(t: Tree<T>)
    ensures RightDepth(Erase(t)) == RightDepth(t)
  {
    match t
    case Nil =>
    case Item(_, _, _, kids, Nil) => EraseDepth(kids);
    case Item(_, _, _, _, next) => EraseDepth(next);
  }
}
