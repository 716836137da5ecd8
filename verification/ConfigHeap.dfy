/**
 The configuration tree as the C code keeps it: items linked through child, next and parent
 pointers that are changed in place. Each method is proved against a function of ConfigTree,
 ConfigPaths or ConfigText.
 */
module ConfigHeap {
  import opened Options
  import opened ConfigTree
  import ConfigPaths
  import opened ConfigText
  import opened Strings

  class Node {
    var name: string
    var value: Option<string>
    var lineno: nat
    var child: Node?
    var next: Node?
    var parent: Node?

    constructor (name: string, parent: Node?)
      ensures this.name == name && this.parent == parent
      ensures value == None && lineno == 0 && child == null && next == null
    {
      this.name, this.parent := name, parent;
      value, lineno, child, next := None, 0, null, null;
    }
  }

  ghost function Nodes(t: Tree<Node>): set<Node> {
    match t
    case Nil => {}
    case Item(id, _, _, kids, next) => {id} + Nodes(kids) + Nodes(next)
  }

  lemma {:induction false} NodesAllocated(t: Tree<Node>)
    ensures forall n :: n in Nodes(t) ==> allocated(n)
  {
    if t.Item? { NodesAllocated(t.kids); NodesAllocated(t.next); }
  }

  /** A linked tree stays linked while its nodes do not change. */
  twostate lemma {:induction false} LinkedFrame(t: Tree<Node>, new p: Node?, new par: Node?)
    requires old(allocated(p)) && old(allocated(par)) && old(Linked(t, p, par))
    requires forall n :: n in Nodes(t) ==> old(allocated(n)) && unchanged(n)
    ensures Linked(t, p, par)
  {
    if t.Item? {
      assert t.id in Nodes(t);
      LinkedFrame(t.kids, t.id.child, t.id);
      LinkedFrame(t.next, t.id.next, par);
    }
  }

  function First(t: Tree<Node>): Node? {
    if t.Nil? then null else t.id
  }

  /** The sibling list that starts at p, below par, holds exactly the tree t. */
  ghost predicate Linked(t: Tree<Node>, p: Node?, par: Node?)
    reads Nodes(t)
  {
    p == First(t) &&
    match t
    case Nil => true
    case Item(id, name, value, kids, next) =>
      && id.name == name && id.value == value && id.parent == par
      && id !in Nodes(kids) && id !in Nodes(next) && Nodes(kids) !! Nodes(next)
      && Linked(kids, id.child, id)
      && Linked(next, id.next, par)
  }

  // ----- positions among siblings

  function Width(t: Tree<Node>): nat {
    if t.Nil? then 0 else 1 + Width(t.next)
  }

  function Drop(t: Tree<Node>, i: nat): (r: Tree<Node>)
    requires i <= Width(t)
    ensures Width(r) == Width(t) - i
    ensures Nodes(r) <= Nodes(t)
  {
    if i == 0 then t else Drop(t.next, i - 1)
  }

  /** The item at a path is found below the first sibling with each name. */
  lemma {:induction false} LocateFirst(t: Tree<Node>, segs: seq<string>, i: nat)
    requires segs != [] && i <= Width(t) && forall k: nat :: k < i ==> Drop(t, k).name != segs[0]
    requires i < Width(t) ==> Drop(t, i).name == segs[0]
    ensures ConfigPaths.Locate(t, segs) ==
      if i == Width(t) then Nil
      else if |segs| == 1 then Drop(t, i)
      else ConfigPaths.Locate(Drop(t, i).kids, segs[1..])
    decreases i
  {
    if i > 0 {
      assert Drop(t, 0).name != segs[0];
      forall k: nat | k < i - 1 ensures Drop(t.next, k).name != segs[0] { assert Drop(t, k + 1).name != segs[0]; }
      LocateFirst(t.next, segs, i - 1);
    }
  }

  /** The i-th sibling gets another name and value and other items below it. */
  function Update(t: Tree<Node>, i: nat, name: string, value: Option<string>, kids: Tree<Node>): Tree<Node>
    requires i < Width(t)
  {
    if i == 0 then t.(name := name, value := value, kids := kids)
    else t.(next := Update(t.next, i - 1, name, value, kids))
  }

  lemma {:induction false} DropNext(t: Tree<Node>, i: nat)
    requires i < Width(t)
    ensures Drop(t, i).Item? && Drop(t, i + 1) == Drop(t, i).next
  {
    if i > 0 { DropNext(t.next, i - 1); }
  }

  /** Changing one sibling in the heap updates the tree at that place and nowhere else. */
  twostate lemma UpdateLinked(t: Tree<Node>, new p: Node?, new par: Node?, new i: nat, new c: Node,
                               new kids: Tree<Node>)
    requires old(allocated(p)) && old(allocated(par)) && old(allocated(c))
    requires i < Width(t) && Drop(t, i).Item? && c == Drop(t, i).id
    requires old(Linked(t, p, par))
    requires c.next == old(c.next) && c.parent == old(c.parent)
    requires Linked(kids, c.child, c) && c !in Nodes(kids)
    requires Nodes(kids) !! Nodes(t) - Nodes(Drop(t, i).kids)
    requires forall n :: n in Nodes(t) && n != c && n !in Nodes(Drop(t, i).kids) ==> old(allocated(n)) && unchanged(n)
    ensures Linked(Update(t, i, c.name, c.value, kids), p, par)
    ensures Nodes(Update(t, i, c.name, c.value, kids)) <= Nodes(t) + Nodes(kids)
  {
    if i > 0 {
      DropKeepsApart(t.next, i - 1, t.id, t.kids);
      UpdateLinked(t.next, t.next.id, par, i - 1, c, kids);
    }
  }

  lemma {:induction false} DropKeepsApart(t: Tree<Node>, i: nat, id: Node, kids: Tree<Node>)
    requires i < Width(t) && id !in Nodes(t) && Nodes(kids) !! Nodes(t)
    ensures Drop(t, i).id != id && Nodes(Drop(t, i).kids) !! Nodes(kids) && Drop(t, i).id !in Nodes(kids)
    ensures id !in Nodes(Drop(t, i).kids)
    ensures Nodes(Drop(t, i).kids) + {Drop(t, i).id} <= Nodes(t)
  {
    if i > 0 { DropKeepsApart(t.next, i - 1, id, kids); }
  }

  // ----- zz_config_new

  /** Linking a fresh item behind the last sibling. */
  twostate lemma AppendLinked(t: Tree<Node>, new p: Node?, new par: Node?, new last: Node, new item: Node)
    requires old(allocated(p)) && old(allocated(par)) && old(allocated(last))
    requires old(Linked(t, p, par)) && t.Item? && last == Drop(t, Width(t) - 1).id
    requires item !in Nodes(t) && item.child == null && item.next == null && item.parent == par
    requires last.next == item && last.name == old(last.name) && last.value == old(last.value)
      && last.child == old(last.child) && last.parent == old(last.parent)
    requires forall n :: n in Nodes(t) && n != last ==> old(allocated(n)) && unchanged(n)
    ensures Linked(Append(t, Leaf(item, item.name, item.value)), p, par)
  {
    AppendNodes(t, Leaf(item, item.name, item.value));
    if t.next.Item? {
      LastIn(t.next);
      AppendLinked(t.next, t.next.id, par, last, item);
      AppendNodes(t.next, Leaf(item, item.name, item.value));
    }
  }

  lemma {:induction false} LastIn(t: Tree<Node>)
    requires t.Item?
    ensures Drop(t, Width(t) - 1).Item? && Drop(t, Width(t) - 1).id in Nodes(t)
  {
    if t.next.Item? { LastIn(t.next); }
  }

  lemma {:induction false} AppendNodes(t: Tree<Node>, u: Tree<Node>)
    ensures Nodes(Append(t, u)) == Nodes(t) + Nodes(u)
  {
    match t
    case Nil =>
    case Item(_, _, _, _, next) => AppendNodes(next, u);
  }

  lemma {:induction false} AppendLast(t: Tree<Node>, x: Tree<Node>)
    requires x.Item? && x.next.Nil?
    ensures Width(Append(t, x)) == Width(t) + 1 && Drop(Append(t, x), Width(t)) == x
  {
    if t.Item? { AppendLast(t.next, x); }
  }

  method New(name: string, parent: Node?, ghost sibs: Tree<Node>) returns (self: Node)
    requires parent != null ==> parent !in Nodes(sibs) && Linked(sibs, parent.child, parent)
    modifies if parent == null then {} else {parent} + Nodes(sibs)
    ensures fresh(self) && self.name == name && self.value == None && self.parent == parent
    ensures self.lineno == 0 && self.child == null && self.next == null
    ensures parent != null ==>
      && Linked(Append(sibs, Leaf(self, name, None)), parent.child, parent)
      && parent.name == old(parent.name) && parent.value == old(parent.value)
      && parent.next == old(parent.next) && parent.parent == old(parent.parent)
      && parent.lineno == old(parent.lineno)
  {
    NodesAllocated(sibs);
    self := new Node(name, parent);
    if parent != null {
      if parent.child != null {
        var last := parent.child;
        ghost var i := 0;
        while last.next != null
          invariant i < Width(sibs) && last == Drop(sibs, i).id
          modifies {}
          invariant Linked(Drop(sibs, i), last, parent)
          decreases Width(sibs) - i
        {
          DropNext(sibs, i);
          last := last.next;
          i := i + 1;
        }
        DropNext(sibs, i);
        LastIn(sibs);
        assert last in Nodes(sibs);
        label linking:
        last.next := self;
        AppendLinked@linking(sibs, parent.child, parent, last, self);
      } else {
        parent.child := self;
      }
    }
  }

  // ----- zz_config_locate and zz_config_resolve

  /** What is located is linked in the heap: its fields are those of the tree. */
  lemma {:induction false} LocatedLinked(t: Tree<Node>, p: Node?, par: Node?, segs: seq<string>)
    requires segs != [] && Linked(t, p, par)
    ensures var r := ConfigPaths.Locate(t, segs); r.Item? ==> r.id.name == r.name && r.id.value == r.value
    decreases |segs|, t
  {
    match t
    case Nil =>
    case Item(id, name, _, kids, next) =>
      if name != segs[0] { LocatedLinked(next, id.next, par, segs); }
      else if |segs| > 1 { LocatedLinked(kids, id.child, id, segs[1..]); }
  }

  /** The loop of locate over the children: the first one with a name, and what follows it. */
  method FindChild(self: Node, seg: string, ghost segs: seq<string>, ghost kids: Tree<Node>)
    returns (child: Node?, ghost rest: Tree<Node>)
    requires Linked(kids, self.child, self) && segs != [] && segs[0] == seg
    ensures child == First(rest) && (rest.Item? ==> Linked(rest.kids, rest.id.child, rest.id))
    ensures ConfigPaths.Locate(kids, segs)
         == if rest.Nil? || |segs| == 1 then rest else ConfigPaths.Locate(rest.kids, segs[1..])
  {
    rest := kids;
    child := self.child;
    while child != null && child.name != seg
      invariant Linked(rest, child, self)
      invariant ConfigPaths.Locate(kids, segs) == ConfigPaths.Locate(rest, segs)
      decreases rest
    {
      rest := rest.next;
      child := child.next;
    }
  }

  method Locate(self: Node, path: string, ghost kids: Tree<Node>) returns (r: Node?)
    requires Linked(kids, self.child, self)
    ensures r == First(ConfigPaths.Locate(kids, ConfigPaths.Segs(path)))
    decreases |ConfigPaths.Strip(path)|, 1
  {
    var p := path;
    if |p| > 0 && p[0] == '/' { p := p[1..]; }
    ConfigPaths.SegsShape(path);
    r := LocateSegment(self, p, ConfigPaths.SlashAt(p), ConfigPaths.Segs(path), kids);
  }

  /** The rest of locate, once the end of the first segment is known. */
  method LocateSegment(self: Node, p: string, slash: nat, ghost segs: seq<string>, ghost kids: Tree<Node>)
    returns (r: Node?)
    requires Linked(kids, self.child, self) && slash <= |p| && segs != [] && segs[0] == p[..slash]
    requires slash == |p| ==> |segs| == 1
    requires slash < |p| ==>
      |segs| > 1 && segs[1..] == ConfigPaths.Segs(p[slash..]) && |ConfigPaths.Strip(p[slash..])| < |p|
    ensures r == First(ConfigPaths.Locate(kids, segs))
    decreases |p|, 0
  {
    var child, rest := FindChild(self, p[..slash], segs, kids);
    if child == null { return null; }
    if slash < |p| {
      r := Locate(child, p[slash..], rest.kids);
    } else {
      r := child;
    }
  }

  method Resolve(self: Node, path: string, default: Option<string>, ghost kids: Tree<Node>)
    returns (value: Option<string>)
    requires Linked(kids, self.child, self)
    ensures value == match ConfigPaths.ValueAt(kids, ConfigPaths.Segs(path))
                     case None => default
                     case Some(v) => v
  {
    NodesAllocated(kids);
    var item := Locate(self, path, kids);
    LocatedLinked(kids, self.child, self, ConfigPaths.Segs(path));
    return if item != null then item.value else default;
  }

  // ----- zz_config_put

  /** Every item of t is held by the same heap node in u; u may have more items. */
  ghost predicate SameNodes(t: Tree<Node>, u: Tree<Node>) {
    t.Nil? || (u.Item? && u.id == t.id && SameNodes(t.kids, u.kids) && SameNodes(t.next, u.next))
  }

  lemma {:induction false} SameNodesReflexive(t: Tree<Node>)
    ensures SameNodes(t, t)
  {
    if t.Item? { SameNodesReflexive(t.kids); SameNodesReflexive(t.next); }
  }

  lemma {:induction false} SameNodesUpdate(t: Tree<Node>, i: nat, name: string, value: Option<string>,
                                           kids: Tree<Node>)
    requires i < Width(t) && Drop(t, i).Item? && SameNodes(Drop(t, i).kids, kids)
    ensures SameNodes(t, Update(t, i, name, value, kids))
  {
    SameNodesReflexive(t.kids);
    SameNodesReflexive(t.next);
    if i > 0 { SameNodesUpdate(t.next, i - 1, name, value, kids); }
  }

  /** The first sibling with the segment's name is the one that a put goes on with. */
  lemma {:induction false} PutAtSibling(t: Tree<Node>, i: nat, seg: string, rest: string, v: string,
                                        value: Option<string>, kids: Tree<Node>)
    requires rest != "" ==> rest[0] == '/'
    requires i < Width(t) && Drop(t, i).Item? && Drop(t, i).name == seg
    requires forall j :: 0 <= j < i ==> Drop(t, j).Item? && Drop(t, j).name != seg
    requires if rest == "" then value == Some(v) && kids == Drop(t, i).kids
             else value == Drop(t, i).value && Erase(kids) == ConfigPaths.PutPath(Erase(Drop(t, i).kids), rest[1..], v)
    ensures Erase(Update(t, i, seg, value, kids)) == ConfigPaths.PutSibling(Erase(t), seg, rest, v)
  {
    if i > 0 {
      assert Drop(t, 0) == t;
      forall j | 0 <= j < i - 1 ensures Drop(t.next, j).Item? && Drop(t.next, j).name != seg {
        assert Drop(t, j + 1) == Drop(t.next, j);
      }
      PutAtSibling(t.next, i - 1, seg, rest, v, value, kids);
    }
  }

  /** If no sibling has the segment's name, a put goes on with a new last sibling. */
  lemma {:induction false} PutBehind(t: Tree<Node>, item: Tree<Node>, seg: string, rest: string, v: string,
                                     value: Option<string>, kids: Tree<Node>)
    requires rest != "" ==> rest[0] == '/'
    requires item.Item? && item.next.Nil?
    requires forall j :: 0 <= j < Width(t) ==> Drop(t, j).Item? && Drop(t, j).name != seg
    requires if rest == "" then value == Some(v) && kids == Nil
             else value == None && Erase(kids) == ConfigPaths.PutPath(Nil, rest, v)
    ensures Width(t) < Width(Append(t, item))
    ensures SameNodes(t, Update(Append(t, item), Width(t), seg, value, kids))
    ensures Nodes(Update(Append(t, item), Width(t), seg, value, kids)) == Nodes(t) + {item.id} + Nodes(kids)
    ensures Erase(Update(Append(t, item), Width(t), seg, value, kids)) == ConfigPaths.PutSibling(Erase(t), seg, rest, v)
  {
    if t.Item? {
      assert Drop(t, 0) == t;
      forall j | 0 <= j < Width(t.next) ensures Drop(t.next, j).Item? && Drop(t.next, j).name != seg {
        assert Drop(t, j + 1) == Drop(t.next, j);
      }
      PutBehind(t.next, item, seg, rest, v, value, kids);
      SameNodesReflexive(t.kids);
    }
  }

  method Put(self: Node, path: string, value: string, ghost kids: Tree<Node>) returns (ghost kids': Tree<Node>)
    requires self !in Nodes(kids) && Linked(kids, self.child, self)
    modifies self, Nodes(kids)
    ensures self !in Nodes(kids') && Linked(kids', self.child, self)
    ensures Erase(kids') == ConfigPaths.PutPath(Erase(kids), path, value)
    ensures SameNodes(kids, kids')
    ensures forall n :: n in Nodes(kids') ==> n in Nodes(kids) || fresh(n)
    ensures self.name == old(self.name) && self.value == old(self.value) && self.lineno == old(self.lineno)
    ensures self.next == old(self.next) && self.parent == old(self.parent)
    decreases |ConfigPaths.Strip(path)|, 3
  {
    var p := path;
    if |p| > 0 && p[0] == '/' { p := p[1..]; }
    var slash := ConfigPaths.SlashAt(p);
    ghost var seg, i: nat := p[..slash], 0;
    var child := self.child;
    NodesAllocated(kids);
    while child != null
      invariant unchanged(self) && unchanged(Nodes(kids))
      invariant i <= Width(kids) && Linked(Drop(kids, i), child, self)
      invariant forall j :: 0 <= j < i ==> Drop(kids, j).Item? && Drop(kids, j).name != seg
      decreases Width(kids) - i
    {
      DropNext(kids, i);
      if child.name == p[..slash] {
        kids' := PutFound(self, p, slash, value, kids, child, i);
        return;
      }
      child := child.next;
      i := i + 1;
    }
    kids' := PutMissing(self, p, slash, value, kids);
  }

  /** The branch of zz_config_put for a sibling that has the name of the segment. */
  method PutFound(self: Node, p: string, slash: nat, value: string, ghost kids: Tree<Node>, child: Node, ghost i: nat)
    returns (ghost kids': Tree<Node>)
    requires self !in Nodes(kids) && Linked(kids, self.child, self)
    requires slash <= |p| && (slash < |p| ==> p[slash] == '/')
    requires i < Width(kids) && Drop(kids, i).Item? && child == Drop(kids, i).id && child.name == p[..slash]
    requires forall j :: 0 <= j < i ==> Drop(kids, j).Item? && Drop(kids, j).name != p[..slash]
    modifies Nodes(kids)
    ensures self !in Nodes(kids') && Linked(kids', self.child, self)
    ensures Erase(kids') == ConfigPaths.PutSibling(Erase(kids), p[..slash], p[slash..], value)
    ensures SameNodes(kids, kids')
    ensures forall n :: n in Nodes(kids') ==> n in Nodes(kids) || fresh(n)
    decreases |p|, 0
  {
    NodesAllocated(kids);
    DropInside(kids, i, self.child, self);
    ghost var below := Drop(kids, i).kids;
    label found:
    if slash < |p| {
      below := Put(child, p[slash + 1..], value, Drop(kids, i).kids);
    } else {
      child.value := Some(value);
      SameNodesReflexive(below);
    }
    UpdateLinked@found(kids, self.child, self, i, child, below);
    kids' := Update(kids, i, child.name, child.value, below);
    PutAtSibling(kids, i, p[..slash], p[slash..], value, child.value, below);
    SameNodesUpdate(kids, i, child.name, child.value, below);
  }

  /** A fresh item for the segment: it takes the value, or the rest of the path goes on below it. */
  method FillNew(child: Node, p: string, slash: nat, value: string) returns (ghost below: Tree<Node>)
    requires slash <= |p| && (slash < |p| ==> p[slash] == '/')
    requires child.child == null && child.name == p && child.value == None
    modifies child
    ensures child.name == p[..slash] && child.next == old(child.next) && child.parent == old(child.parent)
    ensures Linked(below, child.child, child) && child !in Nodes(below)
    ensures forall n :: n in Nodes(below) ==> fresh(n)
    ensures if slash == |p| then child.value == Some(value) && below == Nil
            else child.value == None && Erase(below) == ConfigPaths.PutPath(Nil, p[slash..], value)
    decreases |p|, 0
  {
    child.name := child.name[..slash];
    below := Nil;
    if slash < |p| {
      below := Put(child, p[slash..], value, Nil);
    } else {
      child.value := Some(value);
    }
  }

  /** The end of zz_config_put: no sibling has the name of the segment, so one is created. */
  method PutMissing(self: Node, p: string, slash: nat, value: string, ghost kids: Tree<Node>)
    returns (ghost kids': Tree<Node>)
    requires self !in Nodes(kids) && Linked(kids, self.child, self)
    requires slash <= |p| && (slash < |p| ==> p[slash] == '/')
    requires forall j :: 0 <= j < Width(kids) ==> Drop(kids, j).Item? && Drop(kids, j).name != p[..slash]
    modifies self, Nodes(kids)
    ensures self !in Nodes(kids') && Linked(kids', self.child, self)
    ensures Erase(kids') == ConfigPaths.PutSibling(Erase(kids), p[..slash], p[slash..], value)
    ensures SameNodes(kids, kids')
    ensures forall n :: n in Nodes(kids') ==> n in Nodes(kids) || fresh(n)
    ensures self.name == old(self.name) && self.value == old(self.value) && self.lineno == old(self.lineno)
    ensures self.next == old(self.next) && self.parent == old(self.parent)
    decreases |p|, 2
  {
    var child;
    ghost var below;
    child, below, kids' := AddSibling(self, p, slash, value, kids);
    PutBehind(kids, Leaf<Node>(child, p, None), p[..slash], p[slash..], value, child.value, below);
  }

  /** The item that is created and filled, linked behind the last sibling. */
  method AddSibling(self: Node, p: string, slash: nat, value: string, ghost kids: Tree<Node>)
    returns (child: Node, ghost below: Tree<Node>, ghost kids': Tree<Node>)
    requires self !in Nodes(kids) && Linked(kids, self.child, self)
    requires slash <= |p| && (slash < |p| ==> p[slash] == '/')
    modifies self, Nodes(kids)
    ensures fresh(child) && forall n :: n in Nodes(below) ==> fresh(n)
    ensures if slash == |p| then child.value == Some(value) && below == Nil
            else child.value == None && Erase(below) == ConfigPaths.PutPath(Nil, p[slash..], value)
    ensures Width(Append(kids, Leaf<Node>(child, p, None))) == Width(kids) + 1
    ensures kids' == Update(Append(kids, Leaf<Node>(child, p, None)), Width(kids), p[..slash], child.value, below)
    ensures Linked(kids', self.child, self)
    ensures self.name == old(self.name) && self.value == old(self.value) && self.lineno == old(self.lineno)
    ensures self.next == old(self.next) && self.parent == old(self.parent)
    decreases |p|, 1
  {
    NodesAllocated(kids);
    child := New(p, self, kids);
    ghost var item: Tree<Node> := Leaf<Node>(child, p, None);
    ghost var grown: Tree<Node> := Append(kids, item);
    AppendNodes(kids, item);
    AppendLast(kids, item);
    label created:
    below := FillNew(child, p, slash, value);
    UpdateLinked@created(grown, self.child, self, Width(kids), child, below);
    kids' := Update(grown, Width(kids), p[..slash], child.value, below);
  }

  lemma {:induction false} DropInside(t: Tree<Node>, i: nat, p: Node?, par: Node?)
    requires i < Width(t) && Linked(t, p, par) && Drop(t, i).Item?
    ensures Drop(t, i).id in Nodes(t) && Nodes(Drop(t, i).kids) <= Nodes(t)
    ensures Drop(t, i).id !in Nodes(Drop(t, i).kids)
    ensures Linked(Drop(t, i), Drop(t, i).id, par)
  {
    if i > 0 { DropInside(t.next, i - 1, t.id.next, par); }
  }

  // ----- zz_config_at_depth

  /** The sibling list to which an item at this level is attached. */
  ghost function KidsAt(t: Tree<Node>, level: nat): Tree<Node>
    requires level <= RightDepth(t)
    decreases t
  {
    if level == 0 then t
    else match t
      case Item(_, _, _, kids, Nil) => KidsAt(kids, level - 1)
      case Item(_, _, _, _, next) => KidsAt(next, level)
  }

  /** The node that owns that list, when self owns t. */
  ghost function OwnerAt(self: Node, t: Tree<Node>, level: nat): Node
    requires level <= RightDepth(t)
    decreases t
  {
    if level == 0 then self
    else match t
      case Item(id, _, _, kids, Nil) => OwnerAt(id, kids, level - 1)
      case Item(_, _, _, _, next) => OwnerAt(self, next, level)
  }

  method AtDepth(self: Node, level: nat, ghost t: Tree<Node>) returns (r: Node?)
    requires self !in Nodes(t) && Linked(t, self.child, self)
    ensures r == null <==> level > RightDepth(t)
    ensures r != null ==>
      && r == OwnerAt(self, t, level) && Linked(KidsAt(t, level), r.child, r)
      && r !in Nodes(KidsAt(t, level)) && Nodes(KidsAt(t, level)) + {r} <= Nodes(t) + {self}
  {
    var cur: Node, left: nat := self, level;
    ghost var below: Tree<Node> := t;
    while left > 0
      invariant left <= level && level - left <= RightDepth(t)
      invariant RightDepth(below) == RightDepth(t) - (level - left)
      invariant cur !in Nodes(below) && Linked(below, cur.child, cur)
      invariant Nodes(below) + {cur} <= Nodes(t) + {self}
      invariant level <= RightDepth(t) ==>
        OwnerAt(self, t, level) == OwnerAt(cur, below, left) && KidsAt(t, level) == KidsAt(below, left)
    {
      if cur.child == null { return null; }
      ghost var par, sibs := cur, below;
      cur := cur.child;
      while cur.next != null
        invariant sibs.Item? && Linked(sibs, cur, par)
        invariant RightDepth(sibs) == RightDepth(below) && Nodes(sibs) <= Nodes(below)
        invariant level <= RightDepth(t) ==>
          OwnerAt(par, below, left) == OwnerAt(par, sibs, left) && KidsAt(below, left) == KidsAt(sibs, left)
        decreases sibs
      {
        sibs := sibs.next;
        cur := cur.next;
      }
      below := sibs.kids;
      left := left - 1;
    }
    return cur;
  }

  // ----- zz_config_load

  lemma {:induction false} OwnerBelowLast(self: Node, t: Tree<Node>, level: nat)
    requires 0 < level <= RightDepth(t)
    ensures var w := Width(t) - 1;
      && w >= 0 && Drop(t, w).Item? && level - 1 <= RightDepth(Drop(t, w).kids)
      && OwnerAt(self, t, level) == OwnerAt(Drop(t, w).id, Drop(t, w).kids, level - 1)
      && KidsAt(t, level) == KidsAt(Drop(t, w).kids, level - 1)
    decreases t
  {
    if t.next.Item? { OwnerBelowLast(self, t.next, level); }
  }

  lemma {:induction false} AttachAsUpdate(t: Tree<Node>, level: nat, x: Tree<Node>)
    requires 0 < level <= RightDepth(t)
    ensures var w := Width(t) - 1;
      && w >= 0 && Drop(t, w).Item? && level - 1 <= RightDepth(Drop(t, w).kids)
      && AttachAt(t, level, x)
         == Update(t, w, Drop(t, w).name, Drop(t, w).value, AttachAt(Drop(t, w).kids, level - 1, x))
    decreases t
  {
    if t.next.Item? { AttachAsUpdate(t.next, level, x); }
  }

  lemma {:induction false} AttachNodes(t: Tree<Node>, level: nat, x: Tree<Node>)
    requires level <= RightDepth(t)
    ensures Nodes(AttachAt(t, level, x)) == Nodes(t) + Nodes(x)
    decreases t
  {
    if level == 0 { AppendNodes(t, x); }
    else if t.next.Nil? { AttachNodes(t.kids, level - 1, x); }
    else { AttachNodes(t.next, level, x); }
  }

  lemma {:induction false} OwnerInside(self: Node, t: Tree<Node>, level: nat)
    requires level <= RightDepth(t)
    ensures level > 0 ==> OwnerAt(self, t, level) in Nodes(t)
    ensures level == 0 ==> OwnerAt(self, t, level) == self
    ensures Nodes(KidsAt(t, level)) <= Nodes(t)
    decreases t
  {
    if level > 0 {
      if t.next.Nil? { OwnerInside(t.id, t.kids, level - 1); } else { OwnerInside(self, t.next, level); }
    }
  }

  /** Relinking the list at one level of the last branch attaches the item in the whole tree. */
  twostate lemma AttachLinked(t: Tree<Node>, new self: Node, new level: nat, new x: Tree<Node>)
    requires old(allocated(self)) && self !in Nodes(t) && level <= RightDepth(t)
    requires old(Linked(t, self.child, self))
    requires self !in Nodes(x) && Nodes(x) !! Nodes(t)
    requires Linked(Append(KidsAt(t, level), x), OwnerAt(self, t, level).child, OwnerAt(self, t, level))
    requires forall n :: n in Nodes(t) && n != OwnerAt(self, t, level) && n !in Nodes(KidsAt(t, level))
               ==> old(allocated(n)) && unchanged(n)
    requires level > 0 ==> unchanged(self)
    requires old(allocated(OwnerAt(self, t, level)))
    requires unchanged(OwnerAt(self, t, level)`name) && unchanged(OwnerAt(self, t, level)`value)
      && unchanged(OwnerAt(self, t, level)`next) && unchanged(OwnerAt(self, t, level)`parent)
    ensures Linked(AttachAt(t, level, x), self.child, self)
    decreases level
  {
    if level > 0 {
      OwnerBelowLast(self, t, level);
      var c := Drop(t, Width(t) - 1);
      OwnerInside(c.id, c.kids, level - 1);
      DropInsideOld(t, self.child, self, Width(t) - 1);
      assert c.id in Nodes(t) && (level > 1 ==> c.id != OwnerAt(self, t, level)) && c.id !in Nodes(KidsAt(t, level));
      AttachLinked(c.kids, c.id, level - 1, x);
      BranchLinked(t, self, level, x, c);
    }
  }

  /** The step of that from the items below the last sibling c to the whole list. */
  twostate lemma BranchLinked(t: Tree<Node>, new self: Node, new level: nat, new x: Tree<Node>, new c: Tree<Node>)
    requires old(allocated(self)) && 0 < level <= RightDepth(t) && unchanged(self)
    requires old(Linked(t, self.child, self)) && Nodes(x) !! Nodes(t)
    requires Width(t) > 0 && c == Drop(t, Width(t) - 1) && c.Item? && level - 1 <= RightDepth(c.kids)
    requires old(allocated(c.id)) && unchanged(c.id`next) && unchanged(c.id`parent)
    requires unchanged(c.id`name) && unchanged(c.id`value)
    requires Linked(AttachAt(c.kids, level - 1, x), c.id.child, c.id)
    requires forall n :: n in Nodes(t) && n != c.id && n !in Nodes(c.kids) ==> old(allocated(n)) && unchanged(n)
    ensures Linked(AttachAt(t, level, x), self.child, self)
  {
    AttachAsUpdate(t, level, x);
    AttachNodes(c.kids, level - 1, x);
    DropInsideOld(t, self.child, self, Width(t) - 1);
    UpdateLinked(t, self.child, self, Width(t) - 1, c.id, AttachAt(c.kids, level - 1, x));
  }

  twostate lemma DropInsideOld(t: Tree<Node>, new p: Node?, new par: Node?, new i: nat)
    requires i < Width(t) && Drop(t, i).Item?
    requires old(allocated(p)) && old(allocated(par)) && old(Linked(t, p, par))
    ensures Drop(t, i).id in Nodes(t) && Nodes(Drop(t, i).kids) <= Nodes(t)
    ensures Drop(t, i).id !in Nodes(Drop(t, i).kids)
    ensures old(allocated(Drop(t, i).id))
    ensures old(Drop(t, i).id.name) == Drop(t, i).name && old(Drop(t, i).id.value) == Drop(t, i).value
    ensures old(Linked(Drop(t, i).kids, Drop(t, i).id.child, Drop(t, i).id))
    decreases i
  {
    if i > 0 { DropInsideOld(t.next, old(t.id.next), par, i - 1); }
  }

  /** What is still to come when t has been built and these chunks are left. */
  ghost function LoadRest(t: Tree<()>, chunks: seq<string>): Option<Tree<()>> {
    var es := Entries(chunks);
    if es.None? then None else BuildFrom(t, es.value)
  }

  lemma LoadStep(t: Tree<()>, chunks: seq<string>)
    requires chunks != []
    ensures var l := ParseLine(chunks[0]);
      LoadRest(t, chunks) ==
        if l.Bad? then None
        else if l.Blank? then LoadRest(t, chunks[1..])
        else if l.level > RightDepth(t) then None
        else LoadRest(AttachAt(t, l.level, Leaf((), l.name, Some(l.text))), chunks[1..])
  {
    var l, es := ParseLine(chunks[0]), Entries(chunks[1..]);
    if es.Some? {
      assert [] + es.value == es.value;
      if l.Named? {
        var e := Entry(l.level, l.name, Some(l.text));
        assert ([e] + es.value)[1..] == es.value;
      }
    }
  }

  /** Attaches a new item below the last node at the given level; null if there is none. */
  method Attach(self: Node, level: nat, name: string, value: string, ghost t: Tree<Node>)
    returns (item: Node?, ghost t': Tree<Node>)
    requires self !in Nodes(t) && Linked(t, self.child, self)
    modifies self, Nodes(t)
    ensures item == null <==> level > RightDepth(t)
    ensures self.lineno == old(self.lineno) && self.name == old(self.name) && self.value == old(self.value)
    ensures item == null ==> t' == t
    ensures item != null ==>
      && t' == AttachAt(t, level, Leaf<Node>(item, name, Some(value))) && Linked(t', self.child, self)
      && fresh(item) && self !in Nodes(t') && Nodes(t') == Nodes(t) + {item}
  {
    NodesAllocated(t);
    t' := t;
    var parent := AtDepth(self, level, t);
    if parent == null { return null, t; }
    ghost var below: Tree<Node> := KidsAt(t, level);
    OwnerInside(self, t, level);
    label attaching:
    item := NewValued(name, value, parent, below);
    ghost var y: Tree<Node> := Leaf<Node>(item, name, Some(value));
    AttachLinked@attaching(t, self, level, y);
    AttachNodes(t, level, y);
    t' := AttachAt(t, level, y);
  }

  /** A new item that has its value, linked as the last one of these siblings. */
  method NewValued(name: string, value: string, parent: Node, ghost sibs: Tree<Node>) returns (item: Node)
    requires parent !in Nodes(sibs) && Linked(sibs, parent.child, parent)
    modifies {parent} + Nodes(sibs)
    ensures fresh(item) && Linked(Append(sibs, Leaf<Node>(item, name, Some(value))), parent.child, parent)
    ensures item.child == null
    ensures parent.name == old(parent.name) && parent.value == old(parent.value)
    ensures parent.next == old(parent.next) && parent.parent == old(parent.parent)
    ensures parent.lineno == old(parent.lineno)
  {
    NodesAllocated(sibs);
    item := New(name, parent, sibs);
    ghost var x: Tree<Node> := Leaf<Node>(item, name, None);
    AppendNodes(sibs, x);
    AppendLast(sibs, x);
    AppendUpdate(sibs, x, Some(value));
    label linked:
    item.value := Some(value);
    UpdateLinked@linked(Append(sibs, x), parent.child, parent, Width(sibs), item, Nil);
  }

  lemma {:induction false} AppendUpdate(t: Tree<Node>, x: Tree<Node>, value: Option<string>)
    requires x.Item? && x.kids.Nil? && x.next.Nil?
    ensures Width(t) < Width(Append(t, x))
    ensures Update(Append(t, x), Width(t), x.name, value, Nil) == Append(t, x.(value := value))
  {
    if t.Item? { AppendUpdate(t.next, x, value); }
  }

  /** One round of the loop in zz_config_load, on the line read by fgets. */
  method LoadLine(root: Node, curLine: string, ghost t: Tree<Node>) returns (valid: bool, ghost t': Tree<Node>)
    requires root !in Nodes(t) && Linked(t, root.child, root)
    modifies root, Nodes(t)
    ensures root !in Nodes(t') && forall n :: n in Nodes(t') ==> n in Nodes(t) || fresh(n)
    ensures root.name == old(root.name) && root.value == old(root.value)
    ensures var l := ParseLine(curLine); valid <==> l.Blank? || (l.Named? && l.level <= RightDepth(t))
    ensures valid ==> var l := ParseLine(curLine);
      && Linked(t', root.child, root)
      && (l.Blank? ==> Erase(t') == Erase(t))
      && (l.Named? ==>
            l.level <= RightDepth(Erase(t)) &&
            Erase(t') == AttachAt(Erase(t), l.level, Leaf((), l.name, Some(l.text))))
      && root.lineno == old(root.lineno) + if l.level == 1 then 1 else 0
  {
    t' := t;
    NodesAllocated(t);
    var l := ScanLine(curLine);
    if l.Bad? { return false, t; }
    if l.level == 1 {
      root.lineno := root.lineno + 1;
    }
    valid := true;
    if l.Named? {
      var item;
      item, t' := Attach(root, l.level, l.name, l.text, t);
      valid := item != null;
      if valid { EraseAttach(t, l.level, Leaf<Node>(item, l.name, Some(l.text))); }
    }
  }

  /** The next line of a text that is not used up. */
  lemma NextChunk(rest: string)
    requires rest != ""
    ensures Chunks(rest) != [] && Chunks(rest)[0] == CString(rest[..ChunkLen(rest)])
    ensures Chunks(rest)[1..] == Chunks(rest[ChunkLen(rest)..])
  {
    assert Chunks(rest) == [CString(rest[..ChunkLen(rest)])] + Chunks(rest[ChunkLen(rest)..]);
  }

  /** A turn of the load loop keeps what the whole text gives, and counts the lines of level 1. */
  lemma LoadTurn(t: Tree<()>, t': Tree<()>, rest: string, l: Line, valid: bool)
    requires rest != "" && l == ParseLine(CString(rest[..ChunkLen(rest)]))
    requires valid <==> l.Blank? || (l.Named? && l.level <= RightDepth(t))
    requires valid && l.Blank? ==> t' == t
    requires valid && l.Named? ==> t' == AttachAt(t, l.level, Leaf((), l.name, Some(l.text)))
    ensures var after := Chunks(rest[ChunkLen(rest)..]);
      && LoadRest(t, Chunks(rest)) == (if valid then LoadRest(t', after) else None)
      && (valid ==> LevelOnes(Chunks(rest)) == (if l.level == 1 then 1 else 0) + LevelOnes(after))
  {
    NextChunk(rest);
    LoadStep(t, Chunks(rest));
  }

  /** One turn of the load loop, from the read of a line on. */
  method LoadNext(root: Node, rest: string, ghost t: Tree<Node>)
    returns (valid: bool, after: string, ghost t': Tree<Node>)
    requires rest != "" && root !in Nodes(t) && Linked(t, root.child, root)
    modifies root, Nodes(t)
    ensures |after| < |rest|
    ensures root !in Nodes(t') && forall n :: n in Nodes(t') ==> n in Nodes(t) || fresh(n)
    ensures root.name == old(root.name) && root.value == old(root.value)
    ensures LoadRest(Erase(t), Chunks(rest)) == if valid then LoadRest(Erase(t'), Chunks(after)) else None
    ensures valid ==>
      && Linked(t', root.child, root)
      && root.lineno + LevelOnes(Chunks(after)) == old(root.lineno) + LevelOnes(Chunks(rest))
  {
    EraseDepth(t);
    var curLine := CString(rest[..ChunkLen(rest)]);
    after := rest[ChunkLen(rest)..];
    valid, t' := LoadLine(root, curLine, t);
    LoadTurn(Erase(t), Erase(t'), rest, ParseLine(curLine), valid);
  }

  method Load(text: string) returns (self: Node?, ghost t: Tree<Node>)
    ensures self == null <==> LoadText(text).None?
    ensures self != null ==>
      && fresh(self) && self !in Nodes(t) && Linked(t, self.child, self)
      && self.name == "root" && self.value == None
      && LoadText(text) == Some(Erase(t)) && self.lineno == LevelOnes(Chunks(text))
  {
    t := Nil;
    var root := New("root", null, Nil);
    var rest, valid := text, true;
    while rest != ""
      invariant fresh(root) && forall n :: n in Nodes(t) ==> fresh(n)
      invariant root !in Nodes(t) && Linked(t, root.child, root)
      invariant root.name == "root" && root.value == None
      invariant LoadText(text) == LoadRest(Erase(t), Chunks(rest))
      invariant root.lineno + LevelOnes(Chunks(rest)) == LevelOnes(Chunks(text))
      decreases |rest|
    {
      valid, rest, t := LoadNext(root, rest, t);
      if !valid { return null, t; }
    }
    self := root;
  }

  // ----- zz_config_save

  /** The file being written. */
  class TextFile {
    var text: string

    method Fprintf(s: string)
      modifies this
      ensures text == old(text) + s
    {
      text := text + s;
    }
  }

  /** The printed line of an item; the root has none. */
  function OwnLine(level: nat, name: string, value: Option<string>): string {
    if level == 0 then "" else ItemText(level - 1, name, value) + "\n"
  }

  method ConfigSave(self: Node, file: TextFile, level: nat) returns (rc: int)
    modifies file
    ensures rc == 0
    ensures file.text == old(file.text) + OwnLine(level, self.name, self.value)
  {
    if level > 0 {
      if self.value.Some? {
        file.Fprintf(Blanks((level - 1) * 4) + self.name + " = \"" + self.value.value + "\"\n");
        assert "\"\n" == "\"" + "\n";
        assert file.text == old(file.text) + (ItemText(level - 1, self.name, self.value) + "\n");
      } else {
        file.Fprintf(Blanks((level - 1) * 4) + self.name + "\n");
        assert file.text == old(file.text) + (ItemText(level - 1, self.name, self.value) + "\n");
      }
    }
    return 0;
  }

  /** s_config_execute with the saving callback. */
  method Execute(self: Node, file: TextFile, level: nat, ghost kids: Tree<Node>) returns (rc: int)
    requires Linked(kids, self.child, self)
    modifies file
    ensures rc == 0
    ensures file.text == old(file.text) + OwnLine(level, self.name, self.value) + SaveText(kids, level)
    decreases kids, 1
  {
    NodesAllocated(kids);
    label start:
    rc := ConfigSave(self, file, level);
    LinkedFrame@start(kids, self.child, self);
    rc := ExecuteKids(self, file, level, rc, kids);
  }

  /** Its loop over the children, after the callback for the item itself. */
  method ExecuteKids(self: Node, file: TextFile, level: nat, first: int, ghost kids: Tree<Node>) returns (rc: int)
    requires Linked(kids, self.child, self) && first == 0
    modifies file
    ensures rc == 0 && file.text == old(file.text) + SaveText(kids, level)
    decreases kids, 0
  {
    rc := first;
    ghost var rest, head := kids, file.text;
    var child := self.child;
    while child != null && rc == 0
      invariant rc == 0 && Linked(rest, child, self)
      invariant rest == kids || rest < kids
      invariant head + SaveText(kids, level) == file.text + SaveText(rest, level)
      decreases rest
    {
      ghost var written := file.text;
      NodesAllocated(rest);
      label next:
      rc := Execute(child, file, level + 1, rest.kids);
      LinkedFrame@next(rest, child, self);
      SaveTextItem(written, file.text, rest, level);
      if rc == -1 { break; }
      rest := rest.next;
      child := child.next;
    }
    NothingLeft(file.text, rest, level);
  }

  lemma NothingLeft(written: string, t: Tree<Node>, level: nat)
    requires t.Nil?
    ensures written + SaveText(t, level) == written
  {
  }

  lemma SaveTextItem(before: string, after: string, t: Tree<Node>, level: nat)
    requires t.Item? && after == before + OwnLine(level + 1, t.name, t.value) + SaveText(t.kids, level + 1)
    ensures before + SaveText(t, level) == after + SaveText(t.next, level)
  {
    var own, below, rest := OwnLine(level + 1, t.name, t.value), SaveText(t.kids, level + 1), SaveText(t.next, level);
    assert SaveText(t, level) == own + below + rest;
    Regroup(before, own, below, rest);
  }

  lemma Regroup(a: string, b: string, c: string, d: string)
    ensures a + (b + c + d) == (a + b + c) + d
  {
  }

  method Save(self: Node, file: TextFile, ghost kids: Tree<Node>) returns (rc: int)
    requires Linked(kids, self.child, self)
    modifies file
    ensures rc == 0 && file.text == old(file.text) + SaveText(kids, 0)
  {
    rc := Execute(self, file, 0, kids);
  }
}
