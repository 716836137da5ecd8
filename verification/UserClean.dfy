/**
 The user-clean cache as the C code keeps it: two tables of node chains, two arenas of nodes that
 are handed out by moving one offset, and a period flag that says which pair is current. The
 methods are proved against the logs of PageCache.
 */
module UserClean {
  import opened Options
  import opened PageCache
  import opened PageHash
  import Http = HttpParser
  import HttpFacts = HttpParserFacts

  const TABLE_SIZE: nat := 1000000
  const NODE_POOL_SIZE: nat := 1500000
  const NODE_SIZE: nat := 32

  /** Where the arena offset wraps back to zero. */
  const WRAP_AT: nat := NODE_SIZE * NODE_POOL_SIZE - 1000

  /** The allocations of one period before the arena is used out. */
  const PERIOD_MAX: nat := 1499969

  /** The address of a node: an arena and a byte offset in it. */
  datatype Ptr = Null | Ptr(gen: Gen, offset: nat)

  datatype PageNode = PageNode(hashA: nat, hashB: nat, json: string, sendFlag: int, next: Ptr)

  // ----- addresses handed out in one period

  /** The offset after k allocations since the offset was last set to zero by a period's end. */
  function OffsetAfter(k: nat): nat {
    if k == 0 then 0
    else if OffsetAfter(k - 1) + NODE_SIZE > WRAP_AT then 0
    else OffsetAfter(k - 1) + NODE_SIZE
  }

  lemma {:induction false} OffsetFormula(k: nat)
    ensures OffsetAfter(k) == 32 * (k % 1499969)
  {
    if k > 0 {
      OffsetFormula(k - 1);
      assert k % PERIOD_MAX == if (k - 1) % PERIOD_MAX == PERIOD_MAX - 1 then 0 else (k - 1) % PERIOD_MAX + 1;
    }
  }

  lemma OffsetStep(k: nat)
    requires k <= PERIOD_MAX
    ensures OffsetAfter(k) == if k == PERIOD_MAX then 0 else NODE_SIZE * k
    ensures OffsetAfter(k + 1) == if OffsetAfter(k) + NODE_SIZE > WRAP_AT then 0 else OffsetAfter(k) + NODE_SIZE
  {
    OffsetFormula(k);
  }

  /** Two nodes of one period share bytes exactly if a whole arena was handed out between them. */
  lemma OverlapExact(i: nat, j: nat)
    requires i < j
    ensures (OffsetAfter(i) < OffsetAfter(j) + NODE_SIZE && OffsetAfter(j) < OffsetAfter(i) + NODE_SIZE)
       <==> (j - i) % 1499969 == 0
  {
    OffsetFormula(i);
    OffsetFormula(j);
    SameRemainder(i, j);
  }

  lemma SameRemainder(i: nat, j: nat)
    requires i < j
    ensures (j - i) % PERIOD_MAX == 0 <==> i % PERIOD_MAX == j % PERIOD_MAX
  {
    var q, d := j / PERIOD_MAX - i / PERIOD_MAX, j % PERIOD_MAX - i % PERIOD_MAX;
    assert j - i == PERIOD_MAX * q + d;
  }

  /** The nodes of the current generation take up its whole arena. */
  predicate Full(c: Cache) {
    |Log(c, Current(c))| >= PERIOD_MAX
  }

  /** Appending the key needs a node beyond the arena. */
  predicate NoRoom(c: Cache, key: Key) {
    Lookup(c, key).None? && Full(c)
  }

  // ----- logs and chains

  function ToPtr(g: Gen, i: Option<nat>): Ptr {
    match i
    case None => Null
    case Some(k) => Ptr(g, NODE_SIZE * k)
  }

  /** The node of entry s: its fields, and a link to the entry before it in the same bucket. */
  predicate NodeOk(n: PageNode, g: Gen, log: seq<Entry>, s: nat)
    requires s < |log|
  {
    && n.hashA == log[s].key.hashA && n.hashB == log[s].key.hashB && n.json == log[s].json
    && n.sendFlag == (if log[s].sent then 1 else 0)
    && n.next == ToPtr(g, LastAt(log, s, log[s].key.pos))
  }

  /** A generation's table and arena hold exactly the entries of its log. */
  ghost predicate GenOk(g: Gen, table: seq<Ptr>, pool: seq<PageNode>, size: int, log: seq<Entry>) {
    && |table| == TABLE_SIZE && |pool| == NODE_POOL_SIZE
    && size == |log| <= PERIOD_MAX
    && (forall s :: 0 <= s < |log| ==> NodeOk(pool[s], g, log, s))
    && (forall pos :: 0 <= pos < TABLE_SIZE ==> table[pos] == ToPtr(g, LastAt(log, |log|, pos)))
  }

  /**
   The same when one more node was allocated than the arena of a period holds: the node of the
   first entry was filled again, for this key, and put in front of the key's chain.
   */
  ghost predicate GenReused(g: Gen, table: seq<Ptr>, pool: seq<PageNode>, size: int, log: seq<Entry>,
                            key: Key, json: string) {
    && |table| == TABLE_SIZE && |pool| == NODE_POOL_SIZE && key.pos < TABLE_SIZE
    && size == |log| + 1 && |log| == PERIOD_MAX
    && pool[0] == PageNode(key.hashA, key.hashB, json, 0, ToPtr(g, LastAt(log, |log|, key.pos)))
    && (forall s :: 1 <= s < |log| ==> NodeOk(pool[s], g, log, s))
    && (forall pos :: 0 <= pos < TABLE_SIZE ==>
          table[pos] == if pos == key.pos then Ptr(g, 0) else ToPtr(g, LastAt(log, |log|, pos)))
  }

  /** The address that is reached from p over k links, or Null when the chain ends before. */
  function Follow(pool: seq<PageNode>, p: Ptr, k: nat): Ptr
    decreases k
  {
    if k == 0 || p == Null || p.offset / NODE_SIZE >= |pool| then p
    else Follow(pool, pool[p.offset / NODE_SIZE].next, k - 1)
  }

  /**
   After the first node was filled again the chain it was put in front of still ends if and only
   if the first entry was in another bucket; otherwise the chain leads back to its own front.
   */
  lemma ReuseExact(g: Gen, table: seq<Ptr>, pool: seq<PageNode>, size: int, log: seq<Entry>, key: Key, json: string)
    requires GenReused(g, table, pool, size, log, key, json)
    ensures (exists k :: Follow(pool, table[key.pos], k) == Null) <==> log[0].key.pos != key.pos
  {
    if log[0].key.pos != key.pos {
      var k := ChainEnds(g, pool, log, |log|, key.pos);
      assert Follow(pool, Ptr(g, NODE_SIZE * 0), k + 1) == Null;
    } else {
      forall k ensures Follow(pool, table[key.pos], k) != Null {
        NeverEnds(g, pool, log, 0, key.pos, k);
      }
    }
  }

  lemma {:induction false} ChainEnds(g: Gen, pool: seq<PageNode>, log: seq<Entry>, n: nat, pos: nat) returns (k: nat)
    requires n <= |log| <= |pool| && (|log| > 0 ==> log[0].key.pos != pos)
    requires forall s :: 1 <= s < |log| ==> NodeOk(pool[s], g, log, s)
    ensures Follow(pool, ToPtr(g, LastAt(log, n, pos)), k) == Null
    decreases n
  {
    k := 0;
    if LastAt(log, n, pos).Some? {
      var i := LastAt(log, n, pos).value;
      assert NodeOk(pool[i], g, log, i);
      k := ChainEnds(g, pool, log, i, pos);
      k := k + 1;
    }
  }

  lemma {:induction false} NeverEnds(g: Gen, pool: seq<PageNode>, log: seq<Entry>, i: nat, pos: nat, k: nat)
    requires i < |log| <= |pool| && log[0].key.pos == pos == log[i].key.pos
    requires pool[0].next == ToPtr(g, LastAt(log, |log|, pos))
    requires forall s :: 1 <= s < |log| ==> NodeOk(pool[s], g, log, s)
    ensures Follow(pool, Ptr(g, NODE_SIZE * i), k) != Null
    decreases k
  {
    if k > 0 {
      var n := if i == 0 then |log| else i;
      assert i > 0 ==> NodeOk(pool[i], g, log, i);
      FirstStays(log, n, pos);
      NeverEnds(g, pool, log, LastAt(log, n, pos).value, pos, k - 1);
    }
  }

  lemma {:induction false} FirstStays(log: seq<Entry>, n: nat, pos: nat)
    requires 1 <= n <= |log| && log[0].key.pos == pos
    ensures LastAt(log, n, pos).Some?
  {
    if n > 1 { FirstStays(log, n - 1, pos); }
  }

  lemma GenReuse(g: Gen, table: seq<Ptr>, pool: seq<PageNode>, size: int, log: seq<Entry>, key: Key, json: string)
    requires GenOk(g, table, pool, size, log) && |log| == PERIOD_MAX && key.pos < TABLE_SIZE
    ensures var node := PageNode(key.hashA, key.hashB, json, 0, table[key.pos]);
      GenReused(g, table[key.pos := Ptr(g, 0)], pool[0 := node], size + 1, log, key, json)
  {
  }

  lemma GenSend(g: Gen, table: seq<Ptr>, pool: seq<PageNode>, size: int, log: seq<Entry>, i: nat)
    requires GenOk(g, table, pool, size, log) && i < |log|
    ensures GenOk(g, table, pool[i := pool[i].(sendFlag := 1)], size, Sent(log, i))
  {
    forall n, pos | 0 <= n <= |log| ensures LastAt(Sent(log, i), n, pos) == LastAt(log, n, pos) {
      LastAtSent(log, i, n, pos);
    }
  }

  lemma GenAppend(g: Gen, table: seq<Ptr>, pool: seq<PageNode>, size: int, log: seq<Entry>, e: Entry)
    requires GenOk(g, table, pool, size, log) && |log| < PERIOD_MAX && e.key.pos < TABLE_SIZE && !e.sent
    ensures var node := PageNode(e.key.hashA, e.key.hashB, e.json, 0, table[e.key.pos]);
      GenOk(g, table[e.key.pos := Ptr(g, NODE_SIZE * |log|)], pool[|log| := node], size + 1, log + [e])
  {
    forall n, pos | 0 <= n <= |log| ensures LastAt(log + [e], n, pos) == LastAt(log, n, pos) {
      LastAtAppend(log, n, e, pos);
    }
  }

  lemma GenClear(g: Gen, table: seq<Ptr>, pool: seq<PageNode>)
    requires |table| == TABLE_SIZE && |pool| == NODE_POOL_SIZE
    requires forall pos :: 0 <= pos < TABLE_SIZE ==> table[pos] == Null
    ensures GenOk(g, table, pool, 0, [])
  {
  }

  function Texts(out: seq<Message>): seq<string> {
    seq(|out|, i requires 0 <= i < |out| => out[i].json)
  }

  lemma TextsAppend(out: seq<Message>, m: Message)
    ensures Texts(out + [m]) == Texts(out) + [m.json]
  {
  }

  lemma LastAtAppend(log: seq<Entry>, n: nat, e: Entry, pos: nat)
    requires n <= |log|
    ensures LastAt(log + [e], n, pos) == LastAt(log, n, pos)
  {
  }

  /** A search down a chain goes from one entry of the bucket to the one before it. */
  lemma {:induction false} FindFollowsChain(log: seq<Entry>, n: nat, key: Key)
    requires n <= |log|
    ensures FindIn(log, n, key) == match LastAt(log, n, key.pos)
                                   case None => None
                                   case Some(i) => if log[i].key == key then Some(i) else FindIn(log, i, key)
  {
    if n > 0 { FindFollowsChain(log, n - 1, key); }
  }

  /** The table and the arena of one generation, with the number of its chained nodes. */
  class Generation {
    const gen: Gen
    const table: array<Ptr>
    const pool: array<PageNode>
    var size: int
    ghost var log: seq<Entry>

    ghost predicate Valid()
      reads this, table, pool
    {
      GenOk(gen, table[..], pool[..], size, log)
    }

    constructor (gen: Gen)
      ensures Valid() && this.gen == gen && log == []
      ensures fresh(table) && fresh(pool)
    {
      this.gen := gen;
      table := new Ptr[TABLE_SIZE](_ => Null);
      pool := new PageNode[NODE_POOL_SIZE](_ => PageNode(0, 0, "", 0, Null));
      size, log := 0, [];
    }

    /** Walks a bucket's chain to the first node with both hashes; links never leave the arena. */
    method Find(key: Key) returns (p: Ptr)
      requires Valid() && key.pos < TABLE_SIZE
      ensures p == ToPtr(gen, FindIn(log, |log|, key))
    {
      ghost var n: nat := |log|;
      p := table[key.pos];
      while p != Null
        invariant n <= |log| && p == ToPtr(gen, LastAt(log, n, key.pos))
        invariant FindIn(log, |log|, key) == FindIn(log, n, key)
        decreases n
      {
        FindFollowsChain(log, n, key);
        assert p.gen == gen;
        var node := pool[p.offset / NODE_SIZE];
        assert NodeOk(pool[..][p.offset / NODE_SIZE], gen, log, p.offset / NODE_SIZE);
        if node.hashA == key.hashA && node.hashB == key.hashB {
          return;
        }
        n := LastAt(log, n, key.pos).value;
        p := node.next;
      }
      FindFollowsChain(log, n, key);
    }

    method MarkSent(ghost i: nat, p: Ptr)
      requires Valid() && i < |log| && p == Ptr(gen, NODE_SIZE * i)
      modifies this`log, pool
      ensures Valid() && log == Sent(old(log), i)
    {
      GenSend(gen, table[..], pool[..], size, log, i);
      ghost var was := pool[..];
      pool[p.offset / NODE_SIZE] := pool[p.offset / NODE_SIZE].(sendFlag := 1);
      assert pool[..] == was[i := was[i].(sendFlag := 1)];
      log := Sent(log, i);
    }

    /**
     Fills the node at the address and puts it in front of its bucket's chain. The address is a
     fresh one unless the arena of the period is used out.
     */
    method Insert(p: Ptr, key: Key, json: string, ghost e: Entry)
      requires Valid() && p == Ptr(gen, if |log| < PERIOD_MAX then NODE_SIZE * |log| else 0)
      requires key.pos < TABLE_SIZE && e.key == key && e.json == json && !e.sent
      modifies this, table, pool
      ensures old(|log|) < PERIOD_MAX ==> Valid() && log == old(log) + [e]
      ensures old(|log|) == PERIOD_MAX ==> log == old(log) && GenReused(gen, table[..], pool[..], size, log, key, json)
    {
      ghost var heads, was, i := table[..], pool[..], p.offset / NODE_SIZE;
      if |log| < PERIOD_MAX {
        GenAppend(gen, heads, was, size, log, e);
      } else {
        GenReuse(gen, heads, was, size, log, key, json);
      }
      size := size + 1;
      pool[p.offset / NODE_SIZE] := PageNode(key.hashA, key.hashB, json, 0, table[key.pos]);
      table[key.pos] := p;
      assert pool[..] == was[i := PageNode(key.hashA, key.hashB, json, 0, heads[key.pos])];
      assert table[..] == heads[key.pos := p];
      if |log| < PERIOD_MAX {
        log := log + [e];
      }
    }

    method Clear()
      requires Valid()
      modifies this, table
      ensures Valid() && log == []
    {
      forall pos | 0 <= pos < TABLE_SIZE { table[pos] := Null; }
      size, log := 0, [];
      GenClear(gen, table[..], pool[..]);
    }
  }

  class UserClean {
    const a: Generation
    const b: Generation
    const crypt: Table
    var memOffset: nat
    var periodFlag: int
    var sent: seq<string>
    var sendNum: nat
    ghost var serial: nat
    ghost var out: seq<Message>

    ghost const Repr: set<object> := {this, a, a.table, a.pool, b, b.table, b.pool}

    /** What the cache remembers, as the logs of PageCache. */
    ghost function View(): Cache
      reads this, a, b
    {
      Cache(periodFlag, a.log, b.log, serial, out)
    }

    ghost predicate Valid()
      reads Repr
    {
      && a != b && a.table != b.table && a.pool != b.pool
      && a.gen == A && b.gen == B && a.Valid() && b.Valid()
      && Phase(View())
      && memOffset == OffsetAfter(|Log(View(), Current(View()))|)
      && sent == Texts(out) && sendNum == |sent|
    }

    /** What the first insertion beyond the arena of a period leaves. */
    ghost predicate UsedOut(key: Key, json: string)
      reads Repr
    {
      var (g, other) := if periodFlag < 0 then (a, b) else (b, a);
      && a != b && a.table != b.table && a.pool != b.pool && a.gen == A && b.gen == B
      && GenReused(g.gen, g.table[..], g.pool[..], g.size, g.log, key, json) && other.Valid()
      && memOffset == OffsetAfter(PERIOD_MAX + 1)
      && sent == Texts(out) && sendNum == |sent|
    }

    /** user_clean_init_mem_pool for one thread. */
    constructor (crypt: Table)
      ensures Valid() && View() == INITIAL && fresh(Repr) && this.crypt == crypt
    {
      this.crypt := crypt;
      a := new Generation(A);
      b := new Generation(B);
      memOffset, periodFlag, sent, sendNum, serial, out := 0, -2, [], 0, 0, [];
    }

    /** user_clean_alloc_mem for a node. */
    method AllocMem() returns (p: Ptr)
      modifies this`memOffset
      ensures p == Ptr(if periodFlag < 0 then A else B, old(memOffset))
      ensures memOffset == if old(memOffset) + NODE_SIZE > WRAP_AT then 0 else old(memOffset) + NODE_SIZE
    {
      p := if periodFlag < 0 then Ptr(A, memOffset) else Ptr(B, memOffset);
      memOffset := memOffset + NODE_SIZE;
      if memOffset > WRAP_AT {
        memOffset := 0;
      }
    }

    /** The address of the next node of the current generation. */
    method NextNode() returns (p: Ptr)
      requires Valid()
      modifies this`memOffset
      ensures var g := if periodFlag < 0 then a else b;
        && p == Ptr(g.gen, if |g.log| < PERIOD_MAX then NODE_SIZE * |g.log| else 0)
        && memOffset == OffsetAfter(|g.log| + 1)
    {
      OffsetStep(|Log(View(), Current(View()))|);
      p := AllocMem();
    }

    /** What the search does with a found node when a parent is checked. */
    method SendParent(p: Ptr, ghost g: Gen, ghost i: nat) returns (rc: int)
      requires Valid() && i < |Log(View(), g)| && p == Ptr(g, NODE_SIZE * i)
      modifies Repr
      ensures Valid()
      ensures if Log(old(View()), g)[i].sent then rc == -3 && View() == old(View())
              else rc == -2 && View() == Send(old(View()), g, i)
    {
      var generation := if p.gen == A then a else b;
      var node := generation.pool[p.offset / NODE_SIZE];
      assert NodeOk(generation.pool[..][i], g, generation.log, i);
      if node.sendFlag != 0 { return -3; }
      ghost var m := Message(generation.log[i].serial, generation.log[i].json);
      TextsAppend(out, m);
      sendNum := sendNum + 1;
      sent := sent + [node.json];
      generation.MarkSent(i, p);
      out := out + [m];
      rc := -2;
    }

    /** The two searches; the second one is tried only on an empty bucket of A. */
    method Search(key: Key) returns (p: Ptr)
      requires Valid() && key.pos < TABLE_SIZE
      ensures p == match Lookup(View(), key)
                   case None => Null
                   case Some((g, i)) => Ptr(g, NODE_SIZE * i)
    {
      p := Null;
      if a.table[key.pos] != Null {
        p := a.Find(key);
      } else if b.table[key.pos] != Null {
        p := b.Find(key);
      } else {
        FindFollowsChain(b.log, |b.log|, key);
      }
    }

    /** Takes a node from the arena for a page that the search did not find. */
    method InsertNode(key: Key, json: string)
      requires Valid() && key.pos < TABLE_SIZE
      modifies Repr
      ensures !Full(old(View())) ==> Valid() && View() == PageCache.Insert(old(View()), key, json)
      ensures Full(old(View())) ==> UsedOut(key, json) && View() == old(View())
    {
      ghost var full := Full(View());
      var nextNode := NextNode();
      ghost var e := Entry(key, json, serial, false);
      if periodFlag < 0 {
        a.Insert(nextNode, key, json, e);
      } else {
        b.Insert(nextNode, key, json, e);
      }
      if !full { serial := serial + 1; }
    }

    /** user_clean_check_append_ip_ua_url once the three hashes are known. */
    method CheckAppendHashed(key: Key, json: string, isAdd: bool) returns (rc: int)
      requires Valid() && key.pos < TABLE_SIZE
      modifies Repr
      ensures if isAdd && NoRoom(old(View()), key) then rc == key.pos && UsedOut(key, json) && View() == old(View())
              else Valid() && (rc, View()) == if isAdd then Append(old(View()), key, json) else Check(old(View()), key)
    {
      ghost var found := Lookup(View(), key);
      var p := Search(key);
      if p != Null {
        if !isAdd {
          rc := SendParent(p, found.value.0, found.value.1);
          return;
        }
        return key.pos;
      }
      if !isAdd { return -1; }
      InsertNode(key, json);
      return key.pos;
    }

    /** user_clean_time_out: a period ends. */
    method TimeOut()
      requires Valid()
      modifies Repr
      ensures Valid() && View() == Flip(old(View()))
    {
      if periodFlag == -2 {
        periodFlag := 1;
        memOffset := 0;
        b.size := 0;
      } else if periodFlag > 0 {
        a.Clear();
        periodFlag := -1;
        memOffset := 0;
      } else {
        b.Clear();
        periodFlag := 1;
        memOffset := 0;
      }
    }

    /** user_clean_check_append_ip_ua_url, with the parameters in the order of its header. */
    method CheckAppend(p: string, ip: nat, host: Http.Slice, ua: Http.Slice, uri: Http.Slice, json: string, isAdd: bool)
      returns (rc: int)
      requires Valid() && Inside(p, host) && Inside(p, ua) && Inside(p, uri)
      requires host.start.Some? && host.end.Some? && uri.start.Some? && uri.end.Some?
      modifies Repr
      ensures var key := KeyOf(crypt, Stream(ip, Text(p, host), HostText(p, ua), Text(p, uri)));
        if isAdd && NoRoom(old(View()), key) then rc == key.pos && UsedOut(key, json) && View() == old(View())
        else Valid() && (rc, View()) == if isAdd then Append(old(View()), key, json) else Check(old(View()), key)
    {
      var nHash := GetHash(crypt, p, ip, ua, host, uri, HashOffset);
      var nHashA := GetHash(crypt, p, ip, ua, host, uri, HashA);
      var nHashB := GetHash(crypt, p, ip, ua, host, uri, HashB);
      rc := CheckAppendHashed(Key(Low32(nHash) % TABLE_SIZE, Low32(nHashA), Low32(nHashB)), json, isAdd);
    }

    /** user_clean_check_parent: hands the user agent on in the place of the host, and the reverse. */
    method CheckParent(p: string, ip: nat, ua: Http.Slice, host: Http.Slice, uri: Http.Slice, json: string)
      returns (rc: int)
      requires Valid() && Inside(p, host) && Inside(p, ua) && Inside(p, uri)
      requires ua.start.Some? && ua.end.Some? && uri.start.Some? && uri.end.Some?
      modifies Repr
      ensures Valid()
      ensures (rc, View()) == Check(old(View()), KeyOf(crypt, Stream(ip, Text(p, ua), HostText(p, host), Text(p, uri))))
    {
      rc := CheckAppend(p, ip, ua, host, uri, json, false);
    }

    /** user_clean_append_queue, with the same exchange. */
    method AppendQueue(p: string, ip: nat, ua: Http.Slice, host: Http.Slice, uri: Http.Slice, json: string)
      returns (rc: int)
      requires Valid() && Inside(p, host) && Inside(p, ua) && Inside(p, uri)
      requires ua.start.Some? && ua.end.Some? && uri.start.Some? && uri.end.Some?
      modifies Repr
      ensures var key := KeyOf(crypt, Stream(ip, Text(p, ua), HostText(p, host), Text(p, uri)));
        if NoRoom(old(View()), key) then rc == key.pos && UsedOut(key, json) && View() == old(View())
        else Valid() && (rc, View()) == Append(old(View()), key, json)
    {
      rc := CheckAppend(p, ip, ua, host, uri, json, true);
    }

    /** user_clean_main on a payload p and the record that the parser made of it. */
    method Handle(p: string, f: Http.Fields, sip: nat, json: string)
      requires Valid() && FromParser(p, f)
      modifies Repr
      ensures var page := PageOf(p, f, sip);
        var c := CheckReferer(crypt, old(View()), page);
        if page.Page? && NoRoom(c, PageKey(crypt, page)) then UsedOut(PageKey(crypt, page), json) && View() == c
        else Valid() && View() == Request(crypt, old(View()), page, json)
    {
      if f.ua.end == None || f.ua.start == None || f.host.end == None || f.uri.start == None {
        return;
      }
      var rc;
      if f.referer.end == None || f.referer.start == None {
        rc := AppendQueue(p, sip, f.ua, f.host, f.uri, json);
      } else {
        rc := CheckParent(p, sip, f.ua, Http.UNSET, f.referer, json);
        rc := AppendQueue(p, sip, f.ua, f.host, f.uri, json);
      }
    }
  }

  function Low32(x: bv64): nat {
    x as int % 0x1_0000_0000
  }

  /** The bucket and the two hashes of a stream. */
  function KeyOf(crypt: Table, stream: string): Key {
    Key(Low32(HashOf(crypt, HashOffset, stream)) % TABLE_SIZE,
        Low32(HashOf(crypt, HashA, stream)), Low32(HashOf(crypt, HashB, stream)))
  }

  /** Every stream has one of a million buckets; the hashes are cut to 32 bits. */
  lemma KeyExact(crypt: Table, stream: string)
    ensures var k := KeyOf(crypt, stream);
      && k.pos == HashOf(crypt, HashOffset, stream) as int % 0x1_0000_0000 % 1000000
      && k.hashA == HashOf(crypt, HashA, stream) as int % 0x1_0000_0000
      && k.hashB == HashOf(crypt, HashB, stream) as int % 0x1_0000_0000
  {
  }

  /** What the record of a parsed request promises to user_clean_main. */
  predicate FromParser(p: string, f: Http.Fields) {
    && Inside(p, f.uri) && Inside(p, f.host) && Inside(p, f.ua) && Inside(p, f.referer)
    && (f.host.end.Some? ==> f.host.start.Some? && f.uri.end.Some?)
    && (f.uri.end.Some? ==> f.uri.start.Some?)
  }

  /** The tests of user_clean_main do not look at uri_end and host_start; they need not. */
  lemma ParserKeepsPromise(p: string, cap: int, headerState: int, stale: Http.Slice)
    ensures FromParser(p, Http.Run(p, 0, cap, Http.Begin(Http.Initial(headerState, stale))).f)
  {
    HttpFacts.ParseSound(p, cap, headerState, stale);
    HttpFacts.RunHostLate(p, 0, cap, Http.Begin(Http.Initial(headerState, stale)));
  }

  // ----- a request, as the cache sees it

  /** A request with all that user_clean_main needs, or one that it ignores. */
  datatype Page =
    | Ignored
    | Page(ip: nat, ua: string, host: string, uri: string, referer: Option<string>)

  function PageOf(p: string, f: Http.Fields, sip: nat): Page
    requires FromParser(p, f)
  {
    if f.ua.end.None? || f.ua.start.None? || f.host.end.None? || f.uri.start.None? then Ignored
    else Page(sip, Text(p, f.ua), Text(p, f.host), Text(p, f.uri), HostText(p, f.referer))
  }

  function PageKey(crypt: Table, page: Page): Key
    requires page.Page?
  {
    KeyOf(crypt, Stream(page.ip, page.ua, Some(page.host), page.uri))
  }

  function RefererKey(crypt: Table, page: Page): Key
    requires page.Page? && page.referer.Some?
  {
    KeyOf(crypt, Stream(page.ip, page.ua, None, page.referer.value))
  }

  /** The page that the Referer names is checked, if there is a Referer. */
  function CheckReferer(crypt: Table, c: Cache, page: Page): Cache {
    if page.Ignored? || page.referer.None? then c else Check(c, RefererKey(crypt, page)).1
  }

  /** A request checks the page that its Referer names, if it has one, and is remembered itself. */
  function Request(crypt: Table, c: Cache, page: Page, json: string): Cache {
    if page.Ignored? then c
    else Append(CheckReferer(crypt, c, page), PageKey(crypt, page), json).1
  }

  lemma RefererFindsPage(crypt: Table, page: Page, next: Page)
    requires page.Page? && next.Page? && next.ip == page.ip && next.ua == page.ua
    requires next.referer == Some(PREFIX + page.host + page.uri)
    ensures RefererKey(crypt, next) == PageKey(crypt, page)
  {
    KeyAgreement(crypt, HashOffset, page.ip, page.ua, page.host, page.uri);
    KeyAgreement(crypt, HashA, page.ip, page.ua, page.host, page.uri);
    KeyAgreement(crypt, HashB, page.ip, page.ua, page.host, page.uri);
  }

  lemma RequestKeepsGood(crypt: Table, c: Cache, page: Page, json: string)
    requires Good(c)
    ensures Good(CheckReferer(crypt, c, page)) && Good(Request(crypt, c, page, json))
  {
    if page.Page? {
      if page.referer.Some? { CheckKeepsGood(c, RefererKey(crypt, page)); }
      AppendKeepsGood(CheckReferer(crypt, c, page), PageKey(crypt, page), json);
    }
  }

  /** The check for the Referer of a request leaves what any later lookup sees. */
  lemma RefererKeepsLookup(crypt: Table, c: Cache, page: Page, key: Key)
    ensures var c' := CheckReferer(crypt, c, page);
      && Lookup(c', key) == Lookup(c, key) && Occupied(c'.a, key.pos) == Occupied(c.a, key.pos)
      && c'.flag == c.flag && c'.serial == c.serial
  {
    if page.Page? && page.referer.Some? { CheckKeepsLookup(c, RefererKey(crypt, page), key); }
  }

  lemma AppendSendsNothing(c: Cache, key: Key, json: string)
    ensures Append(c, key, json).1.out == c.out
  {
  }

  /**
   A click chain: a user asks for a page that is not yet remembered, and his next request names
   that page as its Referer; the first request may itself name a page. Beyond what the first
   request sends, the second one sends the first page if and only if the page went to generation
   A or nothing of generation A is in its bucket.
   */
  lemma ClickChain(crypt: Table, c: Cache, page: Page, json: string, next: Page, json': string)
    requires Good(c) && page.Page? && next.Page?
    requires next.ip == page.ip && next.ua == page.ua && next.referer == Some(PREFIX + page.host + page.uri)
    requires Lookup(c, PageKey(crypt, page)).None?
    ensures var key := PageKey(crypt, page);
      var c' := Request(crypt, c, page, json);
      Request(crypt, c', next, json').out
        == if Current(c) == A || !Occupied(c.a, key.pos) then c'.out + [Message(c.serial, json)] else c'.out
  {
    var key := PageKey(crypt, page);
    var checked := CheckReferer(crypt, c, page);
    RequestKeepsGood(crypt, c, page, json);
    RefererKeepsLookup(crypt, c, page, key);
    FreshPageFound(checked, key, json);
    AppendSendsNothing(checked, key, json);
    RefererFindsPage(crypt, page, next);
    AppendSendsNothing(CheckReferer(crypt, Request(crypt, c, page, json), next), PageKey(crypt, next), json');
  }

  /** A page that is not yet remembered and names itself as its Referer sends nothing. */
  lemma NamesItself(crypt: Table, c: Cache, page: Page, json: string)
    requires page.Page? && page.referer == Some("http://" + page.host + page.uri)
    requires Lookup(c, PageKey(crypt, page)).None?
    ensures Request(crypt, c, page, json).out == c.out
    ensures Request(crypt, c, page, json).serial == c.serial + 1
  {
    RefererFindsPage(crypt, page, page);
    AppendSendsNothing(c, PageKey(crypt, page), json);
  }

  // ----- from the octets of a payload

  /** What the request in a payload does to the cache; the parser fills a record with stale fields. */
  function Arrive(crypt: Table, c: Cache, p: string, cap: int, headerState: int, stale: Http.Slice,
                  sip: nat, json: string): Cache {
    ParserKeepsPromise(p, cap, headerState, stale);
    Request(crypt, c, PageOf(p, Http.Run(p, 0, cap, Http.Begin(Http.Initial(headerState, stale))).f, sip), json)
  }

  lemma ReadsText(b: string, s: Http.Slice, text: string, was: Http.Slice)
    requires HttpFacts.Reads(b, s, Some(text), was) && text != ""
    ensures s.start.Some? && s.end.Some? && Inside(b, s) && Text(b, s) == text
  {
  }

  /** A printed request with a host and a user agent arrives as the page that it spells. */
  lemma PrintedPage(r: HttpFacts.Request, cap: int, headerState: int, stale: Http.Slice, sip: nat,
                    host: string, ua: string)
    requires HttpFacts.RequestOk(r)
    requires HttpFacts.Last(r.headers, Http.HS_HOST) == Some(host)
    requires HttpFacts.Last(r.headers, Http.HS_USER_AGENT) == Some(ua)
    ensures var p := HttpFacts.Print(r);
      var f := Http.Run(p, 0, cap, Http.Begin(Http.Initial(headerState, stale))).f;
      && FromParser(p, f)
      && PageOf(p, f, sip) == Page(sip, ua, host, r.uri, HttpFacts.Last(r.headers, Http.HS_REFERER))
  {
    var p := HttpFacts.Print(r);
    var f := Http.Run(p, 0, cap, Http.Begin(Http.Initial(headerState, stale))).f;
    ParserKeepsPromise(p, cap, headerState, stale);
    HttpFacts.PrintThenParse(r, cap, headerState, stale);
    ReadsText(p, f.uri, r.uri, Http.UNSET);
    HeaderText(p, f, r, Http.HS_HOST, stale);
    HeaderText(p, f, r, Http.HS_USER_AGENT, stale);
    HeaderText(p, f, r, Http.HS_REFERER, stale);
  }

  /** A printed request is ignored exactly if it has no Host or no User-Agent; then it changes nothing. */
  lemma PrintedIgnored(crypt: Table, c: Cache, r: HttpFacts.Request, cap: int, headerState: int, stale: Http.Slice,
                       sip: nat, json: string)
    requires HttpFacts.RequestOk(r)
    ensures var p := HttpFacts.Print(r);
      var f := Http.Run(p, 0, cap, Http.Begin(Http.Initial(headerState, stale))).f;
      && FromParser(p, f)
      && (PageOf(p, f, sip) == Ignored <==>
            HttpFacts.Last(r.headers, Http.HS_HOST) == None || HttpFacts.Last(r.headers, Http.HS_USER_AGENT) == None)
      && (PageOf(p, f, sip) == Ignored ==> Arrive(crypt, c, p, cap, headerState, stale, sip, json) == c)
  {
    var p := HttpFacts.Print(r);
    var f := Http.Run(p, 0, cap, Http.Begin(Http.Initial(headerState, stale))).f;
    ParserKeepsPromise(p, cap, headerState, stale);
    HttpFacts.PrintThenParse(r, cap, headerState, stale);
    ReadsText(p, f.uri, r.uri, Http.UNSET);
    HeaderText(p, f, r, Http.HS_HOST, stale);
    HeaderText(p, f, r, Http.HS_USER_AGENT, stale);
  }

  lemma HeaderText(p: string, f: Http.Fields, r: HttpFacts.Request, a: int, stale: Http.Slice)
    requires HttpFacts.RequestOk(r) && HttpFacts.AllRead(p, f, r.headers, stale)
    requires Http.HS_HOST <= a < Http.HS_CONTENT_LENGTH
    ensures var s, v := HttpFacts.SliceOf(f, a), HttpFacts.Last(r.headers, a);
      && Inside(p, s) && HostText(p, s) == v && (v.Some? ==> s.start.Some? && s.end.Some?)
  {
    var s, v := HttpFacts.SliceOf(f, a), HttpFacts.Last(r.headers, a);
    assert HttpFacts.Reads(p, s, v, HttpFacts.Before(a, stale));
    LastProper(r.headers, a);
    if v.Some? { ReadsText(p, s, v.value, HttpFacts.Before(a, stale)); }
  }

  lemma {:induction false} LastProper(hs: seq<HttpFacts.HeaderLine>, a: int)
    requires 0 < a && forall k :: 0 <= k < |hs| ==> HttpFacts.HeaderOk(hs[k])
    ensures HttpFacts.Last(hs, a).Some? ==> HttpFacts.Last(hs, a).value != ""
  {
    if hs != [] { LastProper(hs[..|hs| - 1], a); }
  }

  /**
   The click chain from the octets on: two printed requests of one user, the second with the URL
   of the first as its last Referer, whatever the records held that the parser filled.
   */
  lemma PrintedClickChain(crypt: Table, c: Cache, r: HttpFacts.Request, next: HttpFacts.Request,
                          cap: int, headerState: int, stale: Http.Slice, cap': int, headerState': int, stale': Http.Slice,
                          sip: nat, ua: string, host: string, host': string, json: string, json': string)
    requires Good(c) && HttpFacts.RequestOk(r) && HttpFacts.RequestOk(next)
    requires HttpFacts.Last(r.headers, Http.HS_HOST) == Some(host)
    requires HttpFacts.Last(r.headers, Http.HS_USER_AGENT) == Some(ua)
    requires HttpFacts.Last(next.headers, Http.HS_HOST) == Some(host')
    requires HttpFacts.Last(next.headers, Http.HS_USER_AGENT) == Some(ua)
    requires HttpFacts.Last(next.headers, Http.HS_REFERER) == Some(PREFIX + host + r.uri)
    requires Lookup(c, KeyOf(crypt, Stream(sip, ua, Some(host), r.uri))).None?
    ensures var key := KeyOf(crypt, Stream(sip, ua, Some(host), r.uri));
      var c' := Arrive(crypt, c, HttpFacts.Print(r), cap, headerState, stale, sip, json);
      Arrive(crypt, c', HttpFacts.Print(next), cap', headerState', stale', sip, json').out
        == if Current(c) == A || !Occupied(c.a, key.pos) then c'.out + [Message(c.serial, json)] else c'.out
  {
    PrintedPage(r, cap, headerState, stale, sip, host, ua);
    PrintedPage(next, cap', headerState', stale', sip, host', ua);
    ClickChain(crypt, c, Page(sip, ua, host, r.uri, HttpFacts.Last(r.headers, Http.HS_REFERER)), json,
               Page(sip, ua, host', next.uri, HttpFacts.Last(next.headers, Http.HS_REFERER)), json');
  }
}
