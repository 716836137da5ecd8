/**
 The two generations of remembered pages as plain logs: what a lookup reaches, what an append,
 a parent check and the end of a period do, and what holds over whole runs of these events.
 */
module PageCache {
  import opened Options

  datatype Key = Key(pos: nat, hashA: nat, hashB: nat)

  /** A remembered page; the serial number tells pages with equal keys apart. */
  datatype Entry = Entry(key: Key, json: string, serial: nat, sent: bool)

  datatype Gen = A | B

  datatype Message = Message(serial: nat, json: string)

  datatype Cache = Cache(flag: int, a: seq<Entry>, b: seq<Entry>, serial: nat, out: seq<Message>)

  const INITIAL := Cache(-2, [], [], 0, [])

  /** The generation that new pages go to. */
  function Current(c: Cache): Gen {
    if c.flag < 0 then A else B
  }

  function Log(c: Cache, g: Gen): seq<Entry> {
    if g == A then c.a else c.b
  }

  function WithLog(c: Cache, g: Gen, log: seq<Entry>): Cache {
    if g == A then c.(a := log) else c.(b := log)
  }

  /** The latest of the first n entries in a bucket. */
  function LastAt(log: seq<Entry>, n: nat, pos: nat): (i: Option<nat>)
    requires n <= |log|
    ensures i.Some? ==> i.value < n && log[i.value].key.pos == pos
  {
    if n == 0 then None
    else if log[n - 1].key.pos == pos then Some(n - 1)
    else LastAt(log, n - 1, pos)
  }

  /** The latest of the first n entries with a key. */
  function FindIn(log: seq<Entry>, n: nat, key: Key): (i: Option<nat>)
    requires n <= |log|
    ensures i.Some? ==> i.value < n && log[i.value].key == key
  {
    if n == 0 then None
    else if log[n - 1].key == key then Some(n - 1)
    else FindIn(log, n - 1, key)
  }

  lemma {:induction false} NothingLater(log: seq<Entry>, n: nat, key: Key)
    requires n <= |log|
    ensures var i := LastAt(log, n, key.pos);
      forall j :: (if i.Some? then i.value + 1 else 0) <= j < n ==> log[j].key.pos != key.pos
    ensures FindIn(log, n, key).None? ==> forall j :: 0 <= j < n ==> log[j].key != key
  {
    if n > 0 { NothingLater(log, n - 1, key); }
  }

  predicate Occupied(log: seq<Entry>, pos: nat) {
    LastAt(log, |log|, pos).Some?
  }

  /** The search: generation B is looked at only when the bucket of generation A is empty. */
  function Lookup(c: Cache, key: Key): Option<(Gen, nat)> {
    var g := if Occupied(c.a, key.pos) then A else B;
    match FindIn(Log(c, g), |Log(c, g)|, key)
    case None => None
    case Some(i) => Some((g, i))
  }

  /** Sending an entry marks it and puts its page out. */
  function Send(c: Cache, g: Gen, i: nat): Cache
    requires i < |Log(c, g)|
  {
    var e := Log(c, g)[i];
    WithLog(c, g, Log(c, g)[i := e.(sent := true)]).(out := c.out + [Message(e.serial, e.json)])
  }

  /** A parent check: sends the page that is found unless it was sent before. */
  function Check(c: Cache, key: Key): (int, Cache) {
    match Lookup(c, key)
    case None => (-1, c)
    case Some((g, i)) =>
      if Log(c, g)[i].sent then (-3, c) else (-2, Send(c, g, i))
  }

  function Insert(c: Cache, key: Key, json: string): Cache {
    var e := Entry(key, json, c.serial, false);
    if c.flag < 0 then c.(a := c.a + [e], serial := c.serial + 1)
    else c.(b := c.b + [e], serial := c.serial + 1)
  }

  /** An append: remembers the page in the current generation unless the search finds its key. */
  function Append(c: Cache, key: Key, json: string): (int, Cache) {
    (key.pos, if Lookup(c, key).Some? then c else Insert(c, key, json))
  }

  /** The end of a period: the other generation becomes the current one and is emptied. */
  function Flip(c: Cache): Cache {
    if c.flag == -2 then c.(flag := 1)
    else if c.flag > 0 then c.(a := [], flag := -1)
    else c.(b := [], flag := 1)
  }

  // ----- runs

  datatype Event = Appending(key: Key, json: string) | Checking(key: Key) | PeriodEnd

  function Apply(c: Cache, e: Event): Cache {
    match e
    case Appending(key, json) => Append(c, key, json).1
    case Checking(key) => Check(c, key).1
    case PeriodEnd => Flip(c)
  }

  function Run(c: Cache, es: seq<Event>): Cache
    decreases |es|
  {
    if es == [] then c else Run(Apply(c, es[0]), es[1..])
  }

  function Flips(es: seq<Event>): nat {
    if es == [] then 0 else (if es[0].PeriodEnd? then 1 else 0) + Flips(es[1..])
  }

  // ----- what every event keeps

  predicate SentIn(out: seq<Message>, serial: nat) {
    exists k :: 0 <= k < |out| && out[k].serial == serial
  }

  /** The serial numbers of a log rise and tell which entries were sent, and what was sent. */
  predicate Numbered(log: seq<Entry>, serial: nat, out: seq<Message>) {
    && (forall i :: 0 <= i < |log| ==> log[i].serial < serial)
    && (forall i, j :: 0 <= i < j < |log| ==> log[i].serial < log[j].serial)
    && (forall i :: 0 <= i < |log| ==> (log[i].sent <==> SentIn(out, log[i].serial)))
    && (forall i, k :: 0 <= i < |log| && 0 <= k < |out| && out[k].serial == log[i].serial ==> out[k].json == log[i].json)
  }

  /** No entry is sent twice, and only entries that were remembered are sent. */
  predicate SentOnce(out: seq<Message>, serial: nat) {
    && (forall i, j :: 0 <= i < j < |out| ==> out[i].serial != out[j].serial)
    && (forall k :: 0 <= k < |out| ==> out[k].serial < serial)
  }

  predicate Apart(a: seq<Entry>, b: seq<Entry>) {
    forall i, j :: 0 <= i < |a| && 0 <= j < |b| ==> a[i].serial != b[j].serial
  }

  /** Before the first period ends only generation A has been used. */
  predicate Phase(c: Cache) {
    && (c.flag == -2 || c.flag == -1 || c.flag == 1)
    && (c.flag == -2 ==> c.b == [])
  }

  predicate Good(c: Cache) {
    && Phase(c)
    && Numbered(c.a, c.serial, c.out) && Numbered(c.b, c.serial, c.out) && Apart(c.a, c.b)
    && SentOnce(c.out, c.serial)
  }

  lemma SentInAdd(out: seq<Message>, m: Message)
    ensures forall s :: SentIn(out + [m], s) <==> SentIn(out, s) || m.serial == s
  {
    var out' := out + [m];
    forall s ensures SentIn(out', s) <==> SentIn(out, s) || m.serial == s {
      if SentIn(out, s) {
        var k :| 0 <= k < |out| && out[k].serial == s;
        assert out'[k] == out[k];
      }
      assert out'[|out|] == m;
    }
  }

  lemma NumberedSend(log: seq<Entry>, i: nat, serial: nat, out: seq<Message>)
    requires i < |log| && Numbered(log, serial, out) && !log[i].sent && SentOnce(out, serial)
    ensures var out' := out + [Message(log[i].serial, log[i].json)];
      Numbered(log[i := log[i].(sent := true)], serial, out') && SentOnce(out', serial)
  {
    SentInAdd(out, Message(log[i].serial, log[i].json));
  }

  lemma NumberedOther(log: seq<Entry>, serial: nat, out: seq<Message>, m: Message)
    requires Numbered(log, serial, out)
    requires forall i :: 0 <= i < |log| ==> log[i].serial != m.serial
    ensures Numbered(log, serial, out + [m])
  {
    SentInAdd(out, m);
  }

  lemma SendKeepsGood(c: Cache, g: Gen, i: nat)
    requires Good(c) && i < |Log(c, g)| && !Log(c, g)[i].sent
    ensures Good(Send(c, g, i))
  {
    if g == A { SendFromAKeepsGood(c, i); } else { SendFromBKeepsGood(c, i); }
  }

  lemma SendFromAKeepsGood(c: Cache, i: nat)
    requires Good(c) && i < |c.a| && !c.a[i].sent
    ensures Good(Send(c, A, i))
  {
    var m := Message(c.a[i].serial, c.a[i].json);
    assert Send(c, A, i) == c.(a := c.a[i := c.a[i].(sent := true)], out := c.out + [m]);
    NumberedSend(c.a, i, c.serial, c.out);
    NumberedOther(c.b, c.serial, c.out, m);
  }

  lemma SendFromBKeepsGood(c: Cache, i: nat)
    requires Good(c) && i < |c.b| && !c.b[i].sent
    ensures Good(Send(c, B, i))
  {
    var m := Message(c.b[i].serial, c.b[i].json);
    assert Send(c, B, i) == c.(b := c.b[i := c.b[i].(sent := true)], out := c.out + [m]);
    NumberedSend(c.b, i, c.serial, c.out);
    NumberedOther(c.a, c.serial, c.out, m);
  }

  lemma CheckKeepsGood(c: Cache, key: Key)
    requires Good(c)
    ensures Good(Check(c, key).1)
  {
    if Lookup(c, key).Some? {
      var (g, i) := Lookup(c, key).value;
      if !Log(c, g)[i].sent { SendKeepsGood(c, g, i); }
    }
  }

  lemma NumberedAppend(log: seq<Entry>, serial: nat, out: seq<Message>, e: Entry)
    requires Numbered(log, serial, out) && e.serial == serial && !e.sent && SentOnce(out, serial)
    ensures Numbered(log, serial + 1, out) && Numbered(log + [e], serial + 1, out)
    ensures SentOnce(out, serial + 1)
  {
    assert !SentIn(out, serial);
  }

  lemma ApartAppend(a: seq<Entry>, b: seq<Entry>, e: Entry)
    requires Apart(a, b)
    requires forall i :: 0 <= i < |a| ==> a[i].serial < e.serial
    requires forall i :: 0 <= i < |b| ==> b[i].serial < e.serial
    ensures Apart(a + [e], b) && Apart(a, b + [e])
  {
  }

  lemma AppendKeepsGood(c: Cache, key: Key, json: string)
    requires Good(c)
    ensures Good(Append(c, key, json).1)
  {
    InsertKeepsGood(c, key, json);
  }

  lemma InsertKeepsGood(c: Cache, key: Key, json: string)
    requires Good(c)
    ensures Good(Insert(c, key, json))
  {
    var e := Entry(key, json, c.serial, false);
    assert Numbered(c.a, c.serial + 1, c.out) && Numbered(c.a + [e], c.serial + 1, c.out) by {
      NumberedAppend(c.a, c.serial, c.out, e);
    }
    assert Numbered(c.b, c.serial + 1, c.out) && Numbered(c.b + [e], c.serial + 1, c.out) by {
      NumberedAppend(c.b, c.serial, c.out, e);
    }
    assert Apart(c.a + [e], c.b) && Apart(c.a, c.b + [e]) by { ApartAppend(c.a, c.b, e); }
    assert SentOnce(c.out, c.serial + 1);
    if c.flag < 0 {
      assert Insert(c, key, json) == c.(a := c.a + [e], serial := c.serial + 1);
    } else {
      assert Insert(c, key, json) == c.(b := c.b + [e], serial := c.serial + 1);
    }
  }

  /** Over every run no entry is sent twice, and what is sent is what was appended. */
  lemma {:induction false} RunKeepsGood(c: Cache, es: seq<Event>)
    requires Good(c)
    ensures Good(Run(c, es))
    decreases |es|
  {
    if es != [] {
      match es[0]
      case Appending(key, json) => AppendKeepsGood(c, key, json); RunKeepsGood(Apply(c, es[0]), es[1..]);
      case Checking(key) => CheckKeepsGood(c, key); RunKeepsGood(Apply(c, es[0]), es[1..]);
      case PeriodEnd => RunKeepsGood(Apply(c, es[0]), es[1..]);
    }
  }

  lemma EveryRunSendsOnce(es: seq<Event>)
    ensures SentOnce(Run(INITIAL, es).out, Run(INITIAL, es).serial) && Good(Run(INITIAL, es))
  {
    RunKeepsGood(INITIAL, es);
  }

  // ----- what a lookup reaches

  /** A key is found exactly if A holds it, or B holds it and A has nothing in its bucket. */
  lemma LookupExact(c: Cache, key: Key)
    ensures Lookup(c, key).Some? <==>
      || (exists i :: 0 <= i < |c.a| && c.a[i].key == key)
      || ((exists i :: 0 <= i < |c.b| && c.b[i].key == key)
          && forall i :: 0 <= i < |c.a| ==> c.a[i].key.pos != key.pos)
  {
    NothingLater(c.a, |c.a|, key);
    NothingLater(c.b, |c.b|, key);
  }

  /** The latest entry with the key, in generation A, or in B if A has nothing in its bucket. */
  predicate Reached(c: Cache, key: Key, g: Gen, i: nat) {
    var log := if g == A then c.a else c.b;
    && i < |log| && log[i].key == key
    && (forall j :: i < j < |log| ==> log[j].key != key)
    && (g == B ==> forall j :: 0 <= j < |c.a| ==> c.a[j].key.pos != key.pos)
  }

  lemma ReachedExact(c: Cache, key: Key)
    ensures Lookup(c, key).Some? ==> Reached(c, key, Lookup(c, key).value.0, Lookup(c, key).value.1)
    ensures forall g, i: nat :: Reached(c, key, g, i) ==> Lookup(c, key) == Some((g, i))
  {
    NothingLater(c.a, |c.a|, key);
    FoundLatest(c.a, |c.a|, key);
    FoundLatest(c.b, |c.b|, key);
    forall g, i: nat | Reached(c, key, g, i) ensures Lookup(c, key) == Some((g, i)) {
      ReachedFound(c, key, g, i);
    }
  }

  lemma ReachedFound(c: Cache, key: Key, g: Gen, i: nat)
    requires Reached(c, key, g, i)
    ensures Lookup(c, key) == Some((g, i))
  {
    var log := Log(c, g);
    NothingLater(c.a, |c.a|, key);
    FoundLatest(log, |log|, key);
    var r := FindIn(log, |log|, key);
    assert r.Some? && r.value <= i && !(r.value < i);
    assert g == A ==> Occupied(c.a, key.pos);
  }

  lemma {:induction false} FoundLatest(log: seq<Entry>, n: nat, key: Key)
    requires n <= |log|
    ensures var r := FindIn(log, n, key);
      if r.Some? then forall j :: r.value < j < n ==> log[j].key != key else forall j :: 0 <= j < n ==> log[j].key != key
  {
    if n > 0 { FoundLatest(log, n - 1, key); }
  }

  /**
   A parent check answers -1 when no entry is reached, -3 when the one reached was sent before, and
   -2 when it sends it now; then the message goes out, the entry is marked, and nothing else changes.
   */
  lemma CheckExact(c: Cache, key: Key)
    ensures (forall g, i: nat :: !Reached(c, key, g, i)) ==> Check(c, key) == (-1, c)
    ensures forall g, i: nat :: Reached(c, key, g, i) ==>
      var log := if g == A then c.a else c.b;
      if log[i].sent then Check(c, key) == (-3, c)
      else
        var marked := log[i := Entry(key, log[i].json, log[i].serial, true)];
        var out := c.out + [Message(log[i].serial, log[i].json)];
        Check(c, key) == (-2, if g == A then Cache(c.flag, marked, c.b, c.serial, out)
                              else Cache(c.flag, c.a, marked, c.serial, out))
  {
    ReachedExact(c, key);
  }

  /**
   An append answers the bucket; it adds an entry, not yet sent, at the end of generation A if the
   flag is negative and of B otherwise, unless an entry with the key is reached.
   */
  lemma AppendExact(c: Cache, key: Key, json: string)
    ensures (exists g, i: nat :: Reached(c, key, g, i)) ==> Append(c, key, json) == (key.pos, c)
    ensures (forall g, i: nat :: !Reached(c, key, g, i)) ==>
      var e := Entry(key, json, c.serial, false);
      Append(c, key, json) == (key.pos, if c.flag < 0 then Cache(c.flag, c.a + [e], c.b, c.serial + 1, c.out)
                                        else Cache(c.flag, c.a, c.b + [e], c.serial + 1, c.out))
  {
    ReachedExact(c, key);
  }

  /** A positive flag empties A and makes it current, any other empties B and makes that current; A is first. */
  lemma FlipExact(c: Cache)
    requires Good(c)
    ensures Flip(c) == if c.flag > 0 then Cache(-1, [], c.b, c.serial, c.out)
                       else Cache(1, c.a, [], c.serial, c.out)
    ensures INITIAL.flag < 0
  {
  }

  /**
   Right after a page is appended, a check for it sends the page if and only if the page went to
   A or A has nothing in its bucket; otherwise the check finds nothing.
   */
  lemma FreshPageFound(c: Cache, key: Key, json: string)
    requires Good(c) && Lookup(c, key).None?
    ensures var c' := Append(c, key, json).1;
      var (rc, c'') := Check(c', key);
      if Current(c) == A || !Occupied(c.a, key.pos)
      then rc == -2 && c''.out == c.out + [Message(c.serial, json)]
      else rc == -1 && c'' == c'
  {
    var g := Current(c);
    var c' := Append(c, key, json).1;
    var log' := Log(c', g);
    assert FindIn(log', |log'|, key) == Some(|Log(c, g)|);
    assert g == A ==> LastAt(c'.a, |c'.a|, key.pos) == Some(|c.a|);
  }

  // ----- what setting a sent mark leaves as it was

  function Sent(log: seq<Entry>, i: nat): seq<Entry>
    requires i < |log|
  {
    log[i := log[i].(sent := true)]
  }

  lemma {:induction false} LastAtSent(log: seq<Entry>, i: nat, n: nat, pos: nat)
    requires i < |log| && n <= |log|
    ensures LastAt(Sent(log, i), n, pos) == LastAt(log, n, pos)
  {
    if n > 0 { LastAtSent(log, i, n - 1, pos); }
  }

  lemma {:induction false} FindInSent(log: seq<Entry>, i: nat, n: nat, key: Key)
    requires i < |log| && n <= |log|
    ensures FindIn(Sent(log, i), n, key) == FindIn(log, n, key)
  {
    if n > 0 { FindInSent(log, i, n - 1, key); }
  }

  lemma SendKeepsLookup(c: Cache, g: Gen, i: nat, key: Key)
    requires i < |Log(c, g)|
    ensures var c' := Send(c, g, i);
      && Lookup(c', key) == Lookup(c, key)
      && Occupied(c'.a, key.pos) == Occupied(c.a, key.pos)
  {
    LastAtSent(Log(c, g), i, |Log(c, g)|, key.pos);
    FindInSent(Log(c, g), i, |Log(c, g)|, key);
  }

  /** A check for one key changes neither what a lookup of any key finds nor where pages go. */
  lemma CheckKeepsLookup(c: Cache, checked: Key, key: Key)
    ensures var c' := Check(c, checked).1;
      && Lookup(c', key) == Lookup(c, key)
      && Occupied(c'.a, key.pos) == Occupied(c.a, key.pos)
      && c'.flag == c.flag && c'.serial == c.serial
      && |c'.a| == |c.a| && |c'.b| == |c.b|
  {
    if Lookup(c, checked).Some? {
      var (g, i) := Lookup(c, checked).value;
      SendKeepsLookup(c, g, i, key);
    }
  }

  // ----- keys that are held twice

  predicate HasKey(log: seq<Entry>, key: Key) {
    exists i :: 0 <= i < |log| && log[i].key == key
  }

  predicate Held(c: Cache, key: Key) {
    HasKey(c.a, key) || HasKey(c.b, key)
  }

  /** The key is in generation B, and other keys of its bucket in generation A keep it from being found. */
  predicate Hidden(c: Cache, key: Key) {
    HasKey(c.b, key) && !HasKey(c.a, key) && Occupied(c.a, key.pos)
  }

  /** No key is held twice. */
  predicate Distinct(c: Cache) {
    && (forall i, j :: 0 <= i < j < |c.a| ==> c.a[i].key != c.a[j].key)
    && (forall i, j :: 0 <= i < j < |c.b| ==> c.b[i].key != c.b[j].key)
    && (forall i, j :: 0 <= i < |c.a| && 0 <= j < |c.b| ==> c.a[i].key != c.b[j].key)
  }

  lemma HeldFound(c: Cache, key: Key)
    ensures Held(c, key) <==> Lookup(c, key).Some? || Hidden(c, key)
    ensures Hidden(c, key) ==> Lookup(c, key).None?
  {
    NothingLater(c.a, |c.a|, key);
    NothingLater(c.b, |c.b|, key);
  }

  /** An append remembers a key that is still held a second time exactly if the key is hidden. */
  lemma SecondEntryExact(c: Cache, key: Key, json: string)
    ensures Held(c, key) && Append(c, key, json).1 == Insert(c, key, json) <==> Hidden(c, key)
  {
    HeldFound(c, key);
    assert Insert(c, key, json).serial == c.serial + 1;
  }

  lemma InsertDistinct(c: Cache, key: Key, json: string)
    requires Distinct(c)
    ensures Distinct(Insert(c, key, json)) <==> !Held(c, key)
  {
    var e := Entry(key, json, c.serial, false);
    if c.flag < 0 {
      assert (c.a + [e])[|c.a|] == e && forall i :: 0 <= i < |c.a| ==> (c.a + [e])[i] == c.a[i];
    } else {
      assert (c.b + [e])[|c.b|] == e && forall i :: 0 <= i < |c.b| ==> (c.b + [e])[i] == c.b[i];
    }
  }

  lemma AppendDistinct(c: Cache, key: Key, json: string)
    requires Distinct(c)
    ensures Distinct(Append(c, key, json).1) <==> !Hidden(c, key)
  {
    HeldFound(c, key);
    InsertDistinct(c, key, json);
  }

  lemma CheckDistinct(c: Cache, key: Key)
    requires Distinct(c)
    ensures Distinct(Check(c, key).1)
  {
    if Lookup(c, key).Some? {
      var (g, i) := Lookup(c, key).value;
      assert forall k :: 0 <= k < |Log(c, g)| ==> Sent(Log(c, g), i)[k].key == Log(c, g)[k].key;
    }
  }

  lemma EventDistinct(c: Cache, e: Event)
    requires Distinct(c)
    ensures Distinct(Apply(c, e)) <==> !(e.Appending? && Hidden(c, e.key))
  {
    match e
    case Appending(key, json) => AppendDistinct(c, key, json);
    case Checking(key) => CheckDistinct(c, key);
    case PeriodEnd =>
  }

  /** No append of the run meets a hidden key. */
  predicate NoneHidden(c: Cache, es: seq<Event>)
    decreases |es|
  {
    es != [] ==> (es[0].Appending? ==> !Hidden(c, es[0].key)) && NoneHidden(Apply(c, es[0]), es[1..])
  }

  /** No key is held twice at any time of the run. */
  predicate AlwaysDistinct(c: Cache, es: seq<Event>)
    decreases |es|
  {
    Distinct(c) && (es != [] ==> AlwaysDistinct(Apply(c, es[0]), es[1..]))
  }

  /** Over a run no key is ever held twice if and only if no append of the run meets a hidden key. */
  lemma {:induction false} DistinctExact(c: Cache, es: seq<Event>)
    requires Distinct(c)
    ensures AlwaysDistinct(c, es) <==> NoneHidden(c, es)
    decreases |es|
  {
    if es != [] {
      EventDistinct(c, es[0]);
      if Distinct(Apply(c, es[0])) {
        DistinctExact(Apply(c, es[0]), es[1..]);
      } else {
        assert !AlwaysDistinct(Apply(c, es[0]), es[1..]);
      }
    }
  }

  /** While no key is held twice, a page that was sent and is still held is not sent again. */
  lemma HeldSentOnce(c: Cache, g: Gen, i: nat)
    requires Distinct(c) && i < |Log(c, g)| && Log(c, g)[i].sent
    ensures Check(c, Log(c, g)[i].key).1 == c
  {
  }

  lemma EventKeepsSent(c: Cache, ev: Event, g: Gen, i: nat)
    requires i < |Log(c, g)| && Log(c, g)[i].sent
    requires ev.PeriodEnd? ==> Current(c) == g && Good(c)
    ensures i < |Log(Apply(c, ev), g)| && Log(Apply(c, ev), g)[i] == Log(c, g)[i]
  {
  }

  /** The same over whole runs: once sent, a page is not sent again for as long as its entry is held. */
  lemma {:induction false} SentPageStays(c: Cache, es: seq<Event>, g: Gen, i: nat)
    requires Good(c) && AlwaysDistinct(c, es) && i < |Log(c, g)| && Log(c, g)[i].sent
    requires Flips(es) <= if Current(c) == g then 1 else 0
    ensures var c' := Run(c, es);
      && i < |Log(c', g)| && Log(c', g)[i] == Log(c, g)[i]
      && Check(c', Log(c, g)[i].key).1 == c'
    decreases |es|
  {
    if es == [] {
      HeldSentOnce(c, g, i);
    } else {
      RunKeepsGood(c, [es[0]]);
      assert Run(c, [es[0]]) == Apply(c, es[0]);
      EventKeepsSent(c, es[0], g, i);
      EventKeepsEntry(c, es[0], g, i, Log(c, g)[i]);
      SentPageStays(Apply(c, es[0]), es[1..], g, i);
    }
  }

  /**
   Without the condition a page is sent twice: it is sent from generation B, another page of its
   bucket goes to generation A, and the page is remembered and sent again while B still holds it.
   */
  lemma PageSentTwice(key: Key, other: Key, json: string)
    requires other.pos == key.pos && other != key
    ensures var c := Run(INITIAL, [PeriodEnd, Appending(key, json), Checking(key), PeriodEnd,
                                   Appending(other, json), Appending(key, json), Checking(key)]);
      c.out == [Message(0, json), Message(2, json)] && HasKey(c.b, key)
  {
    var e, f, h := Entry(key, json, 0, true), Entry(other, json, 1, false), Entry(key, json, 2, false);
    var out := [Message(0, json)];
    var c := Cache(-1, [], [e], 1, out);
    var es := [Appending(other, json), Appending(key, json), Checking(key)];
    assert Run(INITIAL, [PeriodEnd, Appending(key, json), Checking(key), PeriodEnd] + es) == Run(c, es) by {
      RunFour(INITIAL, PeriodEnd, Appending(key, json), Checking(key), PeriodEnd, es);
      SentFromB(key, json);
    }
    assert Run(c, es) == Check(Cache(-1, [f, h], [e], 3, out), key).1 by {
      RunThree(c, Appending(other, json), Appending(key, json), Checking(key));
      HiddenAppends(e, f, h, out);
    }
    SentFromA(e, f, h, out);
    HasOnly(e);
    assert [PeriodEnd, Appending(key, json), Checking(key), PeriodEnd] + es
        == [PeriodEnd, Appending(key, json), Checking(key), PeriodEnd,
            Appending(other, json), Appending(key, json), Checking(key)];
  }

  lemma HasOnly(e: Entry)
    ensures HasKey([e], e.key)
  {
    assert [e][0].key == e.key;
  }

  /** The first half of that run: the page is sent from generation B, and A is empty again. */
  lemma SentFromB(key: Key, json: string)
    ensures Flip(Check(Append(Flip(INITIAL), key, json).1, key).1)
         == Cache(-1, [], [Entry(key, json, 0, true)], 1, [Message(0, json)])
  {
    var e := Entry(key, json, 0, false);
    assert Append(Flip(INITIAL), key, json).1 == Cache(1, [], [e], 1, []);
    assert FindIn([e], 1, key) == Some(0);
  }

  lemma HiddenAppends(e: Entry, f: Entry, h: Entry, out: seq<Message>)
    requires e.key == h.key != f.key && f.key.pos == e.key.pos && f.serial == 1 && h.serial == 2 && !f.sent && !h.sent
    ensures Append(Append(Cache(-1, [], [e], 1, out), f.key, f.json).1, h.key, h.json).1 == Cache(-1, [f, h], [e], 3, out)
  {
    assert FindIn([e], 0, f.key) == None;
    assert Append(Cache(-1, [], [e], 1, out), f.key, f.json).1 == Cache(-1, [f], [e], 2, out);
    assert FindIn([f], 0, h.key) == None;
    assert [f] + [h] == [f, h];
  }

  lemma SentFromA(e: Entry, f: Entry, h: Entry, out: seq<Message>)
    requires !h.sent
    ensures var c := Check(Cache(-1, [f, h], [e], 3, out), h.key).1;
      c.b == [e] && c.out == out + [Message(h.serial, h.json)]
  {
    assert FindIn([f, h], 2, h.key) == Some(1);
  }

  lemma RunThree(c: Cache, e1: Event, e2: Event, e3: Event)
    ensures Run(c, [e1, e2, e3]) == Apply(Apply(Apply(c, e1), e2), e3)
  {
    RunTwo(c, e1, e2, [e3]);
    RunStep(Apply(Apply(c, e1), e2), e3, []);
    assert [e1, e2, e3] == [e1, e2] + [e3] && [e3] == [e3] + [];
  }

  lemma RunFour(c: Cache, e1: Event, e2: Event, e3: Event, e4: Event, es: seq<Event>)
    ensures Run(c, [e1, e2, e3, e4] + es) == Run(Apply(Apply(Apply(Apply(c, e1), e2), e3), e4), es)
  {
    RunTwo(c, e1, e2, [e3, e4] + es);
    RunTwo(Apply(Apply(c, e1), e2), e3, e4, es);
    assert [e1, e2, e3, e4] + es == [e1, e2] + ([e3, e4] + es);
  }

  lemma RunTwo(c: Cache, e1: Event, e2: Event, es: seq<Event>)
    ensures Run(c, [e1, e2] + es) == Run(Apply(Apply(c, e1), e2), es)
  {
    RunStep(c, e1, [e2] + es);
    RunStep(Apply(c, e1), e2, es);
    assert [e1, e2] + es == [e1] + ([e2] + es);
  }

  lemma RunStep(c: Cache, e: Event, es: seq<Event>)
    ensures Run(c, [e] + es) == Run(Apply(c, e), es)
  {
    assert ([e] + es)[1..] == es;
  }

  // ----- how long a page is remembered

  /** The entry with this serial number stands at index i of a generation. */
  predicate Holds(c: Cache, g: Gen, i: nat, e: Entry) {
    i < |Log(c, g)| && Log(c, g)[i].(sent := e.sent) == e
  }

  lemma EventKeepsEntry(c: Cache, ev: Event, g: Gen, i: nat, e: Entry)
    requires Holds(c, g, i, e)
    requires ev.PeriodEnd? ==> Current(c) == g && Good(c)
    ensures Holds(Apply(c, ev), g, i, e)
    ensures ev.PeriodEnd? ==> Current(Apply(c, ev)) != g && Current(Apply(c, ev)) != Current(c)
    ensures !ev.PeriodEnd? ==> Current(Apply(c, ev)) == Current(c)
  {
  }

  /** A page stays for the rest of its own period and for the whole next one. */
  lemma {:induction false} PageStays(c: Cache, es: seq<Event>, g: Gen, i: nat, e: Entry)
    requires Good(c) && Holds(c, g, i, e)
    requires Flips(es) <= if Current(c) == g then 1 else 0
    ensures Holds(Run(c, es), g, i, e)
    ensures Flips(es) == 0 ==> Current(Run(c, es)) == Current(c)
    ensures Flips(es) == 1 ==> Current(Run(c, es)) != g
    decreases |es|
  {
    if es != [] {
      RunKeepsGood(c, [es[0]]);
      assert Run(c, [es[0]]) == Apply(c, es[0]);
      EventKeepsEntry(c, es[0], g, i, e);
      PageStays(Apply(c, es[0]), es[1..], g, i, e);
    }
  }

  /** The end of the next period empties the generation that held the page. */
  lemma PageGoes(c: Cache, g: Gen)
    requires Good(c) && Current(c) != g
    ensures Log(Flip(c), g) == [] && Current(Flip(c)) == g
    ensures var h := Current(c); Log(Flip(c), h) == Log(c, h)
  {
  }

  /** A page appended in one period is there through the next and gone with the end of that. */
  lemma PageLifetime(c: Cache, key: Key, json: string, es: seq<Event>)
    requires Good(c) && Lookup(c, key).None?
    ensures var g, i, c' := Current(c), |Log(c, Current(c))|, Append(c, key, json).1;
      && (Flips(es) <= 1 ==> Holds(Run(c', es), g, i, Entry(key, json, c.serial, false)))
      && (Flips(es) == 1 ==> Log(Flip(Run(c', es)), g) == [])
  {
    AppendKeepsGood(c, key, json);
    var g, i, c' := Current(c), |Log(c, Current(c))|, Append(c, key, json).1;
    if Flips(es) <= 1 {
      PageStays(c', es, g, i, Entry(key, json, c.serial, false));
      RunKeepsGood(c', es);
    }
  }
}
