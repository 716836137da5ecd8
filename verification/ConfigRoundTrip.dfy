/**
 Saving a tree and loading the file again gives the same tree, with empty values for missing ones,
 exactly when every name is a proper name, every value is free of double quotes, newlines and NUL,
 and every printed line fits the buffer that the loader reads lines into.
 */
module ConfigRoundTrip {
  import opened Options
  import opened ConfigTree
  import opened ConfigText
  import opened Strings

  predicate ValueOk(v: string) {
    '"' !in v && '\n' !in v && '\0' !in v
  }

  predicate ItemOk(level: nat, name: string, value: Option<string>) {
    && NameOk(name)
    && (value.Some? ==> ValueOk(value.value))
    && |ItemText(level, name, value)| <= 1023
  }

  predicate Saveable<T>(t: Tree<T>, level: nat) {
    t.Nil? || (ItemOk(level, t.name, t.value) && Saveable(t.kids, level + 1) && Saveable(t.next, level))
  }

  /** What is read back for a value: a missing one is printed as nothing. */
  function Shown(value: Option<string>): Option<string> {
    Some(if value.Some? then value.value else "")
  }

  /** The tree with an empty value for each missing one. */
  function Filled<T>(t: Tree<T>): Tree<T> {
    match t
    case Nil => Nil
    case Item(id, name, value, kids, next) => Item(id, name, Shown(value), Filled(kids), Filled(next))
  }

  predicate Complete<T>(t: Tree<T>) {
    t.Nil? || (t.value.Some? && Complete(t.kids) && Complete(t.next))
  }

  // ----- reading back one printed item

  /** The column where the name of a printed item ends. */
  function NameEnd(level: nat, name: string): nat {
    4 * level + |name|
  }

  lemma ItemShape(level: nat, name: string, v: string)
    ensures var s, a := ItemText(level, name, Some(v)), NameEnd(level, name);
            && |s| == a + |v| + 5
            && (forall k :: 0 <= k < 4 * level ==> s[k] == ' ')
            && s[4 * level..a] == name
            && s[a] == ' ' && s[a + 1] == '=' && s[a + 2] == ' ' && s[a + 3] == '"'
            && s[a + 4..a + 4 + |v|] == v && s[|s| - 1] == '"'
  {
  }

  /** The level and name are found in any line that starts like the printed item. */
  lemma HeadOfLine(s: string, level: nat, name: string)
    requires NameOk(name)
    requires |s| >= NameEnd(level, name)
    requires forall k :: 0 <= k < 4 * level ==> s[k] == ' '
    requires s[4 * level..NameEnd(level, name)] == name
    requires |s| > NameEnd(level, name) ==> !IsNameChar(s[NameEnd(level, name)])
    ensures Span(s, 0, IsBlank) == 4 * level
    ensures Span(s, 4 * level, IsNameChar) == NameEnd(level, name)
  {
    var n, a := 4 * level, NameEnd(level, name);
    forall k | n <= k < a ensures s[k] == name[k - n] { assert s[n..a][k - n] == name[k - n]; }
    SpanUnique(s, 0, n, IsBlank);
    SpanUnique(s, n, a, IsNameChar);
  }

  lemma ValueAfter(s: string, a: nat)
    requires a + 3 < |s| && s[a] == ' ' && s[a + 1] == '=' && s[a + 2] == ' ' && s[a + 3] == '"'
    ensures ValueText(s, a) == Quoted(s, a + 3)
  {
    SpanUnique(s, a, a + 1, IsSpace);
    SpanUnique(s, a + 2, a + 3, IsSpace);
  }

  lemma ValueOfItem(level: nat, name: string, v: string)
    ensures var s := ItemText(level, name, Some(v));
            ValueText(s, NameEnd(level, name)) == Quoted(s, NameEnd(level, name) + 3)
  {
    ItemShape(level, name, v);
    ValueAfter(ItemText(level, name, Some(v)), NameEnd(level, name));
  }

  lemma ParseFromHead(s: string, level: nat, name: string)
    requires NameOk(name)
    requires Span(s, 0, IsBlank) == 4 * level
    requires Span(s, 4 * level, IsNameChar) == NameEnd(level, name)
    requires s[4 * level..NameEnd(level, name)] == name
    ensures var v := ValueText(s, NameEnd(level, name));
            ParseTrimmed(s) == if v.Some? then Named(level, name, v.value) else Bad
  {
    var n, a := 4 * level, NameEnd(level, name);
    assert s[n] == s[n..a][0] && s[a - 1] == s[n..a][|name| - 1];
    FromName(s, n, a);
  }

  lemma FromName(s: string, n: nat, a: nat)
    requires n < a <= |s| && s[n] != '/' && s[a - 1] != '/'
    ensures var v := ValueText(s, a);
            ParseFrom(s, n, a) == if v.Some? then Named(n / 4, s[n..a], v.value) else Bad
  {
  }

  /** A whole printed line tokenises to its level and name and whatever its quoted part gives. */
  lemma WholeLine(raw: string, level: nat, name: string, v: string)
    requires NameOk(name)
    requires raw == ItemText(level, name, Some(v)) || raw == ItemText(level, name, Some(v)) + "\n"
    ensures var q := Quoted(ItemText(level, name, Some(v)), NameEnd(level, name) + 3);
            ParseLine(raw) == if q.Some? then Named(level, name, q.value) else Bad
  {
    var s, a := ItemText(level, name, Some(v)), NameEnd(level, name);
    ItemShape(level, name, v);
    BackUnique(raw, |raw|, |s|);
    assert raw[..|s|] == s;
    HeadOfLine(s, level, name);
    ParseFromHead(s, level, name);
    ValueOfItem(level, name, v);
  }

  /** The line of an item without a value has its level and its name. */
  lemma BareWhole(raw: string, level: nat, name: string)
    requires NameOk(name)
    requires raw == ItemText(level, name, None) || raw == ItemText(level, name, None) + "\n"
    ensures ParseLine(raw) == Named(level, name, "")
  {
    var s := ItemText(level, name, None);
    BareShape(level, name);
    BackUnique(raw, |raw|, |s|);
    assert raw[..|s|] == s;
    HeadOfLine(s, level, name);
    ParseFromHead(s, level, name);
    SpanUnique(s, |s|, |s|, IsSpace);
  }

  lemma BareShape(level: nat, name: string)
    requires NameOk(name)
    ensures var s := ItemText(level, name, None);
            && |s| == NameEnd(level, name) && (forall k :: 0 <= k < 4 * level ==> s[k] == ' ')
            && s[4 * level..|s|] == name && !IsSpace(s[|s| - 1])
  {
    var s := ItemText(level, name, None);
    assert s == Blanks(4 * level) + name && s[|s| - 1] == name[|name| - 1];
  }

  lemma QuotedExact(s: string, k: nat, v: string)
    requires |s| == k + |v| + 2 && s[k] == '"' && s[k + 1..k + 1 + |v|] == v && s[|s| - 1] == '"'
    ensures Quoted(s, k) == Some(v) <==> '"' !in v
  {
    var q := Find(s, k + 1, '"');
    forall i | 0 <= i < |v| ensures v[i] == s[k + 1 + i] { assert v[i] == s[k + 1..k + 1 + |v|][i]; }
    if '"' !in v {
      FindUnique(s, k + 1, |s| - 1, '"');
      SpanUnique(s, |s|, |s|, IsSpace);
    } else {
      var i :| 0 <= i < |v| && v[i] == '"';
      assert s[k + 1 + i] == '"';
      assert |s[k + 1..q]| < |v|;
    }
  }

  /** The quoted part of a printed line is the value exactly when the value has no quote. */
  lemma QuotedPart(level: nat, name: string, v: string)
    ensures Quoted(ItemText(level, name, Some(v)), NameEnd(level, name) + 3) == Some(v) <==> '"' !in v
  {
    ItemShape(level, name, v);
    QuotedExact(ItemText(level, name, Some(v)), NameEnd(level, name) + 3, v);
  }

  // ----- from texts to lists of entries

  lemma NoNul(s: string)
    requires '\0' !in s
    ensures CString(s) == s
  {
    FindUnique(s, 0, |s|, '\0');
  }

  lemma EntriesCons(c: string, cs: seq<string>)
    ensures Entries([c] + cs) == Join(LineEntries(c), Entries(cs))
  {
    assert ([c] + cs)[1..] == cs;
  }

  /** A line that ends within the buffer is one chunk. */
  lemma ShortLine(line: string, rest: string)
    requires '\n' !in line && '\0' !in line && |line| < LINE_MAX
    ensures Entries(Chunks(line + "\n" + rest)) == Join(LineEntries(line + "\n"), Entries(Chunks(rest)))
  {
    var text := line + "\n" + rest;
    FindUnique(text, 0, |line|, '\n');
    assert text[..|line| + 1] == line + "\n";
    assert text[|line| + 1..] == rest;
    NoNul(line + "\n");
    EntriesCons(line + "\n", Chunks(rest));
  }

  /** A longer line is cut after as many characters as the buffer holds. */
  lemma LongLine(line: string, rest: string)
    requires '\n' !in line && '\0' !in line && |line| >= LINE_MAX
    ensures Entries(Chunks(line + "\n" + rest))
         == Join(LineEntries(line[..LINE_MAX]), Entries(Chunks(line[LINE_MAX..] + "\n" + rest)))
  {
    var text := line + "\n" + rest;
    FindUnique(text, 0, |line|, '\n');
    assert text[..LINE_MAX] == line[..LINE_MAX];
    assert text[LINE_MAX..] == line[LINE_MAX..] + "\n" + rest;
    NoNul(line[..LINE_MAX]);
    EntriesCons(line[..LINE_MAX], Chunks(line[LINE_MAX..] + "\n" + rest));
  }

  /** A text that ends a line is cut in the same way whatever follows it. */
  lemma {:induction false} ChunksAppend(a: string, b: string)
    requires a != "" ==> a[|a| - 1] == '\n'
    ensures Chunks(a + b) == Chunks(a) + Chunks(b)
    decreases |a|
  {
    if a == "" {
      assert a + b == b;
    } else {
      var n := ChunkLen(a);
      SameChunk(a, b);
      CutLonger(a, b, n);
      ChunksAppend(a[n..], b);
      FirstChunk(a, n, Chunks(a[n..]));
      FirstChunk(a + b, n, Chunks(a[n..]) + Chunks(b));
      ChunkMoved(CString(a[..n]), Chunks(a[n..]), Chunks(b));
    }
  }

  lemma FirstChunk(text: string, n: nat, more: seq<string>)
    requires text != "" && n == ChunkLen(text) && more == Chunks(text[n..])
    ensures Chunks(text) == [CString(text[..n])] + more
  {
  }

  lemma ChunkMoved(c: string, x: seq<string>, y: seq<string>)
    ensures [c] + (x + y) == ([c] + x) + y
  {
  }

  lemma CutLonger(a: string, b: string, n: nat)
    requires n <= |a|
    ensures (a + b)[..n] == a[..n] && (a + b)[n..] == a[n..] + b
    ensures a[n..] != "" ==> a[n..][|a[n..]| - 1] == a[|a| - 1]
  {
  }

  lemma SameChunk(a: string, b: string)
    requires a != "" && a[|a| - 1] == '\n'
    ensures ChunkLen(a + b) == ChunkLen(a)
  {
    var nl := Find(a, 0, '\n');
    assert nl < |a|;
    FindUnique(a + b, 0, nl, '\n');
  }

  lemma {:induction false} EntriesAppend(x: seq<string>, y: seq<string>)
    ensures Entries(x + y) == Join(Entries(x), Entries(y))
  {
    if x == [] {
      assert x + y == y;
      JoinAssociative(None, None, Entries(y));
    } else {
      assert (x + y)[1..] == x[1..] + y;
      EntriesAppend(x[1..], y);
      JoinAssociative(LineEntries(x[0]), Entries(x[1..]), Entries(y));
    }
  }

  /** Lines are read one after the other: the entries of a text are those of its lines. */
  lemma LineThenRest(line: string, rest: string)
    ensures Entries(Chunks(line + "\n" + rest)) == Join(Entries(Chunks(line + "\n")), Entries(Chunks(rest)))
  {
    ChunksAppend(line + "\n", rest);
    EntriesAppend(Chunks(line + "\n"), Chunks(rest));
  }

  lemma JoinAssociative(a: Option<seq<Entry>>, b: Option<seq<Entry>>, c: Option<seq<Entry>>)
    ensures Join(a, Join(b, c)) == Join(Join(a, b), c)
    ensures Join(Some([]), c) == c && Join(a, Some([])) == a
  {
    if a.Some? && b.Some? && c.Some? {
      assert a.value + (b.value + c.value) == (a.value + b.value) + c.value;
    }
    assert c.Some? ==> [] + c.value == c.value;
    assert a.Some? ==> a.value + [] == a.value;
  }

  /** Names are proper, and nothing but the end of an item breaks a line. */
  predicate CleanItem(name: string, value: Option<string>) {
    NameOk(name) && (value.Some? ==> '\n' !in value.value && '\0' !in value.value)
  }

  predicate Clean<T>(t: Tree<T>) {
    t.Nil? || (CleanItem(t.name, t.value) && Clean(t.kids) && Clean(t.next))
  }

  function ItemEntries(level: nat, name: string, value: Option<string>): Option<seq<Entry>> {
    Entries(Chunks(ItemText(level, name, value) + "\n"))
  }

  /** The entries of a saved tree, item by item. */
  function SavedEntries<T>(t: Tree<T>, level: nat): Option<seq<Entry>> {
    match t
    case Nil => Some([])
    case Item(_, name, value, kids, next) =>
      Join(ItemEntries(level, name, value), Join(SavedEntries(kids, level + 1), SavedEntries(next, level)))
  }

  lemma CleanText(level: nat, name: string, value: Option<string>)
    requires CleanItem(name, value)
    ensures '\n' !in ItemText(level, name, value) && '\0' !in ItemText(level, name, value)
  {
  }

  lemma {:induction false} SavedThenRest<T>(t: Tree<T>, level: nat, rest: string)
    requires Clean(t)
    ensures Entries(Chunks(SaveText(t, level) + rest)) == Join(SavedEntries(t, level), Entries(Chunks(rest)))
    decreases t
  {
    match t
    case Nil =>
      assert "" + rest == rest;
      JoinAssociative(None, None, Entries(Chunks(rest)));
    case Item(_, name, value, kids, next) =>
      var s := ItemText(level, name, value);
      var after := SaveText(next, level) + rest;
      var below := SaveText(kids, level + 1) + after;
      TextShift(s + "\n", SaveText(kids, level + 1), SaveText(next, level), rest);
      CleanText(level, name, value);
      LineThenRest(s, below);
      SavedThenRest(kids, level + 1, after);
      SavedThenRest(next, level, rest);
      var k, n, r := SavedEntries(kids, level + 1), SavedEntries(next, level), Entries(Chunks(rest));
      JoinShift(ItemEntries(level, name, value), k, n, r);
  }

  lemma TextShift(a: string, b: string, c: string, d: string)
    ensures a + b + c + d == a + (b + (c + d))
  {
  }

  lemma JoinShift(a: Option<seq<Entry>>, b: Option<seq<Entry>>, c: Option<seq<Entry>>, d: Option<seq<Entry>>)
    ensures Join(a, Join(b, Join(c, d))) == Join(Join(a, Join(b, c)), d)
  {
    JoinAssociative(b, c, d);
    JoinAssociative(a, Join(b, c), d);
  }

  // ----- a printed item that fits is read back

  lemma EmptyLine()
    ensures LineEntries("\n") == Some([])
    ensures Entries(Chunks("\n")) == Some([])
  {
    BackUnique("\n", 1, 0);
    assert "\n"[..0] == "";
    assert "" + "\n" == "\n" && "\n" + "" == "\n";
    EntriesCons("\n", []);
    ShortLine("", "");
    assert Chunks("") == [];
    JoinAssociative(None, None, Some([]));
  }

  lemma ItemReadBack(level: nat, name: string, value: Option<string>)
    requires ItemOk(level, name, value)
    ensures ItemEntries(level, name, value) == Some([Entry(level, name, Shown(value))])
  {
    var s := ItemText(level, name, value);
    CleanText(level, name, value);
    if |s| < LINE_MAX {
      ShortAlone(s);
      WholeItem(s + "\n", level, name, value);
    } else {
      FullAlone(s);
      WholeItem(s, level, name, value);
    }
  }

  lemma WholeItem(raw: string, level: nat, name: string, value: Option<string>)
    requires NameOk(name) && (value.Some? ==> ValueOk(value.value))
    requires raw == ItemText(level, name, value) || raw == ItemText(level, name, value) + "\n"
    ensures ParseLine(raw) == Named(level, name, Shown(value).value)
  {
    match value
    case None => BareWhole(raw, level, name);
    case Some(v) =>
      QuotedPart(level, name, v);
      WholeLine(raw, level, name, v);
  }

  lemma JoinThree(a: seq<Entry>, b: seq<Entry>, c: seq<Entry>)
    ensures Join(Some(a), Join(Some(b), Some(c))) == Some(a + b + c)
  {
    assert a + (b + c) == a + b + c;
  }

  lemma {:induction false} SaveableReadBack<T>(t: Tree<T>, level: nat)
    requires Saveable(t, level)
    ensures Clean(t) && SavedEntries(t, level) == Some(Preorder(Filled(t), level))
    decreases t
  {
    match t
    case Nil =>
    case Item(_, name, value, kids, next) =>
      ItemReadBack(level, name, value);
      SaveableReadBack(kids, level + 1);
      SaveableReadBack(next, level);
      JoinThree([Entry(level, name, Shown(value))], Preorder(Filled(kids), level + 1), Preorder(Filled(next), level));
  }

  lemma SaveableRoundTrip<T>(t: Tree<T>)
    requires Saveable(t, 0)
    ensures LoadText(SaveText(t, 0)) == Some(Erase(Filled(t)))
  {
    SaveableReadBack(t, 0);
    SavedThenRest(t, 0, "");
    assert SaveText(t, 0) + "" == SaveText(t, 0);
    JoinAssociative(SavedEntries(t, 0), None, None);
    BuildInverts(Filled(t));
  }

  // ----- every loaded tree is clean

  predicate SoundEntry(e: Entry) {
    e.value.Some? && CleanItem(e.name, e.value)
  }

  /** The only newline of a chunk is its last character. */
  predicate OneLine(c: string) {
    '\0' !in c && forall k :: 0 <= k < |c| - 1 ==> c[k] != '\n'
  }

  lemma {:induction false} ChunksAreLines(text: string)
    ensures forall i :: 0 <= i < |Chunks(text)| ==> OneLine(Chunks(text)[i])
    decreases |text|
  {
    if text != "" {
      ChunksAreLines(text[ChunkLen(text)..]);
      var raw := text[..ChunkLen(text)];
      assert forall k :: 0 <= k < |raw| - 1 ==> raw[k] == text[k] != '\n';
      assert OneLine(CString(raw));
    }
  }

  lemma ParsedValueInLine(s: string, i: nat)
    requires i <= |s|
    ensures ValueText(s, i).Some? ==> forall x :: x in ValueText(s, i).value ==> x in s
  {
  }

  lemma TrimmedSound(s: string)
    requires '\0' !in s && '\n' !in s && ParseTrimmed(s).Named?
    ensures var l := ParseTrimmed(s); SoundEntry(Entry(l.level, l.name, Some(l.text)))
  {
    var n := Span(s, 0, IsBlank);
    FromSound(s, n, Span(s, n, IsNameChar));
  }

  lemma FromSound(s: string, n: nat, e: nat)
    requires '\0' !in s && '\n' !in s && n <= e <= |s| && forall k :: n <= k < e ==> IsNameChar(s[k])
    requires ParseFrom(s, n, e).Named?
    ensures var l := ParseFrom(s, n, e); SoundEntry(Entry(l.level, l.name, Some(l.text)))
  {
    NameSlice(s, n, e);
    ParsedValueInLine(s, e);
  }

  lemma LineSound(c: string)
    requires OneLine(c) && ParseLine(c).Named?
    ensures var l := ParseLine(c); SoundEntry(Entry(l.level, l.name, Some(l.text)))
  {
    TrimmedClean(c);
    TrimmedSound(c[..Back(c, |c|)]);
  }

  lemma TrimmedClean(c: string)
    requires OneLine(c)
    ensures var s := c[..Back(c, |c|)]; '\0' !in s && '\n' !in s
  {
    var s := c[..Back(c, |c|)];
    assert forall k :: 0 <= k < |s| ==> s[k] == c[k];
    assert |s| == |c| ==> s == "" || !IsSpace(c[|c| - 1]);
  }

  predicate AllSound(es: seq<Entry>) {
    forall i :: 0 <= i < |es| ==> SoundEntry(es[i])
  }

  lemma LineEntriesSound(c: string)
    requires OneLine(c)
    ensures LineEntries(c).Some? ==> AllSound(LineEntries(c).value)
  {
    if ParseLine(c).Named? { LineSound(c); }
  }

  lemma JoinSound(a: Option<seq<Entry>>, b: Option<seq<Entry>>)
    requires (a.Some? ==> AllSound(a.value)) && (b.Some? ==> AllSound(b.value))
    ensures Join(a, b).Some? ==> AllSound(Join(a, b).value)
  {
  }

  lemma {:induction false} EntriesSound(chunks: seq<string>)
    requires forall i :: 0 <= i < |chunks| ==> OneLine(chunks[i])
    ensures Entries(chunks).Some? ==> AllSound(Entries(chunks).value)
  {
    if chunks != [] {
      EntriesSound(chunks[1..]);
      LineEntriesSound(chunks[0]);
      JoinSound(LineEntries(chunks[0]), Entries(chunks[1..]));
    }
  }

  lemma {:induction false} SoundPreorderClean<T>(t: Tree<T>, level: nat)
    requires AllSound(Preorder(t, level))
    ensures Clean(t) && Complete(t)
    decreases t
  {
    match t
    case Nil =>
    case Item(_, name, value, kids, next) =>
      SoundSplits(Entry(level, name, value), Preorder(kids, level + 1), Preorder(next, level));
      SoundPreorderClean(kids, level + 1);
      SoundPreorderClean(next, level);
  }

  lemma SoundSplits(e: Entry, k: seq<Entry>, n: seq<Entry>)
    requires AllSound([e] + k + n)
    ensures SoundEntry(e) && AllSound(k) && AllSound(n)
  {
    var es := [e] + k + n;
    assert es[0] == e;
    forall i | 0 <= i < |k| ensures SoundEntry(k[i]) { assert k[i] == es[1 + i]; }
    forall i | 0 <= i < |n| ensures SoundEntry(n[i]) { assert n[i] == es[1 + |k| + i]; }
  }

  lemma {:induction false} ErasePreorder<T>(t: Tree<T>, level: nat)
    ensures Preorder(Erase(t), level) == Preorder(t, level)
    decreases t
  {
    match t
    case Nil =>
    case Item(_, name, value, kids, next) =>
      ErasePreorder(kids, level + 1);
      ErasePreorder(next, level);
  }

  // ----- only a printed item that fits is read back

  /** A chunk with nothing but blanks before a name character names an item or is bad. */
  lemma NamedOrBad(c: string, n: nat)
    requires n < |c| && IsNameChar(c[n])
    requires forall k :: 0 <= k < n ==> c[k] == ' '
    ensures ParseLine(c).Bad? || (ParseLine(c).Named? && 4 * ParseLine(c).level == n)
  {
    var s := c[..Back(c, |c|)];
    assert |s| > n;
    SpanUnique(s, 0, n, IsBlank);
  }

  lemma BlankChunk(c: string)
    requires forall k :: 0 <= k < |c| ==> c[k] == ' '
    ensures LineEntries(c) == Some([])
  {
    BackUnique(c, |c|, 0);
    assert c[..0] == "";
  }

  /** There is a first entry, at a lower level than n blanks make if they fill a buffer. */
  predicate Leads(f: Option<seq<Entry>>, n: nat) {
    && f.Some? && f.value != []
    && 4 * f.value[0].level <= n
    && (n >= LINE_MAX ==> 4 * f.value[0].level < n)
  }

  /** After n blanks the line goes on with a name. */
  predicate NameAfter(line: string, n: nat) {
    n < |line| && IsNameChar(line[n]) && forall k :: 0 <= k < n ==> line[k] == ' '
  }

  predicate LeadsOrBad(f: Option<seq<Entry>>, n: nat) {
    f.None? || Leads(f, n)
  }

  lemma ChunkLeads(c: string, n: nat, rest: Option<seq<Entry>>)
    requires n < LINE_MAX && NameAfter(c, n)
    ensures LeadsOrBad(Join(LineEntries(c), rest), n)
  {
    NamedOrBad(c, n);
  }

  lemma BlankThen(c: string, rest: Option<seq<Entry>>, n: nat)
    requires (forall k :: 0 <= k < |c| ==> c[k] == ' ') && n >= LINE_MAX
    requires LeadsOrBad(rest, n - LINE_MAX)
    ensures LeadsOrBad(Join(LineEntries(c), rest), n)
  {
    BlankChunk(c);
    JoinAssociative(None, None, rest);
  }

  lemma ShortLeads(line: string, n: nat)
    requires '\n' !in line && '\0' !in line && |line| < LINE_MAX && NameAfter(line, n)
    ensures LeadsOrBad(Entries(Chunks(line + "\n")), n)
  {
    assert line + "\n" + "" == line + "\n";
    ShortLine(line, "");
    ChunkLeads(line + "\n", n, Entries(Chunks("")));
  }

  lemma LongEntries(line: string)
    requires '\n' !in line && '\0' !in line && |line| >= LINE_MAX
    ensures Entries(Chunks(line + "\n"))
         == Join(LineEntries(line[..LINE_MAX]), Entries(Chunks(line[LINE_MAX..] + "\n")))
  {
    assert line + "\n" + "" == line + "\n";
    assert line[LINE_MAX..] + "\n" + "" == line[LINE_MAX..] + "\n";
    LongLine(line, "");
  }

  lemma {:induction false} LeadingItem(line: string, n: nat)
    requires '\n' !in line && '\0' !in line && NameAfter(line, n)
    ensures LeadsOrBad(Entries(Chunks(line + "\n")), n)
    decreases n
  {
    if |line| < LINE_MAX {
      ShortLeads(line, n);
    } else {
      LongEntries(line);
      var head, tail := line[..LINE_MAX], line[LINE_MAX..];
      if n < LINE_MAX {
        ChunkLeads(head, n, Entries(Chunks(tail + "\n")));
      } else {
        LeadingItem(tail, n - LINE_MAX);
        BlankThen(head, Entries(Chunks(tail + "\n")), n);
      }
    }
  }

  /** The part of a printed line that fits the buffer, when the value's quote fits too. */
  lemma CutInValue(level: nat, name: string, v: string, u: string)
    requires NameOk(name)
    requires u <= ItemText(level, name, Some(v)) && NameEnd(level, name) + 4 <= |u|
    requires |u| < |ItemText(level, name, Some(v))|
    ensures ValueText(u, NameEnd(level, name)) != Some(v)
  {
    var a := NameEnd(level, name);
    ItemShape(level, name, v);
    ValueAfter(u, a);
    QuotedCut(u, a + 3, v);
  }

  /** A text that ends before the closing quote could stand gives a shorter value or none. */
  lemma QuotedCut(u: string, k: nat, v: string)
    requires k < |u| <= k + 1 + |v|
    ensures Quoted(u, k) != Some(v)
  {
    var q := Find(u, k + 1, u[k]);
    assert q < |u| ==> |u[k + 1..q]| < |v|;
  }

  /** The same when the cut comes before the quote: nothing is read as the value. */
  lemma CutBeforeValue(level: nat, name: string, v: string, u: string)
    requires NameOk(name)
    requires u <= ItemText(level, name, Some(v))
    requires |u| == NameEnd(level, name) || |u| == NameEnd(level, name) + 2
    ensures ValueText(u, NameEnd(level, name)) == Some("")
  {
    var a := NameEnd(level, name);
    ItemShape(level, name, v);
    if |u| == a {
      SpanUnique(u, a, a, IsSpace);
    } else {
      SpanUnique(u, a, a + 1, IsSpace);
      SpanUnique(u, a + 2, a + 2, IsSpace);
      FindUnique(u, a + 2, a + 2, '#');
      assert u[a + 2..] == "";
    }
  }

  lemma TrimmedName(u: string, level: nat, name: string)
    requires ParseTrimmed(u).Named? && ParseTrimmed(u).level == level && ParseTrimmed(u).name == name
    ensures NameEnd(level, name) <= |u| && Span(u, 4 * level, IsNameChar) == NameEnd(level, name)
    ensures ValueText(u, NameEnd(level, name)) == Some(ParseTrimmed(u).text)
  {
  }

  /** A cut line still gives its item only if the value is empty and the quotes come later. */
  lemma CutLine(level: nat, name: string, v: string)
    requires NameOk(name) && |ItemText(level, name, Some(v))| > LINE_MAX
    requires ParseLine(ItemText(level, name, Some(v))[..LINE_MAX]) == Named(level, name, v)
    ensures v == "" && LINE_MAX < NameEnd(level, name) + 4
  {
    var s, a := ItemText(level, name, Some(v)), NameEnd(level, name);
    var c := s[..LINE_MAX];
    var u := c[..Back(c, LINE_MAX)];
    TrimmedName(u, level, name);
    if LINE_MAX >= a + 4 {
      LateCut(s, c, level, name, v);
    } else if LINE_MAX >= a + 2 {
      MiddleCut(s, c, level, name, v);
    } else {
      EarlyCut(s, c, level, name, v);
    }
  }

  lemma LateCut(s: string, c: string, level: nat, name: string, v: string)
    requires NameOk(name) && s == ItemText(level, name, Some(v)) && |s| > LINE_MAX && c == s[..LINE_MAX]
    requires LINE_MAX >= NameEnd(level, name) + 4
    ensures var u := c[..Back(c, LINE_MAX)];
      NameEnd(level, name) <= |u| && ValueText(u, NameEnd(level, name)) != Some(v)
  {
    ItemShape(level, name, v);
    assert c[NameEnd(level, name) + 3] == '"';
    CutInValue(level, name, v, c[..Back(c, LINE_MAX)]);
  }

  lemma MiddleCut(s: string, c: string, level: nat, name: string, v: string)
    requires NameOk(name) && s == ItemText(level, name, Some(v)) && |s| > LINE_MAX && c == s[..LINE_MAX]
    requires NameEnd(level, name) + 2 <= LINE_MAX < NameEnd(level, name) + 4
    ensures var u := c[..Back(c, LINE_MAX)];
      NameEnd(level, name) <= |u| && ValueText(u, NameEnd(level, name)) == Some("")
  {
    var a := NameEnd(level, name);
    ItemShape(level, name, v);
    assert c[a + 1] == '=';
    BackUnique(c, LINE_MAX, a + 2);
    CutBeforeValue(level, name, v, c[..a + 2]);
  }

  lemma EarlyCut(s: string, c: string, level: nat, name: string, v: string)
    requires NameOk(name) && s == ItemText(level, name, Some(v)) && |s| > LINE_MAX && c == s[..LINE_MAX]
    requires NameEnd(level, name) <= LINE_MAX < NameEnd(level, name) + 2
    ensures var u := c[..Back(c, LINE_MAX)];
      NameEnd(level, name) <= |u| && ValueText(u, NameEnd(level, name)) == Some("")
  {
    var a := NameEnd(level, name);
    ItemShape(level, name, v);
    assert c[a - 1] == name[|name| - 1] by { assert s[4 * level..a][|name| - 1] == s[a - 1]; }
    BackUnique(c, LINE_MAX, a);
    CutBeforeValue(level, name, v, c[..a]);
  }

  predicate IsJunk(c: char) {
    c == '=' || c == '"'
  }

  /** Text that starts with junk, or with one blank and junk, is no valid line. */
  lemma LeftoverBad(rest: string)
    requires '\n' !in rest && '\0' !in rest && 2 <= |rest| < LINE_MAX && IsJunk(rest[|rest| - 1])
    requires IsJunk(rest[0]) || (rest[0] == ' ' && IsJunk(rest[1]))
    ensures Entries(Chunks(rest + "\n" + "")) == None
  {
    ShortLine(rest, "");
    JunkChunk(rest);
  }

  lemma JunkChunk(rest: string)
    requires 2 <= |rest| && IsJunk(rest[|rest| - 1])
    requires IsJunk(rest[0]) || (rest[0] == ' ' && IsJunk(rest[1]))
    ensures LineEntries(rest + "\n") == None
  {
    var raw := rest + "\n";
    BackUnique(raw, |raw|, |rest|);
    assert raw[..|rest|] == rest;
    JunkLine(rest);
  }

  lemma JunkLine(rest: string)
    requires 2 <= |rest| && (IsJunk(rest[0]) || (rest[0] == ' ' && IsJunk(rest[1])))
    ensures ParseTrimmed(rest) == Bad
  {
    if IsJunk(rest[0]) {
      SpanUnique(rest, 0, 0, IsBlank);
      SpanUnique(rest, 0, 0, IsNameChar);
      SpanUnique(rest, 0, 0, IsSpace);
    } else {
      SpanUnique(rest, 0, 1, IsBlank);
    }
  }

  /** A printed line that is cut is not read back as its item alone. */
  lemma CutItem(level: nat, name: string, v: string)
    requires CleanItem(name, Some(v)) && |ItemText(level, name, Some(v))| > LINE_MAX
    ensures var c := ItemText(level, name, Some(v))[..LINE_MAX];
            ParseLine(c) == Named(level, name, v) ==> ItemEntries(level, name, Some(v)) == None
  {
    var s, a := ItemText(level, name, Some(v)), NameEnd(level, name);
    if ParseLine(s[..LINE_MAX]) == Named(level, name, v) {
      CutLine(level, name, v);
      TrimmedName(s[..LINE_MAX][..Back(s[..LINE_MAX], LINE_MAX)], level, name);
      CleanText(level, name, Some(v));
      TailBad(level, name, v);
      LongLine(s, "");
      assert s + "\n" + "" == s + "\n";
    }
  }

  /** What is left of such a line starts in or before the quotes of the empty value. */
  lemma TailBad(level: nat, name: string, v: string)
    requires CleanItem(name, Some(v)) && |ItemText(level, name, Some(v))| > LINE_MAX && v == ""
    requires NameEnd(level, name) <= LINE_MAX < NameEnd(level, name) + 4
    ensures Entries(Chunks(ItemText(level, name, Some(v))[LINE_MAX..] + "\n" + "")) == None
  {
    var s := ItemText(level, name, Some(v));
    ItemShape(level, name, v);
    CleanText(level, name, Some(v));
    var tail := s[LINE_MAX..];
    assert forall k :: 0 <= k < |tail| ==> tail[k] == s[LINE_MAX + k];
    LeftoverBad(tail);
  }

  /** A printed line that is read back as its item alone has no quote in its value and fits. */
  lemma ItemAlone(level: nat, name: string, value: Option<string>)
    requires CleanItem(name, value)
    requires ItemEntries(level, name, value) == Some([Entry(level, name, Shown(value))])
    requires 4 * level < LINE_MAX
    ensures ItemOk(level, name, value)
  {
    var s := ItemText(level, name, value);
    if |s| > LINE_MAX {
      ItemFirstChunk(level, name, value);
      match value
      case None => BareCut(level, name);
      case Some(v) => CutItem(level, name, v);
    } else if value.Some? {
      ItemWhole(level, name, value.value);
      QuotedPart(level, name, value.value);
    }
  }

  /** A name that does not fit is not read as this name. */
  lemma BareCut(level: nat, name: string)
    requires NameOk(name) && |ItemText(level, name, None)| > LINE_MAX
    ensures ParseLine(ItemText(level, name, None)[..LINE_MAX]) != Named(level, name, "")
  {
    var c := ItemText(level, name, None)[..LINE_MAX];
    if ParseLine(c) == Named(level, name, "") { TrimmedName(c[..Back(c, |c|)], level, name); }
  }

  lemma ItemStarts(level: nat, name: string, value: Option<string>)
    requires NameOk(name)
    ensures var s := ItemText(level, name, value);
      4 * level < |s| && s[4 * level] == name[0] && forall k :: 0 <= k < 4 * level ==> s[k] == ' '
  {
    match value
    case None =>
      BareShape(level, name);
      assert ItemText(level, name, None)[4 * level..][0] == name[0];
    case Some(v) =>
      ItemShape(level, name, v);
      assert ItemText(level, name, Some(v))[4 * level..NameEnd(level, name)][0] == name[0];
  }

  lemma ItemFirstChunk(level: nat, name: string, value: Option<string>)
    requires CleanItem(name, value) && LINE_MAX <= |ItemText(level, name, value)|
    requires ItemEntries(level, name, value) == Some([Entry(level, name, Shown(value))])
    requires 4 * level < LINE_MAX
    ensures ParseLine(ItemText(level, name, value)[..LINE_MAX]) == Named(level, name, Shown(value).value)
  {
    var s := ItemText(level, name, value);
    CleanText(level, name, value);
    LongEntries(s);
    FirstChunkAlone(level, name, value, Entries(Chunks(s[LINE_MAX..] + "\n")));
  }

  lemma ItemWhole(level: nat, name: string, v: string)
    requires CleanItem(name, Some(v)) && |ItemText(level, name, Some(v))| <= LINE_MAX
    requires ItemEntries(level, name, Some(v)) == Some([Entry(level, name, Some(v))])
    requires 4 * level < LINE_MAX
    ensures Quoted(ItemText(level, name, Some(v)), NameEnd(level, name) + 3) == Some(v)
  {
    var s := ItemText(level, name, Some(v));
    CleanText(level, name, Some(v));
    if |s| == LINE_MAX {
      FullAlone(s);
      WholeLine(s, level, name, v);
    } else {
      ShortAlone(s);
      WholeLine(s + "\n", level, name, v);
    }
  }

  /** A line that ends within the buffer is one chunk with its newline. */
  lemma ShortAlone(s: string)
    requires '\n' !in s && '\0' !in s && |s| < LINE_MAX
    ensures Entries(Chunks(s + "\n")) == LineEntries(s + "\n")
  {
    assert s + "\n" + "" == s + "\n";
    ShortLine(s, "");
    JoinAssociative(LineEntries(s + "\n"), None, None);
  }

  /** A line that just fills the buffer is one chunk, and an empty line follows. */
  lemma FullAlone(s: string)
    requires '\n' !in s && '\0' !in s && |s| == LINE_MAX
    ensures Entries(Chunks(s + "\n")) == LineEntries(s)
  {
    LongEntries(s);
    assert s[..LINE_MAX] == s;
    assert s[LINE_MAX..] + "\n" == "\n";
    EmptyLine();
    JoinAssociative(LineEntries(s), None, None);
  }

  lemma FirstChunkAlone(level: nat, name: string, value: Option<string>, rest: Option<seq<Entry>>)
    requires NameOk(name) && 4 * level < LINE_MAX <= |ItemText(level, name, value)|
    requires Join(LineEntries(ItemText(level, name, value)[..LINE_MAX]), rest)
          == Some([Entry(level, name, Shown(value))])
    ensures ParseLine(ItemText(level, name, value)[..LINE_MAX]) == Named(level, name, Shown(value).value)
  {
    var s := ItemText(level, name, value);
    ItemStarts(level, name, value);
    NamedOrBad(s[..LINE_MAX], 4 * level);
    var e := LineEntries(s[..LINE_MAX]).value;
    assert (e + rest.value)[0] == e[0];
  }

  lemma ItemReadBackOnlyIf(level: nat, name: string, value: Option<string>)
    requires CleanItem(name, value)
    ensures var f := ItemEntries(level, name, value);
      f.Some? ==> f.value != [] && (f.value == [Entry(level, name, Shown(value))] ==> ItemOk(level, name, value))
  {
    var s, f := ItemText(level, name, value), ItemEntries(level, name, value);
    CleanText(level, name, value);
    ItemStarts(level, name, value);
    LeadingItem(s, 4 * level);
    if f == Some([Entry(level, name, Shown(value))]) {
      ItemAlone(level, name, value);
    }
  }

  lemma {:induction false} OnlySaveableReadBack<T>(t: Tree<T>, level: nat)
    requires Clean(t)
    ensures var fs, es := SavedEntries(t, level), Preorder(Filled(t), level);
      fs.Some? ==> |fs.value| >= |es| && (fs.value == es ==> Saveable(t, level))
    decreases t
  {
    match t
    case Nil =>
    case Item(_, name, value, kids, next) =>
      OnlySaveableReadBack(kids, level + 1);
      OnlySaveableReadBack(next, level);
      ItemReadBackOnlyIf(level, name, value);
      var f, k, n := ItemEntries(level, name, value), SavedEntries(kids, level + 1), SavedEntries(next, level);
      var k', n' := Preorder(Filled(kids), level + 1), Preorder(Filled(next), level);
      if f.Some? && k.Some? && n.Some? && f.value + (k.value + n.value) == Preorder(Filled(t), level) {
        SplitEqual(f.value, k.value, n.value, Entry(level, name, Shown(value)), k', n');
      }
  }

  lemma SplitEqual(f: seq<Entry>, k: seq<Entry>, n: seq<Entry>, e: Entry, k': seq<Entry>, n': seq<Entry>)
    requires f + (k + n) == [e] + k' + n'
    requires |f| >= 1 && |k| >= |k'| && |n| >= |n'|
    ensures f == [e] && k == k' && n == n'
  {
    var s := f + (k + n);
    assert f == s[..1] && k == s[1..1 + |k|] && n == s[1 + |k|..];
    assert [e] == s[..1] && k' == s[1..1 + |k'|] && n' == s[1 + |k'|..];
  }

  lemma {:induction false} CleanFilled<T>(t: Tree<T>)
    requires Clean(Filled(t))
    ensures Clean(t)
  {
    match t
    case Nil =>
    case Item(_, _, _, kids, next) =>
      CleanFilled(kids);
      CleanFilled(next);
  }

  lemma {:induction false} FilledExact<T>(t: Tree<T>)
    ensures Complete(t) <==> Filled(t) == t
  {
    match t
    case Nil =>
    case Item(_, _, _, kids, next) =>
      FilledExact(kids);
      FilledExact(next);
  }

  /** The entries of a text that gives a tree are its lines, and all of them are sound. */
  lemma LoadedLines<T>(text: string, t: Tree<T>)
    requires LoadText(text) == Some(Erase(t))
    ensures Entries(Chunks(text)) == Some(Preorder(t, 0)) && Clean(t) && Complete(t)
  {
    LoadExact(text);
    ErasePreorder(t, 0);
    ChunksAreLines(text);
    EntriesSound(Chunks(text));
    SoundPreorderClean(t, 0);
  }

  /** Save then load gives the tree, with empty values for missing ones, exactly on the saveable trees. */
  lemma FilledRoundTrip<T>(t: Tree<T>)
    ensures LoadText(SaveText(t, 0)) == Some(Erase(Filled(t))) <==> Saveable(t, 0)
  {
    if Saveable(t, 0) {
      SaveableRoundTrip(t);
    } else if LoadText(SaveText(t, 0)) == Some(Erase(Filled(t))) {
      LoadedLines(SaveText(t, 0), Filled(t));
      CleanFilled(t);
      SavedThenRest(t, 0, "");
      assert SaveText(t, 0) + "" == SaveText(t, 0) && Chunks("") == [];
      JoinAssociative(SavedEntries(t, 0), None, None);
      OnlySaveableReadBack(t, 0);
    }
  }

  /** Save then load is the identity exactly on the saveable trees without missing values. */
  lemma RoundTripExact<T>(t: Tree<T>)
    ensures LoadText(SaveText(t, 0)) == Some(Erase(t)) <==> Saveable(t, 0) && Complete(t)
  {
    if LoadText(SaveText(t, 0)) == Some(Erase(t)) { LoadedLines(SaveText(t, 0), t); }
    FilledExact(t);
    FilledRoundTrip(t);
  }
}
