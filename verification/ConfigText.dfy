/**
 The ZPL text format: how the loader cuts a file into lines and a line into indentation level,
 name and value, and how the saver prints an item. Scanners that advance a read pointer are
 methods with loops; Span is the function they are proved against.
 */
module ConfigText {
  import opened Options
  import opened ConfigTree
  import opened Strings

  /** isspace in the C locale. */
  predicate IsSpace(c: char) {
    c == ' ' || '\U{0009}' <= c <= '\U{000D}'
  }

  predicate IsBlank(c: char) {
    c == ' '
  }

  predicate IsNameChar(c: char) {
    'a' <= c <= 'z' || 'A' <= c <= 'Z' || '0' <= c <= '9' || c in "$-_@.&+/"
  }

  /** Where a scan from i over characters in p stops. */
  function Span(s: string, i: nat, p: char -> bool): (j: nat)
    requires i <= |s|
    ensures i <= j <= |s|
    ensures forall k :: i <= k < j ==> p(s[k])
    ensures j < |s| ==> !p(s[j])
    decreases |s| - i
  {
    if i < |s| && p(s[i]) then Span(s, i + 1, p) else i
  }

  lemma {:induction false} SpanUnique(s: string, i: nat, j: nat, p: char -> bool)
    requires i <= j <= |s|
    requires forall k :: i <= k < j ==> p(s[k])
    requires j < |s| ==> !p(s[j])
    ensures Span(s, i, p) == j
    decreases j - i
  {
    if i < j { SpanUnique(s, i + 1, j, p); }
  }

  /** strchr: the first c at or after i, or the end. */
  function Find(s: string, i: nat, c: char): (j: nat)
    requires i <= |s|
    ensures i <= j <= |s|
    ensures forall k :: i <= k < j ==> s[k] != c
    ensures j < |s| ==> s[j] == c
  {
    Span(s, i, x => x != c)
  }

  lemma FindUnique(s: string, i: nat, j: nat, c: char)
    requires i <= j <= |s|
    requires forall k :: i <= k < j ==> s[k] != c
    requires j < |s| ==> s[j] == c
    ensures Find(s, i, c) == j
  {
    SpanUnique(s, i, j, x => x != c);
  }

  /** Steps back over white space that ends just before j. */
  function Back(s: string, j: nat): (k: nat)
    requires j <= |s|
    ensures k <= j
    ensures forall m :: k <= m < j ==> IsSpace(s[m])
    ensures k > 0 ==> !IsSpace(s[k - 1])
  {
    if j > 0 && IsSpace(s[j - 1]) then Back(s, j - 1) else j
  }

  lemma {:induction false} BackUnique(s: string, j: nat, k: nat)
    requires k <= j <= |s|
    requires forall m :: k <= m < j ==> IsSpace(s[m])
    requires k > 0 ==> !IsSpace(s[k - 1])
    ensures Back(s, j) == k
  {
    if k < j { BackUnique(s, j - 1, k); }
  }

  // ----- one line

  datatype Line =
    | Bad
    | Blank(level: nat)
    | Named(level: nat, name: string, text: string)

  predicate NameOk(name: string) {
    && name != ""
    && (forall k :: 0 <= k < |name| ==> IsNameChar(name[k]))
    && name[0] != '/' && name[|name| - 1] != '/'
  }

  /** Only white space and a comment may follow; false stands for the -1 of the C code. */
  predicate EolnOk(s: string, i: nat)
    requires i <= |s|
  {
    var j := Span(s, i, IsSpace);
    j == |s| || s[j] == '#'
  }

  /** The value after a name; None stands for the NULL of a syntax error. */
  function ValueText(s: string, i: nat): Option<string>
    requires i <= |s|
  {
    var j := Span(s, i, IsSpace);
    if j < |s| && s[j] == '=' then AfterEquals(s, j)
    else if EolnOk(s, j) then Some("") else None
  }

  function AfterEquals(s: string, j: nat): Option<string>
    requires j < |s|
  {
    var k := Span(s, j + 1, IsSpace);
    if k < |s| && (s[k] == '"' || s[k] == '\'') then Quoted(s, k) else Some(Unquoted(s, k))
  }

  /** A quoted value runs to the same quote again; there may be no junk after it. */
  function Quoted(s: string, k: nat): Option<string>
    requires k < |s|
  {
    var q := Find(s, k + 1, s[k]);
    if q < |s| && EolnOk(s, q + 1) then Some(s[k + 1..q]) else None
  }

  /**
   An unquoted value runs to the comment or to the end of the line. A comment that directly
   follows blanks after the '=' is kept whole, because the end mark is then written before the
   place where the value starts.
   */
  function Unquoted(s: string, k: nat): string
    requires k <= |s|
  {
    var c := Find(s, k, '#');
    if c == |s| then s[k..]
    else if Back(s, c) < k then s[k..]
    else s[k..Back(s, c)]
  }

  /** What the loader makes of a line read by fgets, after trimming it. */
  function ParseLine(raw: string): Line {
    ParseTrimmed(raw[..Back(raw, |raw|)])
  }

  function ParseTrimmed(s: string): Line {
    var n := Span(s, 0, IsBlank);
    if n % 4 != 0 then Bad else ParseFrom(s, n, Span(s, n, IsNameChar))
  }

  /** A line whose blanks end at n and whose name, if it has one, ends at e. */
  function ParseFrom(s: string, n: nat, e: nat): Line
    requires n <= e <= |s|
  {
    if e == n then (if EolnOk(s, e) then Blank(n / 4) else Bad)
    else if s[n] == '/' || s[e - 1] == '/' then Bad
    else match ValueText(s, e)
      case None => Bad
      case Some(v) => Named(n / 4, s[n..e], v)
  }

  // ----- the scanners

  method CollectLevel(s: string, start: nat) returns (level: int, readptr: nat)
    requires start <= |s|
    ensures readptr == Span(s, start, IsBlank)
    ensures level == if (readptr - start) % 4 == 0 then (readptr - start) / 4 else -1
  {
    readptr := start;
    while readptr < |s| && s[readptr] == ' '
      invariant start <= readptr <= |s|
      invariant forall k :: start <= k < readptr ==> IsBlank(s[k])
    {
      readptr := readptr + 1;
    }
    SpanUnique(s, start, readptr, IsBlank);
    level := (readptr - start) / 4;
    if level * 4 != readptr - start {
      level := -1;
    }
  }

  lemma NameSlice(s: string, n: nat, e: nat)
    requires n <= e <= |s| && forall k :: n <= k < e ==> IsNameChar(s[k])
    ensures n < e ==> s[n..e][0] == s[n] && s[n..e][e - n - 1] == s[e - 1]
    ensures n < e && s[n] != '/' && s[e - 1] != '/' ==> NameOk(s[n..e])
  {
  }

  /** The name at start; None stands for the documented NULL when it starts or ends with a slash. */
  method CollectName(s: string, start: nat) returns (name: Option<string>, readptr: nat)
    requires start <= |s|
    ensures readptr == Span(s, start, IsNameChar)
    ensures name.Some? ==> name.value == s[start..readptr] && (name.value == "" || NameOk(name.value))
    ensures name.None? ==> readptr > start && (s[start] == '/' || s[readptr - 1] == '/')
  {
    readptr := start;
    while readptr < |s| && IsNameChar(s[readptr])
      invariant start <= readptr <= |s|
      invariant forall k :: start <= k < readptr ==> IsNameChar(s[k])
    {
      readptr := readptr + 1;
    }
    SpanUnique(s, start, readptr, IsNameChar);
    NameSlice(s, start, readptr);
    name := Some(s[start..readptr]);
    if |name.value| > 0 && (name.value[0] == '/' || name.value[|name.value| - 1] == '/') {
      name := None;
    }
  }

  method VerifyEoln(s: string, start: nat) returns (rc: int)
    requires start <= |s|
    ensures rc == if EolnOk(s, start) then 0 else -1
  {
    var readptr := start;
    while readptr < |s|
      invariant start <= readptr <= |s|
      invariant forall k :: start <= k < readptr ==> IsSpace(s[k])
    {
      if IsSpace(s[readptr]) {
        readptr := readptr + 1;
      } else {
        SpanUnique(s, start, readptr, IsSpace);
        if s[readptr] == '#' { return 0; }
        return -1;
      }
    }
    SpanUnique(s, start, readptr, IsSpace);
    return 0;
  }

  method SkipSpace(s: string, start: nat) returns (readptr: nat)
    requires start <= |s|
    ensures readptr == Span(s, start, IsSpace)
  {
    readptr := start;
    while readptr < |s| && IsSpace(s[readptr])
      invariant start <= readptr <= |s|
      invariant forall k :: start <= k < readptr ==> IsSpace(s[k])
    {
      readptr := readptr + 1;
    }
    SpanUnique(s, start, readptr, IsSpace);
  }

  method CollectQuoted(s: string, readptr: nat) returns (value: Option<string>, rc: int)
    requires readptr < |s|
    ensures Quoted(s, readptr) == if rc == 0 then value else None
  {
    var endquote := Find(s, readptr + 1, s[readptr]);
    if endquote < |s| {
      value := Some(s[readptr + 1..endquote]);
      rc := VerifyEoln(s, endquote + 1);
    } else {
      value, rc := None, -1;
    }
  }

  method CollectUnquoted(s: string, ghost equals: nat, readptr: nat) returns (value: string)
    requires equals < readptr <= |s| && s[equals] == '='
    ensures value == Unquoted(s, readptr)
  {
    var found := Find(s, readptr, '#');
    if found == |s| { return s[readptr..]; }
    var comment := found;
    while IsSpace(s[comment - 1])
      decreases comment
      invariant equals < comment <= found
      invariant forall m :: comment <= m < found ==> IsSpace(s[m])
    {
      comment := comment - 1;
    }
    BackUnique(s, found, comment);
    return if comment < readptr then s[readptr..] else s[readptr..comment];
  }

  /** The branch for a name with an equals sign. */
  method CollectAfter(s: string, equals: nat) returns (value: Option<string>, rc: int)
    requires equals < |s| && s[equals] == '='
    ensures AfterEquals(s, equals) == if rc == 0 then value else None
  {
    rc := 0;
    var readptr := SkipSpace(s, equals + 1);
    if readptr < |s| && (s[readptr] == '"' || s[readptr] == '\'') {
      value, rc := CollectQuoted(s, readptr);
    } else {
      var text := CollectUnquoted(s, equals, readptr);
      value := Some(text);
    }
  }

  method CollectValue(s: string, start: nat) returns (value: Option<string>)
    requires start <= |s|
    ensures value == ValueText(s, start)
  {
    value := None;
    var rc := 0;
    var readptr := SkipSpace(s, start);
    if readptr < |s| && s[readptr] == '=' {
      value, rc := CollectAfter(s, readptr);
    } else {
      value := Some("");
      rc := VerifyEoln(s, readptr);
    }
    if rc != 0 {
      value := None;
    }
  }

  method Trim(line: string) returns (s: string)
    ensures s == line[..Back(line, |line|)]
  {
    var length: nat := |line|;
    while length > 0 && IsSpace(line[length - 1])
      invariant length <= |line|
      invariant forall m :: length <= m < |line| ==> IsSpace(line[m])
    {
      length := length - 1;
    }
    BackUnique(line, |line|, length);
    return line[..length];
  }

  /** What comes after the name of a line, or after its blanks if it has no name. */
  method ScanRest(line: string, level: nat, ghost n: nat, scanner: nat, name: string) returns (l: Line)
    requires n <= scanner <= |line| && level == n / 4
    requires name == line[n..scanner] && (name == "" || NameOk(name))
    ensures l == ParseFrom(line, n, scanner)
  {
    if name != "" {
      assert name[0] == line[n] && name[|name| - 1] == line[scanner - 1];
      var value := CollectValue(line, scanner);
      return if value.Some? then Named(level, name, value.value) else Bad;
    }
    var rc := VerifyEoln(line, scanner);
    return if rc == 0 then Blank(level) else Bad;
  }

  method ScanTrimmed(line: string) returns (l: Line)
    ensures l == ParseTrimmed(line)
  {
    var level, scanner := CollectLevel(line, 0);
    if level == -1 { return Bad; }
    ghost var n := scanner;
    var name;
    name, scanner := CollectName(line, scanner);
    if name == None { return Bad; }
    l := ScanRest(line, level, n, scanner, name.value);
  }

  /** The part of the loader's loop that only reads the line. */
  method ScanLine(curLine: string) returns (l: Line)
    ensures l == ParseLine(curLine)
  {
    var line := Trim(curLine);
    l := ScanTrimmed(line);
  }

  // ----- lines of a file

  const LINE_MAX: nat := 1023

  /** How many characters fgets takes with its buffer of 1024: up to and with a newline. */
  function ChunkLen(text: string): (n: nat)
    requires text != ""
    ensures 0 < n <= |text|
  {
    var nl := Find(text, 0, '\n');
    if nl < LINE_MAX && nl < |text| then nl + 1
    else if |text| < LINE_MAX then |text|
    else LINE_MAX
  }

  /** A C string ends at the first NUL character. */
  function CString(s: string): string {
    s[..Find(s, 0, '\0')]
  }

  function Chunks(text: string): seq<string> {
    if text == "" then []
    else [CString(text[..ChunkLen(text)])] + Chunks(text[ChunkLen(text)..])
  }

  /** The entries of two stretches of a file that follow each other. */
  function Join(a: Option<seq<Entry>>, b: Option<seq<Entry>>): Option<seq<Entry>> {
    if a.Some? && b.Some? then Some(a.value + b.value) else None
  }

  function LineEntries(chunk: string): Option<seq<Entry>> {
    match ParseLine(chunk)
    case Bad => None
    case Blank(_) => Some([])
    case Named(level, name, v) => Some([Entry(level, name, Some(v))])
  }

  /** The named lines of a file, or None if a line does not tokenise. */
  function Entries(chunks: seq<string>): Option<seq<Entry>> {
    if chunks == [] then Some([])
    else Join(LineEntries(chunks[0]), Entries(chunks[1..]))
  }

  /** How many lines, named or not, start at level 1; the root item keeps this number. */
  function LevelOnes(chunks: seq<string>): nat {
    if chunks == [] then 0
    else (match ParseLine(chunks[0])
          case Bad => 0
          case Blank(level) => if level == 1 then 1 else 0
          case Named(level, _, _) => if level == 1 then 1 else 0) + LevelOnes(chunks[1..])
  }

  predicate AtLevelOne(chunk: string) {
    ParseLine(chunk) != Bad && ParseLine(chunk).level == 1
  }

  /** The lines at level 1 are counted, whether they have a name or not. */
  lemma LevelOnesCount(chunks: seq<string>) returns (lines: set<nat>)
    ensures forall i: nat :: i in lines <==> i < |chunks| && AtLevelOne(chunks[i])
    ensures LevelOnes(chunks) == |lines|
  {
    LevelOnesCounted(chunks);
    lines := CountedSet(chunks, AtLevelOne);
  }

  function Count(chunks: seq<string>, p: string -> bool): nat {
    if chunks == [] then 0 else (if p(chunks[0]) then 1 else 0) + Count(chunks[1..], p)
  }

  lemma {:induction false} LevelOnesCounted(chunks: seq<string>)
    ensures LevelOnes(chunks) == Count(chunks, AtLevelOne)
  {
    if chunks != [] { LevelOnesCounted(chunks[1..]); }
  }

  lemma {:induction false} CountedSet(chunks: seq<string>, p: string -> bool) returns (lines: set<nat>)
    ensures forall i: nat :: i in lines <==> i < |chunks| && p(chunks[i])
    ensures Count(chunks, p) == |lines|
  {
    lines := {};
    if chunks != [] {
      var last := |chunks| - 1;
      var before := CountedSet(chunks[..last], p);
      CountLast(chunks[..last], chunks[last], p);
      assert chunks == chunks[..last] + [chunks[last]];
      lines := if p(chunks[last]) then before + {last} else before;
    }
  }

  lemma {:induction false} CountLast(chunks: seq<string>, c: string, p: string -> bool)
    ensures Count(chunks + [c], p) == Count(chunks, p) + if p(c) then 1 else 0
  {
    if chunks != [] {
      assert (chunks + [c])[1..] == chunks[1..] + [c];
      CountLast(chunks[1..], c, p);
    } else {
      assert chunks + [c] == [c] && [c][1..] == [];
    }
  }

  /** zz_config_load: the tree of a file, or None for the NULL of an invalid file. */
  function LoadText(text: string): Option<Tree<()>> {
    match Entries(Chunks(text))
    case None => None
    case Some(es) => Build(es)
  }

  // ----- printing

  /** The line that s_config_save prints for an item; the newline is not part of it. */
  function ItemText(level: nat, name: string, value: Option<string>): string {
    Blanks(4 * level) + name + (if value.Some? then " = \"" + value.value + "\"" else "")
  }

  function SaveText<T>(t: Tree<T>, level: nat): string {
    match t
    case Nil => ""
    case Item(_, name, value, kids, next) =>
      ItemText(level, name, value) + "\n" + SaveText(kids, level + 1) + SaveText(next, level)
  }

  // ----- what loading promises

  /** A file whose lines tokenise is accepted exactly when it is well nested. */
  lemma LoadExact(text: string)
    ensures LoadText(text).Some? <==>
            Entries(Chunks(text)).Some? && WellNested(0, Entries(Chunks(text)).value)
    ensures LoadText(text).Some? ==> Preorder(LoadText(text).value, 0) == Entries(Chunks(text)).value
  {
    if Entries(Chunks(text)).Some? { BuildExact(Entries(Chunks(text)).value); }
  }

  // ----- comments behind unquoted values

  /**
   An unquoted value, which starts at the first character after '=' that is no blank, holds a
   comment sign exactly if the line goes on with a comment there and a blank stands before it. The
   value is then the whole comment.
   */
  lemma CommentKept(s: string, i: nat)
    requires i <= |s|
    requires var j := Span(s, i, IsSpace); j < |s| && s[j] == '='
    requires var k := Span(s, Span(s, i, IsSpace) + 1, IsSpace); k == |s| || (s[k] != '"' && s[k] != '\'')
    ensures var j := Span(s, i, IsSpace);
      var k := Span(s, j + 1, IsSpace);
      ValueText(s, i).Some?
      && ('#' in ValueText(s, i).value <==> k < |s| && s[k] == '#' && k > j + 1)
      && ('#' in ValueText(s, i).value ==> ValueText(s, i).value == s[k..])
  {
    var j := Span(s, i, IsSpace);
    var k := Span(s, j + 1, IsSpace);
    NotQuoted(s, i, j, k);
    UnquotedExact(s, k);
    assert k > j + 1 ==> IsSpace(s[k - 1]);
  }

  lemma NotQuoted(s: string, i: nat, j: nat, k: nat)
    requires i <= j < k <= |s| && j == Span(s, i, IsSpace) && s[j] == '=' && k == Span(s, j + 1, IsSpace)
    requires k == |s| || (s[k] != '"' && s[k] != '\'')
    ensures ValueText(s, i) == Some(Unquoted(s, k))
  {
  }

  /** The value is the text up to the comment without the blanks before it, or that whole comment. */
  lemma UnquotedExact(s: string, k: nat)
    requires 0 < k <= |s| && (k < |s| ==> !IsSpace(s[k]))
    ensures var v := Unquoted(s, k);
      if k < |s| && s[k] == '#' then v == if IsSpace(s[k - 1]) then s[k..] else ""
      else && '#' !in v && k + |v| <= |s| && v == s[k..k + |v|]
           && (k + |v| < |s| ==> exists c :: k + |v| <= c < |s| && s[c] == '#' && AllSpace(s, k + |v|, c))
    ensures '#' in Unquoted(s, k) <==> k < |s| && s[k] == '#' && IsSpace(s[k - 1])
  {
    var c := Find(s, k, '#');
    if c < |s| {
      if c == k {
        BackUnique(s, k, Back(s, k));
        assert Back(s, k) < k <==> IsSpace(s[k - 1]);
        assert s[k..][0] == '#';
      } else {
        assert Back(s, c) > k;
        assert AllSpace(s, Back(s, c), c);
      }
    }
  }

  predicate AllSpace(s: string, from: nat, to: nat)
    requires from <= to <= |s|
  {
    forall m :: from <= m < to ==> IsSpace(s[m])
  }

  /** The same comment is the value after a blank, and is dropped directly after the '='. */
  lemma CommentExample()
    ensures ParseLine("a = # x") == Named(0, "a", "# x") && ParseLine("a =# x") == Named(0, "a", "")
  {
    KeptExample();
    DroppedExample();
  }

  lemma KeptExample()
    ensures ParseLine("a = # x") == Named(0, "a", "# x")
  {
    var s := "a = # x";
    SpanUnique(s, 1, 2, IsSpace);
    SpanUnique(s, 3, 4, IsSpace);
    NotQuoted(s, 1, 2, 4);
    CommentAt(s, 4, 3);
    assert s[4..] == "# x";
    LineOfA(s, "# x");
  }

  lemma DroppedExample()
    ensures ParseLine("a =# x") == Named(0, "a", "")
  {
    var s := "a =# x";
    SpanUnique(s, 1, 2, IsSpace);
    SpanUnique(s, 3, 3, IsSpace);
    NotQuoted(s, 1, 2, 3);
    CommentAt(s, 3, 3);
    assert s[3..3] == "";
    LineOfA(s, "");
  }

  lemma LineOfA(s: string, v: string)
    requires |s| > 1 && s[0] == 'a' && s[1] == ' ' && !IsSpace(s[|s| - 1]) && ValueText(s, 1) == Some(v)
    ensures ParseLine(s) == Named(0, "a", v)
  {
    BackUnique(s, |s|, |s|);
    SpanUnique(s, 0, 0, IsBlank);
    SpanUnique(s, 0, 1, IsNameChar);
    assert s[..|s|] == s && s[0..1] == "a";
  }

  lemma CommentAt(s: string, k: nat, e: nat)
    requires e <= k < |s| && s[k] == '#' && (e > 0 ==> !IsSpace(s[e - 1]))
    requires forall m :: e <= m < k ==> IsSpace(s[m])
    ensures Unquoted(s, k) == if e < k then s[k..] else s[k..k]
  {
    FindUnique(s, k, k, '#');
    BackUnique(s, k, e);
  }
}
