/**
 Every line that the loader accepts, written as its parts: the exact grammar of the text format,
 with its comments. Reading a line is the inverse of putting the parts together.
 */
module ConfigLines {
  import opened Options
  import opened ConfigTree
  import opened ConfigText
  import opened ConfigRoundTrip
  import opened Strings

  // ----- characters

  /** White space is six characters, and names have letters, digits and eight signs. */
  lemma CharacterSets(c: char)
    ensures IsSpace(c) <==> c in " \t\n\r\U{000B}\U{000C}"
    ensures IsNameChar(c) <==>
      c in "abcdefghijklmnopqrstuvwxyz" || c in "ABCDEFGHIJKLMNOPQRSTUVWXYZ" || c in "0123456789" || c in "$-_@.&+/"
  {
    SpaceSet(c);
    RunOf("abcdefghijklmnopqrstuvwxyz", c);
    RunOf("ABCDEFGHIJKLMNOPQRSTUVWXYZ", c);
    RunOf("0123456789", c);
  }

  lemma SpaceSet(c: char)
    ensures IsSpace(c) <==> c in " \t\n\r\U{000B}\U{000C}"
  {
    var s := " \t\n\r\U{000B}\U{000C}";
    assert s[1] == '\U{0009}' && s[2] == '\U{000A}' && s[3] == '\U{000D}' && s[4] == '\U{000B}' && s[5] == '\U{000C}';
  }

  /** Characters that follow one another. */
  lemma RunOf(s: string, c: char)
    requires s != "" && forall k :: 0 <= k < |s| ==> s[k] as int == s[0] as int + k
    ensures c in s <==> s[0] <= c <= s[|s| - 1]
  {
    if s[0] <= c <= s[|s| - 1] { assert s[c as int - s[0] as int] == c; }
  }

  predicate White(s: string) {
    forall k :: 0 <= k < |s| ==> IsSpace(s[k])
  }

  /** The text, if there is any, ends in a character that is no white space. */
  predicate Trimmed(s: string) {
    s != "" ==> !IsSpace(s[|s| - 1])
  }

  /** What may end a line: nothing, or white space and a comment. */
  predicate Ending(gap: string, comment: string) {
    && White(gap) && Trimmed(comment)
    && (if comment == "" then gap == "" else comment[0] == '#')
  }

  // ----- lines

  /** The parts of a line, without white space at its end. */
  datatype Layout =
    | Unnamed(depth: nat, gap: string, comment: string)
    | Bare(depth: nat, name: string, gap: string, comment: string)
    | InQuotes(depth: nat, name: string, before: string, after: string, quote: char, value: string,
               gap: string, comment: string)
    | Plain(depth: nat, name: string, before: string, after: string, value: string, gap: string, comment: string)
    | CommentValue(depth: nat, name: string, before: string, after: string, value: string)

  predicate Proper(l: Layout) {
    match l
    case Unnamed(depth, gap, comment) =>
      Ending(gap, comment) && (comment == "" ==> depth == 0) && (gap != "" ==> gap[0] != ' ')
    case Bare(_, name, gap, comment) =>
      NameOk(name) && Ending(gap, comment)
    case InQuotes(_, name, before, after, quote, value, gap, comment) =>
      && NameOk(name) && White(before) && White(after) && Ending(gap, comment)
      && (quote == '"' || quote == '\'') && quote !in value
    case Plain(_, name, before, after, value, gap, comment) =>
      && NameOk(name) && White(before) && White(after) && Ending(gap, comment)
      && Trimmed(value) && '#' !in value
      && (if value == "" then after == "" && gap == ""
          else !IsSpace(value[0]) && value[0] != '"' && value[0] != '\'')
    case CommentValue(_, name, before, after, value) =>
      NameOk(name) && White(before) && White(after) && after != "" && Trimmed(value) && value != "" && value[0] == '#'
  }

  /** The text of a line. */
  function TextOf(l: Layout): string {
    match l
    case Unnamed(depth, gap, comment) => Blanks(4 * depth) + gap + comment
    case Bare(depth, name, gap, comment) => Blanks(4 * depth) + name + gap + comment
    case InQuotes(depth, name, before, after, quote, value, gap, comment) =>
      Blanks(4 * depth) + name + before + "=" + after + [quote] + value + [quote] + gap + comment
    case Plain(depth, name, before, after, value, gap, comment) =>
      Blanks(4 * depth) + name + before + "=" + after + value + gap + comment
    case CommentValue(depth, name, before, after, value) =>
      Blanks(4 * depth) + name + before + "=" + after + value
  }

  /** What a line says. */
  function Meaning(l: Layout): Line {
    match l
    case Unnamed(depth, _, _) => Blank(depth)
    case Bare(depth, name, _, _) => Named(depth, name, "")
    case _ => Named(l.depth, l.name, l.value)
  }

  // ----- reading the parts, whose places in the line are known

  lemma EndingRead(s: string, i: nat, e: nat)
    requires i <= e <= |s| && AllSpace(s, i, e) && (e < |s| ==> s[e] == '#')
    ensures EolnOk(s, i)
  {
    SpanUnique(s, i, e, IsSpace);
  }

  lemma BareValue(s: string, i: nat, e: nat)
    requires i <= e <= |s| && AllSpace(s, i, e) && (e < |s| ==> s[e] == '#')
    ensures ValueText(s, i) == Some("")
  {
    SpanUnique(s, i, e, IsSpace);
    SpanUnique(s, e, e, IsSpace);
  }

  lemma AssignedValue(s: string, i: nat, j: nat, k: nat)
    requires i <= j < k <= |s| && AllSpace(s, i, j) && s[j] == '=' && AllSpace(s, j + 1, k)
    requires k < |s| ==> !IsSpace(s[k])
    ensures ValueText(s, i) ==
      if k < |s| && (s[k] == '"' || s[k] == '\'') then Quoted(s, k) else Some(Unquoted(s, k))
  {
    SpanUnique(s, i, j, IsSpace);
    SpanUnique(s, j + 1, k, IsSpace);
  }

  lemma QuotedValue(s: string, k: nat, q: nat, e: nat)
    requires k < q < e <= |s| && s[k] == s[q] && s[k] !in s[k + 1..q]
    requires AllSpace(s, q + 1, e) && (e < |s| ==> s[e] == '#')
    ensures Quoted(s, k) == Some(s[k + 1..q])
  {
    forall m | k + 1 <= m < q ensures s[m] != s[k] { assert s[m] == s[k + 1..q][m - k - 1]; }
    FindUnique(s, k + 1, q, s[k]);
    EndingRead(s, q + 1, e);
  }

  lemma PlainValue(s: string, k: nat, q: nat, e: nat)
    requires 0 < k <= q <= e <= |s| && '#' !in s[k..q] && !IsSpace(s[q - 1])
    requires AllSpace(s, q, e) && (if e == |s| then q == e else s[e] == '#')
    ensures Unquoted(s, k) == s[k..q]
  {
    forall m | k <= m < q ensures s[m] != '#' { assert s[m] == s[k..q][m - k]; }
    FindUnique(s, k, e, '#');
    if e < |s| { BackUnique(s, e, q); }
  }

  lemma KeptComment(s: string, k: nat)
    requires 0 < k < |s| && s[k] == '#' && IsSpace(s[k - 1])
    ensures Unquoted(s, k) == s[k..]
  {
    FindUnique(s, k, k, '#');
  }

  // ----- lines of each kind

  /** White space at the end of a line is dropped. */
  lemma WhiteDropped(s: string, white: string)
    requires Trimmed(s) && White(white)
    ensures ParseLine(s + white) == ParseTrimmed(s)
  {
    BackUnique(s + white, |s + white|, |s|);
    assert (s + white)[..|s|] == s;
  }

  /** The line starts with the blanks of a level and a name. */
  predicate Starts(s: string, depth: nat, name: string) {
    var n, e := 4 * depth, 4 * depth + |name|;
    e <= |s| && (forall k :: 0 <= k < n ==> s[k] == ' ') && s[n..e] == name && (e < |s| ==> !IsNameChar(s[e]))
  }

  lemma NamedLine(s: string, depth: nat, name: string)
    requires NameOk(name) && Starts(s, depth, name)
    ensures var v := ValueText(s, NameEnd(depth, name));
      ParseTrimmed(s) == if v.Some? then Named(depth, name, v.value) else Bad
  {
    StartsHead(s, depth, name);
    ParseFromHead(s, depth, name);
  }

  lemma StartsHead(s: string, depth: nat, name: string)
    requires NameOk(name) && Starts(s, depth, name)
    ensures Span(s, 0, IsBlank) == 4 * depth && Span(s, 4 * depth, IsNameChar) == NameEnd(depth, name)
  {
    HeadOfLine(s, depth, name);
  }

  lemma FrontStarts(s: string, depth: nat, name: string)
    requires Blanks(4 * depth) + name <= s
    requires var e := 4 * depth + |name|; e < |s| ==> !IsNameChar(s[e])
    ensures Starts(s, depth, name)
  {
    var n, front := 4 * depth, Blanks(4 * depth) + name;
    assert forall k :: 0 <= k < n ==> s[k] == front[k];
    assert s[n..|front|] == front[n..] == name;
  }

  lemma UnnamedShape(depth: nat, gap: string, comment: string)
    requires Ending(gap, comment) && (comment == "" ==> depth == 0) && (gap != "" ==> gap[0] != ' ')
    ensures var s := Blanks(4 * depth) + gap + comment;
      var n, e := 4 * depth, 4 * depth + |gap|;
      && e <= |s| && (forall k :: 0 <= k < n ==> s[k] == ' ') && AllSpace(s, n, e) && (e < |s| ==> s[e] == '#')
      && (n < |s| ==> s[n] != ' ' && !IsNameChar(s[n])) && Trimmed(s)
  {
  }

  lemma UnnamedLine(depth: nat, gap: string, comment: string)
    requires Ending(gap, comment) && (comment == "" ==> depth == 0) && (gap != "" ==> gap[0] != ' ')
    ensures var s := Blanks(4 * depth) + gap + comment; Trimmed(s) && ParseTrimmed(s) == Blank(depth)
  {
    UnnamedShape(depth, gap, comment);
    UnnamedRead(Blanks(4 * depth) + gap + comment, depth, 4 * depth + |gap|);
  }

  lemma UnnamedRead(s: string, depth: nat, e: nat)
    requires 4 * depth <= e <= |s| && (forall k :: 0 <= k < 4 * depth ==> s[k] == ' ')
    requires 4 * depth < |s| ==> s[4 * depth] != ' ' && !IsNameChar(s[4 * depth])
    requires AllSpace(s, 4 * depth, e) && (e < |s| ==> s[e] == '#')
    ensures ParseTrimmed(s) == Blank(depth)
  {
    SpanUnique(s, 0, 4 * depth, IsBlank);
    SpanUnique(s, 4 * depth, 4 * depth, IsNameChar);
    EndingRead(s, 4 * depth, e);
  }

  lemma BareShape(front: string, gap: string, comment: string)
    requires Ending(gap, comment) && Trimmed(front)
    ensures var s, e := front + gap + comment, |front| + |gap|;
      && e <= |s| && front <= s && AllSpace(s, |front|, e) && (e < |s| ==> s[e] == '#')
      && (|front| < |s| ==> !IsNameChar(s[|front|])) && Trimmed(s)
  {
  }

  lemma BareLine(depth: nat, name: string, gap: string, comment: string)
    requires NameOk(name) && Ending(gap, comment)
    ensures var s := Blanks(4 * depth) + name + gap + comment;
      Trimmed(s) && ParseTrimmed(s) == Named(depth, name, "")
  {
    var front := Blanks(4 * depth) + name;
    assert front[|front| - 1] == name[|name| - 1];
    BareShape(front, gap, comment);
    BareValue(front + gap + comment, |front|, |front| + |gap|);
    FrontStarts(front + gap + comment, depth, name);
    NamedLine(front + gap + comment, depth, name);
  }

  /** A text that ends where the value of an item starts; the equals sign is at j. */
  predicate AssignHead(a: string, depth: nat, name: string, j: nat) {
    var i := 4 * depth + |name|;
    i <= j < |a| && Starts(a, depth, name) && AllSpace(a, i, j) && a[j] == '=' && AllSpace(a, j + 1, |a|)
  }

  lemma AssignShape(front: string, before: string, after: string)
    requires White(before) && White(after)
    ensures var a, j := front + before + "=" + after, |front| + |before|;
      && j < |a| && front <= a && AllSpace(a, |front|, j) && a[j] == '=' && AllSpace(a, j + 1, |a|)
      && !IsNameChar(a[|front|]) && (if after == "" then a[|a| - 1] == '=' else IsSpace(a[|a| - 1]))
  {
  }

  lemma QuotedShape(a: string, quote: char, value: string, gap: string, comment: string)
    requires Ending(gap, comment) && (quote == '"' || quote == '\'')
    ensures var s := a + [quote] + value + [quote] + gap + comment;
      var q := |a| + 1 + |value|;
      var e := q + 1 + |gap|;
      && e <= |s| && a <= s && s[|a|] == quote && s[|a| + 1..q] == value && s[q] == quote
      && AllSpace(s, q + 1, e) && (e < |s| ==> s[e] == '#') && Trimmed(s)
  {
  }

  lemma PlainShape(a: string, value: string, gap: string, comment: string)
    requires Ending(gap, comment) && Trimmed(value) && a != ""
    requires if value == "" then gap == "" && !IsSpace(a[|a| - 1]) else !IsSpace(value[0])
    ensures var s := a + value + gap + comment;
      var q := |a| + |value|;
      var e := q + |gap|;
      && e <= |s| && a <= s && s[|a|..q] == value && !IsSpace(s[q - 1])
      && AllSpace(s, q, e) && (if e == |s| then q == e else s[e] == '#') && Trimmed(s)
      && (|a| < |s| ==> s[|a|] == if value == "" then '#' else value[0])
  {
  }

  lemma HeadKept(s: string, a: string, depth: nat, name: string, j: nat)
    requires AssignHead(a, depth, name, j) && a <= s
    ensures Starts(s, depth, name) && AllSpace(s, 4 * depth + |name|, j) && s[j] == '=' && AllSpace(s, j + 1, |a|)
  {
    assert forall k :: 0 <= k < |a| ==> s[k] == a[k];
    assert s[4 * depth..4 * depth + |name|] == a[4 * depth..4 * depth + |name|];
  }

  /** The line has this name, and the value that starts at k. */
  predicate ValueAt(s: string, k: nat, depth: nat, name: string)
    requires k <= |s|
  {
    var v := if k < |s| && (s[k] == '"' || s[k] == '\'') then Quoted(s, k) else Some(Unquoted(s, k));
    v.Some? ==> ParseTrimmed(s) == Named(depth, name, v.value)
  }

  /** So does every line that starts with a. */
  ghost predicate Assigns(a: string, depth: nat, name: string) {
    forall s: string {:trigger ValueAt(s, |a|, depth, name)} :: a <= s && (|a| < |s| ==> !IsSpace(s[|a|])) ==> ValueAt(s, |a|, depth, name)
  }

  lemma AssignedLine(s: string, a: string, depth: nat, name: string, j: nat)
    requires NameOk(name) && AssignHead(a, depth, name, j) && a <= s && (|a| < |s| ==> !IsSpace(s[|a|]))
    ensures ValueAt(s, |a|, depth, name)
  {
    HeadKept(s, a, depth, name, j);
    AssignedAt(s, depth, name, j, |a|);
  }

  lemma AssignedAt(s: string, depth: nat, name: string, j: nat, k: nat)
    requires NameOk(name) && Starts(s, depth, name) && NameEnd(depth, name) <= j < k <= |s|
    requires AllSpace(s, NameEnd(depth, name), j) && s[j] == '=' && AllSpace(s, j + 1, k) && (k < |s| ==> !IsSpace(s[k]))
    ensures ValueAt(s, k, depth, name)
  {
    AssignedValue(s, NameEnd(depth, name), j, k);
    NamedLine(s, depth, name);
  }

  lemma AssignStart(depth: nat, name: string, before: string, after: string)
    requires NameOk(name) && White(before) && White(after)
    ensures var a := Blanks(4 * depth) + name + before + "=" + after;
      a != "" && Assigns(a, depth, name) && (if after == "" then a[|a| - 1] == '=' else IsSpace(a[|a| - 1]))
  {
    var front := Blanks(4 * depth) + name;
    AssignShape(front, before, after);
    FrontStarts(front + before + "=" + after, depth, name);
    HeadAssigns(front + before + "=" + after, depth, name, |front| + |before|);
  }

  lemma HeadAssigns(a: string, depth: nat, name: string, j: nat)
    requires NameOk(name) && AssignHead(a, depth, name, j)
    ensures Assigns(a, depth, name)
  {
    forall s: string | a <= s && (|a| < |s| ==> !IsSpace(s[|a|])) ensures ValueAt(s, |a|, depth, name) {
      AssignedLine(s, a, depth, name, j);
    }
  }

  lemma QuotedFrom(a: string, depth: nat, name: string, quote: char, value: string, gap: string, comment: string)
    requires Assigns(a, depth, name) && Ending(gap, comment)
    requires (quote == '"' || quote == '\'') && quote !in value
    ensures var s := a + [quote] + value + [quote] + gap + comment;
      Trimmed(s) && ParseTrimmed(s) == Named(depth, name, value)
  {
    QuotedShape(a, quote, value, gap, comment);
    QuotedAt(a + [quote] + value + [quote] + gap + comment, a, depth, name,
      |a| + 1 + |value|, |a| + 1 + |value| + 1 + |gap|);
  }

  lemma QuotedAt(s: string, a: string, depth: nat, name: string, q: nat, e: nat)
    requires Assigns(a, depth, name) && a <= s && |a| < q < e <= |s|
    requires (s[|a|] == '"' || s[|a|] == '\'') && s[q] == s[|a|] && s[q] !in s[|a| + 1..q]
    requires AllSpace(s, q + 1, e) && (e < |s| ==> s[e] == '#')
    ensures ParseTrimmed(s) == Named(depth, name, s[|a| + 1..q])
  {
    QuotedValue(s, |a|, q, e);
    assert ValueAt(s, |a|, depth, name);
  }

  lemma PlainFrom(a: string, depth: nat, name: string, value: string, gap: string, comment: string)
    requires Assigns(a, depth, name) && a != "" && Ending(gap, comment)
    requires Trimmed(value) && '#' !in value
    requires if value == "" then gap == "" && !IsSpace(a[|a| - 1])
             else !IsSpace(value[0]) && value[0] != '"' && value[0] != '\''
    ensures var s := a + value + gap + comment;
      Trimmed(s) && ParseTrimmed(s) == Named(depth, name, value)
  {
    PlainShape(a, value, gap, comment);
    PlainAt(a + value + gap + comment, a, depth, name, |a| + |value|, |a| + |value| + |gap|);
  }

  lemma PlainAt(s: string, a: string, depth: nat, name: string, q: nat, e: nat)
    requires Assigns(a, depth, name) && a != "" && a <= s && |a| <= q <= e <= |s|
    requires |a| < |s| ==> !IsSpace(s[|a|]) && s[|a|] != '"' && s[|a|] != '\''
    requires '#' !in s[|a|..q] && !IsSpace(s[q - 1])
    requires AllSpace(s, q, e) && (if e == |s| then q == e else s[e] == '#')
    ensures ParseTrimmed(s) == Named(depth, name, s[|a|..q])
  {
    PlainValue(s, |a|, q, e);
    assert ValueAt(s, |a|, depth, name);
  }

  lemma CommentFrom(a: string, depth: nat, name: string, value: string)
    requires Assigns(a, depth, name) && a != "" && IsSpace(a[|a| - 1])
    requires Trimmed(value) && value != "" && value[0] == '#'
    ensures var s := a + value; Trimmed(s) && ParseTrimmed(s) == Named(depth, name, value)
  {
    CommentShape(a, value);
    CommentFound(a + value, a, depth, name);
  }

  lemma CommentFound(s: string, a: string, depth: nat, name: string)
    requires Assigns(a, depth, name) && a != "" && a <= s && |a| < |s| && IsSpace(s[|a| - 1]) && s[|a|] == '#'
    ensures ParseTrimmed(s) == Named(depth, name, s[|a|..])
  {
    KeptComment(s, |a|);
    assert ValueAt(s, |a|, depth, name);
  }

  lemma InQuotesLine(depth: nat, name: string, before: string, after: string, quote: char, value: string,
                     gap: string, comment: string)
    requires NameOk(name) && White(before) && White(after) && Ending(gap, comment)
    requires (quote == '"' || quote == '\'') && quote !in value
    ensures var s := Blanks(4 * depth) + name + before + "=" + after + [quote] + value + [quote] + gap + comment;
      Trimmed(s) && ParseTrimmed(s) == Named(depth, name, value)
  {
    AssignStart(depth, name, before, after);
    QuotedFrom(Blanks(4 * depth) + name + before + "=" + after, depth, name, quote, value, gap, comment);
  }

  lemma PlainLine(depth: nat, name: string, before: string, after: string, value: string, gap: string, comment: string)
    requires NameOk(name) && White(before) && White(after) && Ending(gap, comment)
    requires Trimmed(value) && '#' !in value
    requires if value == "" then after == "" && gap == ""
             else !IsSpace(value[0]) && value[0] != '"' && value[0] != '\''
    ensures var s := Blanks(4 * depth) + name + before + "=" + after + value + gap + comment;
      Trimmed(s) && ParseTrimmed(s) == Named(depth, name, value)
  {
    AssignStart(depth, name, before, after);
    PlainFrom(Blanks(4 * depth) + name + before + "=" + after, depth, name, value, gap, comment);
  }

  lemma CommentShape(a: string, value: string)
    requires value != "" && Trimmed(value) && value[0] == '#' && a != "" && IsSpace(a[|a| - 1])
    ensures var s := a + value;
      |a| < |s| && a <= s && s[|a|] == '#' && IsSpace(s[|a| - 1]) && s[|a|..] == value && Trimmed(s)
  {
  }

  lemma CommentLine(depth: nat, name: string, before: string, after: string, value: string)
    requires NameOk(name) && White(before) && White(after) && after != ""
    requires Trimmed(value) && value != "" && value[0] == '#'
    ensures var s := Blanks(4 * depth) + name + before + "=" + after + value;
      Trimmed(s) && ParseTrimmed(s) == Named(depth, name, value)
  {
    AssignStart(depth, name, before, after);
    CommentFrom(Blanks(4 * depth) + name + before + "=" + after, depth, name, value);
  }

  lemma TrimmedRead(l: Layout)
    requires Proper(l)
    ensures Trimmed(TextOf(l)) && ParseTrimmed(TextOf(l)) == Meaning(l)
  {
    match l
    case Unnamed(depth, gap, comment) => UnnamedLine(depth, gap, comment);
    case Bare(depth, name, gap, comment) => BareLine(depth, name, gap, comment);
    case InQuotes(depth, name, before, after, quote, value, gap, comment) =>
      InQuotesLine(depth, name, before, after, quote, value, gap, comment);
    case Plain(depth, name, before, after, value, gap, comment) =>
      PlainLine(depth, name, before, after, value, gap, comment);
    case CommentValue(depth, name, before, after, value) => CommentLine(depth, name, before, after, value);
  }

  /** Every line that is put together from proper parts is read as what it says. */
  lemma LayoutRead(l: Layout, white: string)
    requires Proper(l) && White(white)
    ensures ParseLine(TextOf(l) + white) == Meaning(l)
  {
    TrimmedRead(l);
    WhiteDropped(TextOf(l), white);
  }

  // ----- every accepted line has such parts

  lemma SuffixTrimmed(s: string, i: nat)
    requires i <= |s| && Trimmed(s)
    ensures Trimmed(s[i..])
  {
    assert i < |s| ==> s[i..][|s| - i - 1] == s[|s| - 1];
  }

  lemma Cut(s: string, i: nat, j: nat)
    requires i <= j <= |s|
    ensures s[..j] == s[..i] + s[i..j]
  {
  }

  lemma CutOne(s: string, i: nat)
    requires i < |s|
    ensures s[..i + 1] == s[..i] + [s[i]]
  {
  }

  lemma CutLast(s: string, i: nat)
    requires i <= |s|
    ensures s == s[..i] + s[i..]
  {
  }

  lemma WhiteStretch(s: string, i: nat, j: nat)
    requires i <= j <= |s| && AllSpace(s, i, j)
    ensures White(s[i..j])
  {
  }

  lemma EndingFound(s: string, i: nat) returns (gap: string, comment: string)
    requires i <= |s| && EolnOk(s, i) && Trimmed(s)
    ensures Ending(gap, comment) && s == s[..i] + gap + comment
  {
    var j := Span(s, i, IsSpace);
    gap, comment := s[i..j], s[j..];
    WhiteStretch(s, i, j);
    SuffixTrimmed(s, j);
    Cut(s, i, j);
    CutLast(s, j);
  }

  lemma BlanksFound(s: string) returns (n: nat)
    ensures n == Span(s, 0, IsBlank) && s[..n] == Blanks(n)
  {
    n := Span(s, 0, IsBlank);
  }

  lemma UnnamedFound(s: string, n: nat) returns (l: Layout)
    requires Trimmed(s) && n == Span(s, 0, IsBlank) && n % 4 == 0 && EolnOk(s, n) && s[..n] == Blanks(n)
    ensures Proper(l) && TextOf(l) == s
  {
    var gap, comment := EndingFound(s, n);
    GapStarts(s, n, gap, comment);
    l := Unnamed(n / 4, gap, comment);
  }

  lemma GapStarts(s: string, n: nat, gap: string, comment: string)
    requires n == Span(s, 0, IsBlank) && s == s[..n] + gap + comment && Trimmed(s)
    ensures (gap != "" ==> gap[0] != ' ') && (comment == "" && gap == "" ==> n == 0)
  {
    assert gap != "" ==> s[n] == gap[0];
    assert comment == "" && gap == "" ==> s == s[..n];
  }

  lemma BareFound(s: string, d: nat, name: string, i: nat) returns (l: Layout)
    requires i <= |s| && Trimmed(s) && NameOk(name) && s[..i] == Blanks(4 * d) + name && EolnOk(s, i)
    ensures Proper(l) && TextOf(l) == s
  {
    var gap, comment := EndingFound(s, i);
    l := Bare(d, name, gap, comment);
  }

  /** The parts up to the value. */
  lemma AssignFound(s: string, i: nat, j: nat, k: nat)
    requires i <= j < k <= |s| && j == Span(s, i, IsSpace) && s[j] == '=' && k == Span(s, j + 1, IsSpace)
    ensures White(s[i..j]) && White(s[j + 1..k]) && s[..k] == s[..i] + s[i..j] + "=" + s[j + 1..k]
  {
    WhiteStretch(s, i, j);
    WhiteStretch(s, j + 1, k);
    Cut(s, i, j);
    CutOne(s, j);
    Cut(s, j + 1, k);
  }

  lemma QuotedFound(s: string, k: nat) returns (gap: string, comment: string)
    requires k < |s| && Quoted(s, k).Some? && Trimmed(s)
    ensures Ending(gap, comment) && s[k] !in Quoted(s, k).value
    ensures s == s[..k] + [s[k]] + Quoted(s, k).value + [s[k]] + gap + comment
  {
    var q := Find(s, k + 1, s[k]);
    gap, comment := EndingFound(s, q + 1);
    CutOne(s, k);
    Cut(s, k + 1, q);
    CutOne(s, q);
  }

  /** An unquoted value that is no comment. */
  lemma PlainFound(s: string, k: nat) returns (gap: string, comment: string)
    requires 0 < k <= |s| && Trimmed(s) && (k < |s| ==> !IsSpace(s[k]))
    requires k < |s| && s[k] == '#' ==> !IsSpace(s[k - 1])
    ensures var v := Unquoted(s, k);
      && Ending(gap, comment) && s == s[..k] + v + gap + comment && Trimmed(v) && '#' !in v
      && (if v == "" then gap == "" && (k < |s| ==> s[k] == '#') else !IsSpace(v[0]) && k < |s| && v[0] == s[k])
  {
    var c := Find(s, k, '#');
    UnquotedExact(s, k);
    SuffixTrimmed(s, k);
    if c == |s| {
      gap, comment := "", "";
      CutLast(s, k);
    } else {
      gap, comment := PlainParts(s, k, c);
    }
  }

  lemma PlainParts(s: string, k: nat, c: nat) returns (gap: string, comment: string)
    requires 0 < k <= |s| && Trimmed(s) && c == Find(s, k, '#') && c < |s| && !IsSpace(s[k])
    requires s[k] == '#' ==> !IsSpace(s[k - 1])
    ensures var v := Unquoted(s, k);
      && Ending(gap, comment) && s == s[..k] + v + gap + comment && Trimmed(v)
      && (if v == "" then gap == "" && s[k] == '#' else v[0] == s[k])
  {
    var e := PlainPlaces(s, k, c);
    gap, comment := s[e..c], s[c..];
    WhiteStretch(s, e, c);
    SuffixTrimmed(s, c);
    Cut(s, k, e);
    Cut(s, e, c);
    CutLast(s, c);
  }

  lemma PlainPlaces(s: string, k: nat, c: nat) returns (e: nat)
    requires 0 < k <= |s| && c == Find(s, k, '#') && c < |s| && !IsSpace(s[k])
    requires s[k] == '#' ==> !IsSpace(s[k - 1])
    ensures k <= e <= c && Unquoted(s, k) == s[k..e] && AllSpace(s, e, c)
    ensures if e == k then c == k else !IsSpace(s[e - 1])
  {
    e := Back(s, c);
    if c == k { BackUnique(s, k, k); }
  }

  lemma ValueFound(s: string, d: nat, name: string, i: nat) returns (l: Layout)
    requires i <= |s| && Trimmed(s) && NameOk(name) && s[..i] == Blanks(4 * d) + name && ValueText(s, i).Some?
    ensures Proper(l) && TextOf(l) == s
  {
    var j := Span(s, i, IsSpace);
    if j < |s| && s[j] == '=' {
      var k := Span(s, j + 1, IsSpace);
      AssignedValue(s, i, j, k);
      l := AssignedFound(s, d, name, i, j, k);
    } else {
      SpanUnique(s, j, j, IsSpace);
      l := BareFound(s, d, name, i);
    }
  }

  lemma AssignedFound(s: string, d: nat, name: string, i: nat, j: nat, k: nat) returns (l: Layout)
    requires Trimmed(s) && NameOk(name)
    requires i <= j < k <= |s| && j == Span(s, i, IsSpace) && s[j] == '=' && k == Span(s, j + 1, IsSpace)
    requires s[..i] == Blanks(4 * d) + name
    requires k < |s| && (s[k] == '"' || s[k] == '\'') ==> Quoted(s, k).Some?
    ensures Proper(l) && TextOf(l) == s
  {
    AssignFound(s, i, j, k);
    if k < |s| && (s[k] == '"' || s[k] == '\'') {
      l := QuotedLayout(s, d, name, s[i..j], s[j + 1..k], k);
    } else if k < |s| && s[k] == '#' && k > j + 1 {
      l := CommentLayout(s, d, name, s[i..j], s[j + 1..k], k);
    } else {
      l := PlainLayout(s, d, name, s[i..j], s[j + 1..k], k);
    }
  }

  lemma QuotedLayout(s: string, d: nat, name: string, before: string, after: string, k: nat) returns (l: Layout)
    requires Trimmed(s) && NameOk(name) && White(before) && White(after) && k < |s|
    requires s[..k] == Blanks(4 * d) + name + before + "=" + after
    requires (s[k] == '"' || s[k] == '\'') && Quoted(s, k).Some?
    ensures Proper(l) && TextOf(l) == s
  {
    var gap, comment := QuotedFound(s, k);
    l := InQuotes(d, name, before, after, s[k], Quoted(s, k).value, gap, comment);
  }

  lemma CommentLayout(s: string, d: nat, name: string, before: string, after: string, k: nat) returns (l: Layout)
    requires Trimmed(s) && NameOk(name) && White(before) && White(after) && k < |s|
    requires s[..k] == Blanks(4 * d) + name + before + "=" + after
    requires s[k] == '#' && after != ""
    ensures Proper(l) && TextOf(l) == s
  {
    SuffixTrimmed(s, k);
    CutLast(s, k);
    l := CommentValue(d, name, before, after, s[k..]);
  }

  lemma PlainLayout(s: string, d: nat, name: string, before: string, after: string, k: nat) returns (l: Layout)
    requires Trimmed(s) && NameOk(name) && White(before) && White(after) && k <= |s|
    requires s[..k] == Blanks(4 * d) + name + before + "=" + after
    requires k < |s| ==> !IsSpace(s[k]) && s[k] != '"' && s[k] != '\'' && (s[k] == '#' ==> after == "")
    ensures Proper(l) && TextOf(l) == s
  {
    AssignEnd(s, k, Blanks(4 * d) + name + before, after);
    var gap, comment := PlainFound(s, k);
    l := Plain(d, name, before, after, Unquoted(s, k), gap, comment);
  }

  lemma AssignEnd(s: string, k: nat, front: string, after: string)
    requires k <= |s| && s[..k] == front + "=" + after && White(after) && Trimmed(s)
    ensures k > 0 && (after == "" ==> s[k - 1] == '=') && (k == |s| ==> after == "")
  {
    assert s[k - 1] == s[..k][k - 1];
  }

  lemma TrimmedFound(s: string) returns (l: Layout)
    requires Trimmed(s) && !ParseTrimmed(s).Bad?
    ensures Proper(l) && TextOf(l) == s
  {
    var n := BlanksFound(s);
    var e := Span(s, n, IsNameChar);
    TrimmedCases(s, n, e);
    if e == n {
      l := UnnamedFound(s, n);
    } else {
      NameSlice(s, n, e);
      Cut(s, n, e);
      l := ValueFound(s, n / 4, s[n..e], e);
    }
  }

  lemma TrimmedCases(s: string, n: nat, e: nat)
    requires n == Span(s, 0, IsBlank) && e == Span(s, n, IsNameChar) && !ParseTrimmed(s).Bad?
    ensures n % 4 == 0
    ensures if e == n then EolnOk(s, n) else s[n] != '/' && s[e - 1] != '/' && ValueText(s, e).Some?
  {
    assert ParseTrimmed(s) == if n % 4 != 0 then Bad else ParseFrom(s, n, e);
    FromCases(s, n, e);
  }

  lemma FromCases(s: string, n: nat, e: nat)
    requires n <= e <= |s| && !ParseFrom(s, n, e).Bad?
    ensures if e == n then EolnOk(s, n) else s[n] != '/' && s[e - 1] != '/' && ValueText(s, e).Some?
  {
  }

  /** Every line that is accepted is put together from proper parts and white space. */
  lemma LayoutFound(raw: string) returns (l: Layout, white: string)
    requires !ParseLine(raw).Bad?
    ensures Proper(l) && White(white) && TextOf(l) + white == raw
  {
    var e := Back(raw, |raw|);
    l := TrimmedFound(raw[..e]);
    white := WhiteEnd(raw, e);
  }

  lemma WhiteEnd(raw: string, e: nat) returns (white: string)
    requires e == Back(raw, |raw|)
    ensures White(white) && raw[..e] + white == raw
  {
    white := raw[e..];
  }

  /** The line is put together from these parts and white space at its end. */
  predicate WrittenAs(raw: string, l: Layout, white: string) {
    Proper(l) && White(white) && raw == TextOf(l) + white
  }

  ghost predicate Written(raw: string, m: Line) {
    exists l: Layout, white: string :: WrittenAs(raw, l, white) && Meaning(l) == m
  }

  lemma WrittenRead(raw: string, m: Line)
    requires Written(raw, m)
    ensures ParseLine(raw) == m && m != Bad
  {
    var l: Layout, white: string :| WrittenAs(raw, l, white) && Meaning(l) == m;
    LayoutRead(l, white);
  }

  lemma ReadWritten(raw: string)
    requires !ParseLine(raw).Bad?
    ensures Written(raw, ParseLine(raw))
  {
    var l, white := LayoutFound(raw);
    LayoutRead(l, white);
    assert WrittenAs(raw, l, white);
  }

  /** A line is read as something exactly if it is written like that, and is bad if it is in no way. */
  lemma LineExact(raw: string)
    ensures forall m: Line :: m != Bad ==> (ParseLine(raw) == m <==> Written(raw, m))
    ensures ParseLine(raw) == Bad <==> forall m: Line :: !Written(raw, m)
  {
    forall m: Line | Written(raw, m) ensures ParseLine(raw) == m && m != Bad { WrittenRead(raw, m); }
    if !ParseLine(raw).Bad? { ReadWritten(raw); }
  }

  // ----- comments

  lemma CommentEnd(text: string) returns (comment: string, white: string)
    ensures "#" + text == comment + white && White(white) && Trimmed(comment) && comment != "" && comment[0] == '#'
  {
    var e := Back("#" + text, |"#" + text|);
    assert ("#" + text)[0] == '#';
    comment, white := ("#" + text)[..e], ("#" + text)[e..];
  }

  lemma Grouped(a: string, c: string, text: string, comment: string, white: string)
    requires c + text == comment + white
    ensures a + c + text == a + comment + white
  {
    assert a + c + text == a + (c + text);
    assert a + comment + white == a + (comment + white);
  }

  lemma NothingAdded(a: string)
    ensures a + "" == a
  {
  }

  /** A line of blanks and a comment, whatever stands in the comment, is a line without a name. */
  lemma RemarkRead(level: nat, text: string)
    ensures ParseLine(Blanks(4 * level) + "#" + text) == Blank(level)
  {
    var comment, white := CommentEnd(text);
    UnnamedLine(level, "", comment);
    WhiteDropped(Blanks(4 * level) + "" + comment, white);
    NothingAdded(Blanks(4 * level));
    Grouped(Blanks(4 * level), "#", text, comment, white);
  }

  lemma ValueLine(level: nat, name: string, quote: char, value: string, gap: string, comment: string)
    requires NameOk(name) && Ending(gap, comment) && (quote == '"' || quote == '\'') && quote !in value
    ensures var s := Blanks(4 * level) + name + " = " + [quote] + value + [quote] + gap + comment;
      Trimmed(s) && ParseTrimmed(s) == Named(level, name, value)
  {
    InQuotesLine(level, name, " ", " ", quote, value, gap, comment);
    EqualsBetween(Blanks(4 * level) + name);
  }

  lemma EqualsBetween(front: string)
    ensures front + " = " == front + " " + "=" + " "
  {
  }

  /** A comment behind a value in quotes, of either kind, changes nothing. */
  lemma RemarkAfterValue(level: nat, name: string, quote: char, value: string, gap: string, text: string)
    requires NameOk(name) && (quote == '"' || quote == '\'') && quote !in value && White(gap)
    ensures var s := Blanks(4 * level) + name + " = " + [quote] + value + [quote];
      ParseLine(s) == Named(level, name, value) && ParseLine(s + gap + "#" + text) == Named(level, name, value)
  {
    var comment, white := CommentEnd(text);
    ValueLine(level, name, quote, value, "", "");
    ValueLine(level, name, quote, value, gap, comment);
    EitherWay(Blanks(4 * level) + name + " = " + [quote] + value + [quote], gap, text, comment, white);
  }

  /** Nor does a comment behind a name. */
  lemma RemarkAfterName(level: nat, name: string, gap: string, text: string)
    requires NameOk(name) && White(gap)
    ensures var s := Blanks(4 * level) + name;
      ParseLine(s) == Named(level, name, "") && ParseLine(s + gap + "#" + text) == Named(level, name, "")
  {
    var comment, white := CommentEnd(text);
    BareLine(level, name, "", "");
    BareLine(level, name, gap, comment);
    EitherWay(Blanks(4 * level) + name, gap, text, comment, white);
  }

  lemma EitherWay(s: string, gap: string, text: string, comment: string, white: string)
    requires "#" + text == comment + white && White(white)
    requires Trimmed(s + "" + "") && Trimmed(s + gap + comment)
    ensures ParseLine(s) == ParseTrimmed(s + "" + "")
    ensures ParseLine(s + gap + "#" + text) == ParseTrimmed(s + gap + comment)
  {
    NothingAdded(s);
    WhiteDropped(s, "");
    WhiteDropped(s + gap + comment, white);
    Grouped(s + gap, "#", text, comment, white);
  }

  lemma NewlineDropped(line: string)
    ensures ParseLine(line + "\n") == ParseLine(line)
  {
    var e := Back(line, |line|);
    BackUnique(line + "\n", |line| + 1, e);
    assert (line + "\n")[..e] == line[..e];
  }

  /** What follows a NUL on a line is not read. */
  lemma NulHides(line: string, hidden: string, rest: string)
    requires '\n' !in line && '\0' !in line && '\n' !in hidden && |line| + 1 + |hidden| < 1023
    ensures Entries(Chunks(line + "\0" + hidden + "\n" + rest)) == Entries(Chunks(line + "\n" + rest))
  {
    var whole := line + "\0" + hidden;
    LineThenRest(whole, rest);
    LineThenRest(line, rest);
    ShortAlone(line);
    NewlineDropped(line);
    NulChunk(line, hidden);
  }

  lemma NulChunk(line: string, hidden: string)
    requires '\n' !in line && '\0' !in line && '\n' !in hidden && |line| + 1 + |hidden| < LINE_MAX
    ensures Entries(Chunks(line + "\0" + hidden + "\n")) == LineEntries(line)
  {
    var raw := line + "\0" + hidden + "\n";
    FindUnique(raw, 0, |raw| - 1, '\n');
    FindUnique(raw, 0, |line|, '\0');
    FirstChunk(raw, |raw|, []);
    assert raw[..|raw|] == raw && raw[|raw|..] == "" && raw[..|line|] == line;
    assert Chunks(raw) == [line] + [];
    EntriesCons(line, []);
    JoinAssociative(LineEntries(line), None, None);
  }

  /** A line without a name, with its newline or cut off before it, adds no entry. */
  lemma UnnamedEntries(line: string)
    requires ParseLine(line).Blank?
    ensures LineEntries(line) == Some([]) && LineEntries(line + "\n") == Some([])
  {
    NewlineDropped(line);
  }

  lemma UnnamedChunks(line: string)
    requires ParseLine(line).Blank? && |line| <= 1023 && '\n' !in line && '\0' !in line
    ensures Entries(Chunks(line + "\n")) == Some([])
  {
    UnnamedEntries(line);
    if |line| < 1023 { ShortAlone(line); } else { FullAlone(line); }
  }

  /** A line without a name can be put in or left out everywhere between two lines. */
  lemma UnnamedIgnored(a: string, line: string, b: string)
    requires a != "" ==> a[|a| - 1] == '\n'
    requires ParseLine(line).Blank? && |line| <= 1023 && '\n' !in line && '\0' !in line
    ensures LoadText(a + (line + "\n" + b)) == LoadText(a + b)
  {
    UnnamedChunks(line);
    ChunksAppend(a, line + "\n" + b);
    ChunksAppend(a, b);
    LineThenRest(line, b);
    EntriesAppend(Chunks(a), Chunks(line + "\n" + b));
    EntriesAppend(Chunks(a), Chunks(b));
    JoinAssociative(None, None, Entries(Chunks(b)));
  }

  /** So lines with nothing but a comment do not change what a file gives. */
  lemma RemarkIgnored(a: string, level: nat, text: string, b: string)
    requires a != "" ==> a[|a| - 1] == '\n'
    requires '\n' !in text && '\0' !in text && 4 * level + 1 + |text| <= 1023
    ensures LoadText(a + (Blanks(4 * level) + "#" + text + "\n" + b)) == LoadText(a + b)
  {
    RemarkRead(level, text);
    UnnamedIgnored(a, Blanks(4 * level) + "#" + text, b);
  }
}
