/**
 For every payload, whether the HTTP parser refuses it and with which return code, and whether it
 finds the end of the head: the exact places of a payload at which each of this happens.
 */
module HttpCodes {
  import opened Options
  import opened HttpParser
  import opened HttpParserFacts

  // ----- the parts of a request head

  predicate Letter(c: char) {
    'A' <= c <= 'Z'
  }

  /** All octets before i are line ends. */
  predicate Breaks(b: string, i: nat) {
    i <= |b| && forall k :: 0 <= k < i ==> b[k] == '\r' || b[k] == '\n'
  }

  /** The first word is read up to j. */
  predicate Word(b: string, i: nat, j: nat) {
    i < j <= |b| && Breaks(b, i) && forall k :: i <= k < j ==> Letter(b[k])
  }

  predicate AllBlank(b: string, i: nat, j: nat) {
    i <= j <= |b| && forall k :: i <= k < j ==> b[k] == ' '
  }

  predicate Method(b: string, i: nat, j: nat) {
    Word(b, i, j) && j < |b| && b[j] == ' ' && (b[i..j] == "GET" || b[i..j] == "POST")
  }

  /** After the method and blanks the URI starts at s. */
  predicate Target(b: string, i: nat, j: nat, s: nat) {
    Method(b, i, j) && AllBlank(b, j, s) && s < |b| && b[s] == '/'
  }

  /** An H after a blank ends the URI. */
  predicate VersionAt(b: string, k: nat) {
    0 < k < |b| && b[k] == 'H' && b[k - 1] == ' '
  }

  /** The URI that starts at s is read up to e. */
  predicate UriUpTo(b: string, s: nat, e: nat) {
    s < e <= |b| && forall k :: s < k < e ==> b[k] != '\r' && b[k] != '\n' && b[k] != '\0' && !VersionAt(b, k)
  }

  /** No octet between v and i ends the line or the payload. */
  predicate OnLine(b: string, v: nat, i: nat) {
    v < i <= |b| && forall k :: v < k < i ==> b[k] != '\n' && b[k] != '\0'
  }

  /** The line that v stands on ends before n. */
  predicate LineEnd(b: string, v: nat, n: nat) {
    n > 0 && OnLine(b, v, n - 1) && n <= |b| && b[n - 1] == '\n'
  }

  /** The request line is complete, and the header fields start at h. */
  predicate RequestLine(b: string, i: nat, j: nat, s: nat, v: nat, h: nat) {
    Target(b, i, j, s) && UriUpTo(b, s, v) && VersionAt(b, v) && LineEnd(b, v, h)
  }

  /** The headers whose values are recorded; of three of them only five octets are compared. */
  predicate Known(name: string) {
    || name == "Host" || name == "Cookie"
    || (|name| == 7 && name[..5] == "Refer")
    || (|name| == 10 && name[..5] == "User-")
    || (|name| == 14 && name[..5] == "Conte")
  }

  /** The name on the line at h stands from a up to c. */
  predicate NameUpTo(b: string, h: nat, a: nat, c: nat) {
    && AllBlank(b, h, a) && a < c <= |b| && b[a] != ' ' && b[a] != '\r' && b[a] != '\n' && b[a] != '\0'
    && forall k :: a < k < c ==> b[k] != ' ' && b[k] != ':' && b[k] != '\0'
  }

  predicate NameEnds(b: string, h: nat, a: nat, c: nat) {
    NameUpTo(b, h, a, c) && c < |b| && (b[c] == ' ' || b[c] == ':')
  }

  predicate Separators(b: string, c: nat, d: nat) {
    c < d <= |b| && forall k :: c <= k < d ==> b[k] == ' ' || b[k] == ':'
  }

  /** The value behind the name that ends at c starts at d. */
  predicate ValueStarts(b: string, c: nat, d: nat) {
    Separators(b, c, d) && d < |b| && b[d] != ' ' && b[d] != ':' && b[d] != '\0'
  }

  /** The places of a header line: its name, the octet behind which its end is looked for, the next line. */
  datatype Field = Field(name: nat, colon: nat, from: nat, next: nat)

  predicate FieldAt(b: string, h: nat, x: Field) {
    && NameEnds(b, h, x.name, x.colon) && LineEnd(b, x.from, x.next)
    && (if Known(b[x.name..x.colon]) then ValueStarts(b, x.colon, x.from) else x.from == x.colon)
  }

  function After(h: nat, xs: seq<Field>): nat {
    if xs == [] then h else xs[|xs| - 1].next
  }

  /** From h on, these are header lines, each on the line after the one before. */
  predicate FieldsAt(b: string, h: nat, xs: seq<Field>) {
    xs == [] || (FieldsAt(b, h, xs[..|xs| - 1]) && FieldAt(b, After(h, xs[..|xs| - 1]), xs[|xs| - 1]))
  }

  predicate AllCr(b: string, a: nat, i: nat) {
    a < i <= |b| && forall k :: a <= k < i ==> b[k] == '\r'
  }

  // ----- where a payload is refused

  datatype Refusal =
    | NoLetter(at: nat)
    | WordBroken(word: nat, at: nat)
    | OtherMethod(word: nat, at: nat)
    | NoSlash(word: nat, blank: nat, at: nat)
    | UriBroken(word: nat, blank: nat, slash: nat, at: nat)
    | HeadBroken(word: nat, blank: nat, slash: nat, version: nat, head: nat, fields: seq<Field>, cr: nat, at: nat)

  predicate RefusedAt(b: string, r: Refusal) {
    && r.at < |b| && b[r.at] != '\0'
    && match r
       case NoLetter(at) => Breaks(b, at) && b[at] != '\r' && b[at] != '\n' && !Letter(b[at])
       case WordBroken(i, at) => Word(b, i, at) && b[at] != ' ' && !Letter(b[at])
       case OtherMethod(i, at) => Word(b, i, at) && b[at] == ' ' && b[i..at] != "GET" && b[i..at] != "POST"
       case NoSlash(i, j, at) => Method(b, i, j) && AllBlank(b, j, at) && b[at] != ' ' && b[at] != '/'
       case UriBroken(i, j, s, at) => Target(b, i, j, s) && UriUpTo(b, s, at) && (b[at] == '\r' || b[at] == '\n')
       case HeadBroken(i, j, s, v, h, xs, cr, at) =>
         && RequestLine(b, i, j, s, v, h) && FieldsAt(b, h, xs) && AllBlank(b, After(h, xs), cr)
         && AllCr(b, cr, at) && b[at] != '\r' && b[at] != '\n'
  }

  function CodeAt(b: string, r: Refusal): int
    requires RefusedAt(b, r)
  {
    match r
    case NoLetter(_) => 998
    case WordBroken(_, _) => 13
    case OtherMethod(_, _) => 12
    case NoSlash(_, _, _) => 14
    case UriBroken(_, _, _, at) =>
      if b[at] == '\r' then (if b[at - 1] == ' ' then 18 else 15)
      else (if b[at - 1] == ' ' then 19 else 16)
    case HeadBroken(_, _, _, _, _, _, _, _) => 25
  }

  /** The head is complete: an empty line, or one of blanks and CRs only, ends before n. */
  predicate CompleteAt(b: string, i: nat, j: nat, s: nat, v: nat, h: nat, xs: seq<Field>, cr: nat, n: nat) {
    && RequestLine(b, i, j, s, v, h) && FieldsAt(b, h, xs) && AllBlank(b, After(h, xs), cr)
    && 0 < n <= |b| && (cr == n - 1 || AllCr(b, cr, n - 1)) && b[n - 1] == '\n'
  }

  // ----- what has been read when the parser stands before an octet

  datatype Trail = Trail(word: nat, blank: nat, slash: nat, version: nat, head: nat, fields: seq<Field>,
                         name: nat, colon: nat)

  predicate InUri(b: string, i: nat, t: Trail) {
    Target(b, t.word, t.blank, t.slash) && UriUpTo(b, t.slash, i)
  }

  predicate InHead(b: string, t: Trail) {
    RequestLine(b, t.word, t.blank, t.slash, t.version, t.head) && FieldsAt(b, t.head, t.fields)
  }

  function Line(t: Trail): nat {
    After(t.head, t.fields)
  }

  /** In the header line at l, whose name starts at a and ends at c. */
  predicate InField(b: string, i: nat, mc: Machine, l: nat, a: nat, c: nat) {
    i <= |b| &&
    match mc.state
    case HeadStart => AllBlank(b, l, i)
    case Name => mc.m == a && NameUpTo(b, l, a, i)
    case SpaceBeforeValue =>
      NameEnds(b, l, a, c) && Known(b[a..c]) && Separators(b, c, i) && HS_HOST <= mc.f.headerState <= HS_CONTENT_LENGTH
    case Value =>
      && NameEnds(b, l, a, c) && Known(b[a..c]) && ValueStarts(b, c, mc.m) && OnLine(b, mc.m, i)
      && HS_HOST <= mc.f.headerState <= HS_CONTENT_LENGTH
    case SpaceAfterValue => NameEnds(b, l, a, c) && !Known(b[a..c]) && OnLine(b, c, i)
    case AlmostDone => AllBlank(b, l, a) && AllCr(b, a, i)
    case _ => false
  }

  predicate Traced(b: string, i: nat, mc: Machine, t: Trail) {
    i <= |b| &&
    match mc.state
    case Start => Breaks(b, i)
    case Method => mc.m == t.word && Word(b, t.word, i)
    case SpacesBeforeUri => Method(b, t.word, t.blank) && AllBlank(b, t.blank, i)
    case Uri => InUri(b, i, t) && b[i - 1] != ' '
    case Http09 => InUri(b, i, t) && b[i - 1] == ' '
    case SpacesAfterDigit =>
      Target(b, t.word, t.blank, t.slash) && UriUpTo(b, t.slash, t.version) && VersionAt(b, t.version) && OnLine(b, t.version, i)
    case _ => InHead(b, t) && InField(b, i, mc, Line(t), t.name, t.colon)
  }

  predicate Done(b: string, t: Trail, n: nat) {
    CompleteAt(b, t.word, t.blank, t.slash, t.version, t.head, t.fields, t.name, n)
  }

  /** The parser goes on and leaves a trail, or stops where the head is complete or the payload refused. */
  predicate Followed(b: string, i: nat, o: Outcome, t: Trail, r: Refusal) {
    match o
    case Next(mc) => Traced(b, i + 1, mc, t)
    case Stop(code, _) => if code == 0 then Done(b, t, i + 1) else RefusedAt(b, r) && CodeAt(b, r) == code
  }

  lemma FollowStart(b: string, i: nat, cap: int, mc: Machine, t: Trail) returns (t': Trail, r: Refusal)
    requires i < |b| && b[i] != '\0' && mc.state == Start && Traced(b, i, mc, t)
    ensures Followed(b, i, Step(b, i, cap, mc), t', r)
  {
    t', r := t.(word := i), NoLetter(i);
  }

  lemma FollowMethod(b: string, i: nat, cap: int, mc: Machine, t: Trail) returns (t': Trail, r: Refusal)
    requires i < |b| && b[i] != '\0' && mc.state == State.Method && Traced(b, i, mc, t)
    ensures Followed(b, i, Step(b, i, cap, mc), t', r)
  {
    t', r := t.(blank := i), if b[i] == ' ' then OtherMethod(t.word, i) else WordBroken(t.word, i);
    if b[i] == ' ' { WordThenBlank(b, t.word, i); }
  }

  lemma WordThenBlank(b: string, m: nat, i: nat)
    requires m < i < |b| && b[i] == ' '
    ensures b[m..i] == "GET" <==> i - m == 3 && b[m..i + 1] == "GET "
    ensures b[m..i] == "POST" <==> i - m == 4 && b[m..i + 1] == "POST "
  {
    assert b[m..i + 1] == b[m..i] + " ";
    assert "GET " == "GET" + " " && "POST " == "POST" + " ";
    assert b[m..i + 1][..i - m] == b[m..i];
  }

  lemma FollowSpaces(b: string, i: nat, cap: int, mc: Machine, t: Trail) returns (t': Trail, r: Refusal)
    requires i < |b| && b[i] != '\0' && mc.state == SpacesBeforeUri && Traced(b, i, mc, t)
    ensures Followed(b, i, Step(b, i, cap, mc), t', r)
  {
    t', r := t.(slash := i), NoSlash(t.word, t.blank, i);
  }

  lemma FollowUri(b: string, i: nat, cap: int, mc: Machine, t: Trail) returns (t': Trail, r: Refusal)
    requires i < |b| && b[i] != '\0' && (mc.state == Uri || mc.state == Http09) && Traced(b, i, mc, t)
    ensures Followed(b, i, Step(b, i, cap, mc), t', r)
  {
    t', r := t.(version := i), UriBroken(t.word, t.blank, t.slash, i);
  }

  lemma FollowVersion(b: string, i: nat, cap: int, mc: Machine, t: Trail) returns (t': Trail, r: Refusal)
    requires i < |b| && b[i] != '\0' && mc.state == SpacesAfterDigit && Traced(b, i, mc, t)
    ensures Followed(b, i, Step(b, i, cap, mc), t', r)
  {
    t', r := t.(head := i + 1, fields := []), NoLetter(i);
  }

  lemma KnownExact(b: string, m: nat, i: nat)
    requires m <= i <= |b|
    ensures Known(b[m..i]) <==> HeaderOf(b, m, i) != 0
    ensures 0 <= HeaderOf(b, m, i) <= HS_CONTENT_LENGTH
  {
    if i - m >= 5 { assert b[m..i][..5] == b[m..m + 5]; }
    if i - m == 4 { assert b[m..i] == b[m..m + 4]; }
    if i - m == 6 { assert b[m..i] == b[m..m + 6]; }
  }

  /** One octet of a header line: it goes on, is complete, or is not the end of the head it seems to be. */
  predicate FieldStep(b: string, i: nat, o: Outcome, l: nat, a: nat, c: nat, x: Field) {
    match o
    case Next(mc) => InField(b, i + 1, mc, l, a, c) || (mc.state == HeadStart && x.next == i + 1 && FieldAt(b, l, x))
    case Stop(code, _) =>
      && i < |b| && AllBlank(b, l, a)
      && (if code == 0 then (a == i || AllCr(b, a, i)) && b[i] == '\n'
          else code == 25 && AllCr(b, a, i) && b[i] != '\r' && b[i] != '\n')
  }

  lemma StepHead(b: string, i: nat, cap: int, mc: Machine, l: nat, a: nat, c: nat)
    requires i < |b| && b[i] != '\0' && mc.state == HeadStart && InField(b, i, mc, l, a, c)
    ensures FieldStep(b, i, Step(b, i, cap, mc), l, i, c, Field(a, c, c, i + 1))
  {
  }

  lemma StepName(b: string, i: nat, cap: int, mc: Machine, l: nat, a: nat, c: nat)
    requires i < |b| && b[i] != '\0' && mc.state == Name && InField(b, i, mc, l, a, c)
    ensures FieldStep(b, i, Step(b, i, cap, mc), l, a, i, Field(a, i, i, i + 1))
  {
    if b[i] == ' ' || b[i] == ':' { KnownExact(b, a, i); }
  }

  lemma StepBefore(b: string, i: nat, cap: int, mc: Machine, l: nat, a: nat, c: nat)
    requires i < |b| && b[i] != '\0' && mc.state == SpaceBeforeValue && InField(b, i, mc, l, a, c)
    ensures FieldStep(b, i, Step(b, i, cap, mc), l, a, c, Field(a, c, i, i + 1))
  {
  }

  lemma StepValue(b: string, i: nat, cap: int, mc: Machine, l: nat, a: nat, c: nat)
    requires i < |b| && b[i] != '\0' && mc.state == Value && InField(b, i, mc, l, a, c)
    ensures FieldStep(b, i, Step(b, i, cap, mc), l, a, c, Field(a, c, mc.m, i + 1))
  {
  }

  lemma StepIgnored(b: string, i: nat, cap: int, mc: Machine, l: nat, a: nat, c: nat)
    requires i < |b| && b[i] != '\0' && mc.state == SpaceAfterValue && InField(b, i, mc, l, a, c)
    ensures FieldStep(b, i, Step(b, i, cap, mc), l, a, c, Field(a, c, c, i + 1))
  {
  }

  lemma StepDone(b: string, i: nat, cap: int, mc: Machine, l: nat, a: nat, c: nat)
    requires i < |b| && b[i] != '\0' && mc.state == AlmostDone && InField(b, i, mc, l, a, c)
    ensures FieldStep(b, i, Step(b, i, cap, mc), l, a, c, Field(a, c, c, i + 1))
  {
  }

  lemma StepField(b: string, i: nat, cap: int, mc: Machine, l: nat, a: nat, c: nat) returns (a': nat, c': nat, x: Field)
    requires i < |b| && b[i] != '\0' && InField(b, i, mc, l, a, c)
    ensures FieldStep(b, i, Step(b, i, cap, mc), l, a', c', x)
  {
    a', c', x := a, c, Field(a, c, c, i + 1);
    match mc.state
    case HeadStart => StepHead(b, i, cap, mc, l, a, c); a' := i;
    case Name => StepName(b, i, cap, mc, l, a, c); c', x := i, Field(a, i, i, i + 1);
    case SpaceBeforeValue => StepBefore(b, i, cap, mc, l, a, c); x := Field(a, c, i, i + 1);
    case Value => StepValue(b, i, cap, mc, l, a, c); x := Field(a, c, mc.m, i + 1);
    case SpaceAfterValue => StepIgnored(b, i, cap, mc, l, a, c);
    case AlmostDone => StepDone(b, i, cap, mc, l, a, c);
  }

  lemma FieldDone(b: string, t: Trail, x: Field)
    requires InHead(b, t) && FieldAt(b, Line(t), x)
    ensures var t' := t.(fields := t.fields + [x]); InHead(b, t') && Line(t') == x.next
  {
    assert (t.fields + [x])[..|t.fields|] == t.fields;
  }

  lemma FollowField(b: string, i: nat, cap: int, mc: Machine, t: Trail) returns (t': Trail, r: Refusal)
    requires i < |b| && b[i] != '\0' && InHead(b, t) && InField(b, i, mc, Line(t), t.name, t.colon)
    ensures Followed(b, i, Step(b, i, cap, mc), t', r)
  {
    var a, c, x := StepField(b, i, cap, mc, Line(t), t.name, t.colon);
    r := HeadBroken(t.word, t.blank, t.slash, t.version, t.head, t.fields, a, i);
    t' := FieldFollowed(b, i, Step(b, i, cap, mc), t, a, c, x);
  }

  lemma FieldFollowed(b: string, i: nat, o: Outcome, t: Trail, a: nat, c: nat, x: Field) returns (t': Trail)
    requires i < |b| && b[i] != '\0' && InHead(b, t) && FieldStep(b, i, o, Line(t), a, c, x)
    ensures Followed(b, i, o, t', HeadBroken(t.word, t.blank, t.slash, t.version, t.head, t.fields, a, i))
  {
    t' := t.(name := a, colon := c);
    if o.Stop? {
      HeadStops(b, i, o, t, a, c, x);
    } else {
      t' := HeadGoesOn(b, i, o.mc, t, a, c, x);
    }
  }

  lemma HeadGoesOn(b: string, i: nat, mc: Machine, t: Trail, a: nat, c: nat, x: Field) returns (t': Trail)
    requires i < |b| && InHead(b, t)
    requires InField(b, i + 1, mc, Line(t), a, c) || (mc.state == HeadStart && x.next == i + 1 && FieldAt(b, Line(t), x))
    ensures Traced(b, i + 1, mc, t')
  {
    if InField(b, i + 1, mc, Line(t), a, c) {
      t' := t.(name := a, colon := c);
    } else {
      t' := NextLine(b, i, mc, t, x);
    }
  }

  lemma HeadStops(b: string, i: nat, o: Outcome, t: Trail, a: nat, c: nat, x: Field)
    requires i < |b| && b[i] != '\0' && InHead(b, t) && o.Stop? && FieldStep(b, i, o, Line(t), a, c, x)
    ensures var r := HeadBroken(t.word, t.blank, t.slash, t.version, t.head, t.fields, a, i);
      if o.code == 0 then Done(b, t.(name := a, colon := c), i + 1) else RefusedAt(b, r) && CodeAt(b, r) == o.code
  {
  }

  lemma NextLine(b: string, i: nat, mc: Machine, t: Trail, x: Field) returns (t': Trail)
    requires i < |b| && InHead(b, t) && mc.state == HeadStart && x.next == i + 1 && FieldAt(b, Line(t), x)
    ensures Traced(b, i + 1, mc, t')
  {
    FieldDone(b, t, x);
    t' := t.(fields := t.fields + [x]);
  }

  predicate Kept(i: nat, o: Outcome, keeps: (nat, Machine) -> bool, ends: Result -> bool) {
    match o
    case Next(mc) => keeps(i, mc)
    case Stop(code, f) => ends(Result(code, f))
  }

  /** A property that every octet keeps, and that every stop turns into another one, decides the result. */
  lemma {:induction false} RunInduction(b: string, i: nat, cap: int, mc: Machine,
                                        keeps: (nat, Machine) -> bool, ends: Result -> bool)
    requires i <= |b| && keeps(i, mc)
    requires forall k: nat, c :: k <= |b| && keeps(k, c) ==> ends(Result(0, c.f))
    requires forall k: nat, c :: k < |b| && b[k] != '\0' && keeps(k, c) ==> Kept(k + 1, Step(b, k, cap, c), keeps, ends)
    ensures ends(Run(b, i, cap, mc))
    decreases |b| - i
  {
    if i < |b| && b[i] != '\0' {
      match Step(b, i, cap, mc)
      case Next(mc') => RunInduction(b, i + 1, cap, mc', keeps, ends);
      case Stop(_, _) =>
    }
  }

  /** The payload is refused with this code at some place. */
  ghost predicate Refuses(b: string, code: int) {
    exists r: Refusal :: RefusedAt(b, r) && CodeAt(b, r) == code
  }

  /** The head is complete before this octet. */
  ghost predicate Completes(b: string, n: int) {
    n >= 0 && exists t: Trail :: Done(b, t, n)
  }

  /** What the result says is so. */
  ghost predicate Explained(b: string, r: Result) {
    && (r.code != 0 ==> Refuses(b, r.code) && r.f.postStart == None)
    && (r.f.postStart.Some? ==> Completes(b, r.f.postStart.value))
  }

  lemma StepKeepsBody(b: string, i: nat, cap: int, mc: Machine)
    requires i < |b|
    ensures match Step(b, i, cap, mc)
            case Next(mc') => mc'.f.postStart == mc.f.postStart
            case Stop(code, f) => f.postStart == if code == 0 then Some(i + 1) else mc.f.postStart
  {
  }

  ghost predicate OnTrail(b: string, i: nat, mc: Machine) {
    mc.f.postStart == None && exists t: Trail :: Traced(b, i, mc, t)
  }

  lemma TrailKept(b: string, i: nat, cap: int, mc: Machine)
    requires i < |b| && b[i] != '\0' && OnTrail(b, i, mc)
    ensures match Step(b, i, cap, mc)
            case Next(mc') => OnTrail(b, i + 1, mc')
            case Stop(code, f) => Explained(b, Result(code, f))
  {
    var t: Trail :| Traced(b, i, mc, t);
    var t', r := Follow(b, i, cap, mc, t);
    StepKeepsBody(b, i, cap, mc);
  }

  /** A code other than 0 and a start of the body are returned only if the payload has them. */
  lemma ResultFound(b: string, cap: int, f: Fields)
    requires f.postStart == None
    ensures Explained(b, Run(b, 0, cap, Begin(f)))
  {
    var keeps := (i: nat, mc: Machine) => OnTrail(b, i, mc);
    var ends := (r: Result) => Explained(b, r);
    forall i: nat, mc | i < |b| && b[i] != '\0' && keeps(i, mc) ensures Kept(i + 1, Step(b, i, cap, mc), keeps, ends) {
      TrailKept(b, i, cap, mc);
    }
    BeginTraced(b, f);
    RunInduction(b, 0, cap, Begin(f), keeps, ends);
  }

  lemma BeginTraced(b: string, f: Fields)
    requires f.postStart == None
    ensures OnTrail(b, 0, Begin(f))
  {
    assert Traced(b, 0, Begin(f), Trail(0, 0, 0, 0, 0, [], 0, 0));
  }

  lemma FollowFront(b: string, i: nat, cap: int, mc: Machine, t: Trail) returns (t': Trail, r: Refusal)
    requires i < |b| && b[i] != '\0' && Traced(b, i, mc, t) && mc.state in {Start, State.Method, SpacesBeforeUri}
    ensures Followed(b, i, Step(b, i, cap, mc), t', r)
  {
    match mc.state
    case Start => t', r := FollowStart(b, i, cap, mc, t);
    case Method => t', r := FollowMethod(b, i, cap, mc, t);
    case SpacesBeforeUri => t', r := FollowSpaces(b, i, cap, mc, t);
  }

  lemma FollowBack(b: string, i: nat, cap: int, mc: Machine, t: Trail) returns (t': Trail, r: Refusal)
    requires i < |b| && b[i] != '\0' && Traced(b, i, mc, t) && mc.state in {Uri, Http09, SpacesAfterDigit}
    ensures Followed(b, i, Step(b, i, cap, mc), t', r)
  {
    if mc.state == SpacesAfterDigit {
      t', r := FollowVersion(b, i, cap, mc, t);
    } else {
      t', r := FollowUri(b, i, cap, mc, t);
    }
  }

  lemma Follow(b: string, i: nat, cap: int, mc: Machine, t: Trail) returns (t': Trail, r: Refusal)
    requires i < |b| && b[i] != '\0' && Traced(b, i, mc, t)
    ensures Followed(b, i, Step(b, i, cap, mc), t', r)
  {
    if mc.state in {Start, State.Method, SpacesBeforeUri} {
      t', r := FollowFront(b, i, cap, mc, t);
    } else if mc.state in {Uri, Http09, SpacesAfterDigit} {
      t', r := FollowBack(b, i, cap, mc, t);
    } else {
      t', r := FollowField(b, i, cap, mc, t);
    }
  }

  // ----- every such place is where the parser stops

  lemma {:induction false} BreaksRead(b: string, i: nat, cap: int, f: Fields) returns (mc: Machine)
    requires Breaks(b, i)
    ensures Run(b, 0, cap, Begin(f)) == Run(b, i, cap, mc) && mc.state == Start && mc.f == f
  {
    mc := Begin(f);
    if i > 0 {
      mc := BreaksRead(b, i - 1, cap, f);
      mc := mc.(m := i - 1);
    }
  }

  lemma WordRead(b: string, i: nat, j: nat, cap: int, f: Fields)
    requires Word(b, i, j)
    ensures Run(b, 0, cap, Begin(f)) == Run(b, j, cap, Machine(State.Method, i, f))
  {
    var mc := BreaksRead(b, i, cap, f);
    assert Letter(b[i]);
    Skip(b, i + 1, j, cap, Machine(State.Method, i, f));
  }

  lemma MethodRead(b: string, i: nat, j: nat, s: nat, cap: int, f: Fields) returns (mc: Machine)
    requires Method(b, i, j) && AllBlank(b, j, s)
    ensures Run(b, 0, cap, Begin(f)) == Run(b, s, cap, mc)
    ensures if s == j then mc == Machine(State.Method, i, f)
            else mc.state == SpacesBeforeUri && mc.f == WithMethod(b[i..j], f)
  {
    WordRead(b, i, j, cap, f);
    mc := Machine(State.Method, i, f);
    if s > j {
      WordThenBlank(b, i, j);
      mc := Step(b, j, cap, mc).mc;
      Skip(b, j + 1, s, cap, mc);
    }
  }

  function WithMethod(word: string, f: Fields): Fields {
    if word == "POST" then f.(httpType := 1) else f
  }

  lemma TargetRead(b: string, i: nat, j: nat, s: nat, cap: int, f: Fields) returns (mc: Machine)
    requires Target(b, i, j, s)
    ensures Run(b, 0, cap, Begin(f)) == Run(b, s + 1, cap, mc) && mc.state == Uri
    ensures var g := WithMethod(b[i..j], f); mc.f == g.(uri := g.uri.(start := Some(s)))
  {
    mc := MethodRead(b, i, j, s, cap, f);
    mc := Step(b, s, cap, mc).mc;
  }

  lemma {:induction false} UriRead(b: string, i: nat, j: nat, s: nat, e: nat, cap: int, f: Fields) returns (mc: Machine)
    requires Target(b, i, j, s) && UriUpTo(b, s, e)
    ensures Run(b, 0, cap, Begin(f)) == Run(b, e, cap, mc) && mc.state == (if b[e - 1] == ' ' then Http09 else Uri)
    ensures mc.f.uri.start == Some(s) && mc.f.httpType == WithMethod(b[i..j], f).httpType
    ensures forall u: nat :: LastOfUri(b, u, e) && s <= u ==> mc.f.uri.end == Some(u)
    decreases e
  {
    if e == s + 1 {
      mc := TargetRead(b, i, j, s, cap, f);
    } else {
      mc := UriRead(b, i, j, s, e - 1, cap, f);
      UriOctet(b, s, e - 1, cap, mc);
      mc := Step(b, e - 1, cap, mc).mc;
    }
  }

  /** Blanks follow the octet at u up to e. */
  predicate LastOfUri(b: string, u: nat, e: nat) {
    u + 1 < e && AllBlank(b, u + 1, e) && b[u] != ' '
  }

  lemma UriOctet(b: string, s: nat, k: nat, cap: int, mc: Machine)
    requires s < k < |b| && UriUpTo(b, s, k + 1) && mc.state == (if b[k - 1] == ' ' then Http09 else Uri)
    ensures Step(b, k, cap, mc).Next? && Step(b, k, cap, mc).mc.state == (if b[k] == ' ' then Http09 else Uri)
    ensures var f := Step(b, k, cap, mc).mc.f;
      f == if b[k] == ' ' && b[k - 1] != ' ' then mc.f.(uri := mc.f.uri.(end := Some(k - 1))) else mc.f
  {
  }

  lemma LineRead(b: string, i: nat, j: nat, s: nat, v: nat, h: nat, cap: int, f: Fields) returns (mc: Machine)
    requires RequestLine(b, i, j, s, v, h)
    ensures Run(b, 0, cap, Begin(f)) == Run(b, h, cap, mc) && mc.state == HeadStart
  {
    mc := UriRead(b, i, j, s, v, cap, f);
    mc := mc.(state := SpacesAfterDigit);
    Skip(b, v + 1, h - 1, cap, mc);
    mc := mc.(state := HeadStart);
  }

  lemma NameRead(b: string, h: nat, a: nat, c: nat, cap: int, mc: Machine) returns (mc': Machine)
    requires mc.state == HeadStart && NameEnds(b, h, a, c)
    ensures Run(b, h, cap, mc) == Run(b, c + 1, cap, mc')
    ensures mc'.state == if Known(b[a..c]) then SpaceBeforeValue else SpaceAfterValue
    ensures Known(b[a..c]) ==> HS_HOST <= mc'.f.headerState <= HS_CONTENT_LENGTH
    ensures b[a..c] == "Cookie" ==> mc'.f.headerState == HS_COOKIE && mc'.f.cookies == At(c + 1, cap)
  {
    Skip(b, h, a, cap, mc);
    Skip(b, a + 1, c, cap, Machine(Name, a, mc.f));
    KnownExact(b, a, c);
    mc' := Step(b, c, cap, Machine(Name, a, mc.f)).mc;
  }

  lemma {:induction false} ValueRead(b: string, d: nat, i: nat, cap: int, mc: Machine) returns (mc': Machine)
    requires mc.state == Value && OnLine(b, d, i) && HS_HOST <= mc.f.headerState <= HS_CONTENT_LENGTH
    ensures Run(b, d + 1, cap, mc) == Run(b, i, cap, mc')
    ensures mc'.state == Value && HS_HOST <= mc'.f.headerState <= HS_CONTENT_LENGTH
    decreases i
  {
    mc' := mc;
    if d + 1 < i {
      mc' := ValueRead(b, d, i - 1, cap, mc);
      mc' := Step(b, i - 1, cap, mc').mc;
    }
  }

  lemma FieldRead(b: string, h: nat, x: Field, cap: int, mc: Machine) returns (mc': Machine)
    requires mc.state == HeadStart && FieldAt(b, h, x)
    ensures Run(b, h, cap, mc) == Run(b, x.next, cap, mc') && mc'.state == HeadStart
  {
    mc' := NameRead(b, h, x.name, x.colon, cap, mc);
    if Known(b[x.name..x.colon]) {
      Skip(b, x.colon + 1, x.from, cap, mc');
      mc' := ValueRead(b, x.from, x.next - 1, cap, Machine(Value, x.from, mc'.f));
    } else {
      Skip(b, x.colon + 1, x.next - 1, cap, mc');
    }
    mc' := mc'.(state := HeadStart);
  }

  lemma {:induction false} FieldsRead(b: string, h: nat, xs: seq<Field>, cap: int, mc: Machine) returns (mc': Machine)
    requires mc.state == HeadStart && h <= |b| && FieldsAt(b, h, xs)
    ensures After(h, xs) <= |b| && Run(b, h, cap, mc) == Run(b, After(h, xs), cap, mc') && mc'.state == HeadStart
  {
    mc' := mc;
    if xs != [] {
      var last := |xs| - 1;
      mc' := FieldsRead(b, h, xs[..last], cap, mc);
      mc' := FieldRead(b, After(h, xs[..last]), xs[last], cap, mc');
    }
  }

  /** At every place where the payload is refused the parser stops with that code. */
  lemma RefusalRead(b: string, r: Refusal, cap: int, f: Fields)
    requires RefusedAt(b, r)
    ensures Run(b, 0, cap, Begin(f)).code == CodeAt(b, r)
  {
    match r
    case NoLetter(at) =>
      var mc := BreaksRead(b, at, cap, f);
    case WordBroken(i, at) =>
      WordRead(b, i, at, cap, f);
    case OtherMethod(i, at) =>
      WordRead(b, i, at, cap, f);
      WordThenBlank(b, i, at);
    case NoSlash(i, j, at) =>
      var mc := MethodRead(b, i, j, at, cap, f);
    case UriBroken(i, j, s, at) =>
      var mc := UriRead(b, i, j, s, at, cap, f);
    case HeadBroken(i, j, s, v, h, xs, cr, at) =>
      HeadRefused(b, r, cap, f);
  }

  lemma HeadRefused(b: string, r: Refusal, cap: int, f: Fields)
    requires r.HeadBroken? && RefusedAt(b, r)
    ensures Run(b, 0, cap, Begin(f)).code == 25
  {
    var t := Trail(r.word, r.blank, r.slash, r.version, r.head, r.fields, r.cr, 0);
    var mc := HeadRead(b, t, cap, f);
    CrRead(b, Line(t), r.cr, r.at, cap, mc);
  }

  /** The parser comes to the header line that a trail leads to. */
  lemma HeadRead(b: string, t: Trail, cap: int, f: Fields) returns (mc: Machine)
    requires InHead(b, t)
    ensures Line(t) <= |b| && Run(b, 0, cap, Begin(f)) == Run(b, Line(t), cap, mc) && mc.state == HeadStart
  {
    mc := LineRead(b, t.word, t.blank, t.slash, t.version, t.head, cap, f);
    mc := FieldsRead(b, t.head, t.fields, cap, mc);
  }

  lemma CrRead(b: string, l: nat, a: nat, at: nat, cap: int, mc: Machine)
    requires mc.state == HeadStart && AllBlank(b, l, a) && AllCr(b, a, at)
    requires at < |b| && b[at] != '\r' && b[at] != '\n' && b[at] != '\0'
    ensures Run(b, l, cap, mc).code == 25
  {
    Skip(b, l, a, cap, mc);
    Skip(b, a + 1, at, cap, mc.(state := AlmostDone));
  }

  /** Where the head is complete the parser stops with code 0, and the body starts there. */
  lemma CompleteRead(b: string, t: Trail, n: nat, cap: int, f: Fields)
    requires Done(b, t, n)
    ensures var r := Run(b, 0, cap, Begin(f)); r.code == 0 && r.f.postStart == Some(n)
  {
    var mc := HeadRead(b, t, cap, f);
    EmptyLineRead(b, Line(t), t.name, n, cap, mc);
  }

  lemma EmptyLineRead(b: string, l: nat, a: nat, n: nat, cap: int, mc: Machine)
    requires mc.state == HeadStart && AllBlank(b, l, a)
    requires 0 < n <= |b| && (a == n - 1 || AllCr(b, a, n - 1)) && b[n - 1] == '\n'
    ensures var r := Run(b, l, cap, mc); r.code == 0 && r.f.postStart == Some(n)
  {
    Skip(b, l, a, cap, mc);
    if a < n - 1 { Skip(b, a + 1, n - 1, cap, mc.(state := AlmostDone)); }
  }

  /**
   The return code of every payload: it is not 0 exactly if the payload is refused somewhere, and
   is then the code of that place. The body starts at n exactly if the head is complete before n.
   */
  lemma CodesExact(b: string, cap: int, f: Fields)
    requires f.postStart == None
    ensures var r := Run(b, 0, cap, Begin(f));
      && (forall c: int :: c != 0 ==> (r.code == c <==> Refuses(b, c)))
      && (r.code == 0 <==> forall c: int :: !Refuses(b, c))
      && (forall n: int :: r.f.postStart == Some(n) <==> Completes(b, n))
  {
    ResultFound(b, cap, f);
    var res := Run(b, 0, cap, Begin(f));
    forall c: int | Refuses(b, c) ensures res.code == c && c != 0 {
      var r: Refusal :| RefusedAt(b, r) && CodeAt(b, r) == c;
      RefusalRead(b, r, cap, f);
    }
    forall n: int | Completes(b, n) ensures res.f.postStart == Some(n) {
      var t: Trail :| Done(b, t, n);
      CompleteRead(b, t, n, cap, f);
    }
  }

  /** A payload that starts with a word of capital letters that is no known method. */
  lemma UnknownMethod(b: string, n: nat, cap: int, f: Fields)
    requires 0 < n < |b| && (forall k :: 0 <= k < n ==> 'A' <= b[k] <= 'Z') && b[n] == ' '
    ensures b[..n] != "GET" && b[..n] != "POST" ==> Run(b, 0, cap, Begin(f)).code == 12
  {
    assert b[0..n] == b[..n];
    if b[..n] != "GET" && b[..n] != "POST" { RefusalRead(b, OtherMethod(0, n), cap, f); }
  }

  /** The method and blanks up to s. */
  predicate MethodThenBlanks(b: string, s: nat) {
    || (3 < s < |b| && b[..3] == "GET" && AllBlank(b, 3, s))
    || (4 < s < |b| && b[..4] == "POST" && AllBlank(b, 4, s))
  }

  lemma MethodThere(b: string, s: nat) returns (n: nat)
    requires MethodThenBlanks(b, s)
    ensures Method(b, 0, n) && AllBlank(b, n, s)
  {
    n := if b[..3] == "GET" && AllBlank(b, 3, s) then 3 else 4;
    assert b[0..n] == b[..n] && forall k :: 0 <= k < n ==> b[k] == b[..n][k];
  }

  /** A request whose target does not start with a slash. */
  lemma TargetWithoutSlash(b: string, s: nat, cap: int, f: Fields)
    requires MethodThenBlanks(b, s) && b[s] != '/' && b[s] != ' ' && b[s] != '\0'
    ensures Run(b, 0, cap, Begin(f)).code == 14
  {
    var n := MethodThere(b, s);
    RefusalRead(b, NoSlash(0, n, s), cap, f);
  }

  /** A request line that ends inside the URI. */
  lemma LineEndInUri(b: string, s: nat, e: nat, cap: int, f: Fields)
    requires MethodThenBlanks(b, s) && b[s] == '/' && s < e < |b| && (b[e] == '\r' || b[e] == '\n')
    requires forall k :: s <= k < e ==> b[k] != ' ' && b[k] != '\r' && b[k] != '\n' && b[k] != '\0'
    ensures Run(b, 0, cap, Begin(f)).code == if b[e] == '\r' then 15 else 16
  {
    var n := MethodThere(b, s);
    RefusalRead(b, UriBroken(0, n, s, e), cap, f);
  }

  lemma {:induction false} UriKept(b: string, i: nat, cap: int, mc: Machine)
    requires i <= |b| && mc.state !in {Start, State.Method, SpacesBeforeUri, Uri, Http09}
    ensures Run(b, i, cap, mc).f.uri == mc.f.uri && Run(b, i, cap, mc).f.httpType == mc.f.httpType
    decreases |b| - i
  {
    if i < |b| && b[i] != '\0' {
      match Step(b, i, cap, mc)
      case Next(mc') => UriKept(b, i + 1, cap, mc');
      case Stop(_, _) =>
    }
  }

  /** The URI runs from the slash to the last octet before the blanks and the version, blanks inside included. */
  lemma UriExact(b: string, i: nat, j: nat, s: nat, u: nat, v: nat, cap: int, f: Fields)
    requires Target(b, i, j, s) && UriUpTo(b, s, v) && VersionAt(b, v) && s <= u && LastOfUri(b, u, v)
    ensures var g := Run(b, 0, cap, Begin(f)).f;
      g.uri == At(s, u) && g.httpType == if b[i..j] == "POST" then 1 else f.httpType
  {
    var mc := UriRead(b, i, j, s, v, cap, f);
    UriKept(b, v + 1, cap, mc.(state := SpacesAfterDigit));
  }

  /** The names that are recorded. */
  lemma AnnouncesExact(name: string)
    ensures Announces(name) == HS_HOST <==> name == "Host"
    ensures Announces(name) == HS_COOKIE <==> name == "Cookie"
    ensures Announces(name) == HS_REFERER <==> |name| == 7 && name[..5] == "Refer"
    ensures Announces(name) == HS_USER_AGENT <==> |name| == 10 && name[..5] == "User-"
    ensures Announces(name) == HS_CONTENT_LENGTH <==> |name| == 14 && name[..5] == "Conte"
  {
  }

  /** A payload that ends inside the value of a Cookie leaves a slice up to the end of the packet. */
  lemma CutCookie(b: string, t: Trail, cap: int, f: Fields)
    requires InHead(b, t) && NameEnds(b, Line(t), t.name, t.colon) && b[t.name..t.colon] == "Cookie"
    requires forall k :: t.colon <= k < |b| ==> b[k] != '\r' && b[k] != '\n' && b[k] != '\0'
    ensures var r := Run(b, 0, cap, Begin(f)); r.code == 0 && r.f.cookies == At(t.colon + 1, cap)
  {
    var mc := HeadRead(b, t, cap, f);
    mc := NameRead(b, Line(t), t.name, t.colon, cap, mc);
    CookieGoesOn(b, t.colon + 1, cap, mc);
  }

  lemma {:induction false} CookieGoesOn(b: string, i: nat, cap: int, mc: Machine)
    requires i <= |b| && (mc.state == SpaceBeforeValue || mc.state == Value)
    requires forall k :: i <= k < |b| ==> b[k] != '\r' && b[k] != '\n' && b[k] != '\0'
    ensures var r := Run(b, i, cap, mc); r.code == 0 && r.f.cookies == mc.f.cookies
    decreases |b| - i
  {
    if i < |b| { CookieGoesOn(b, i + 1, cap, Step(b, i, cap, mc).mc); }
  }
}
