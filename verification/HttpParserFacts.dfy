/**
 What the HTTP parser guarantees for every payload, and that it inverts a printer of requests.
 */
module HttpParserFacts {
  import opened Options
  import opened HttpParser
  import opened Strings

  // ----- slices and return codes, for every payload

  /** A slice that is set from both ends lies before octet i, in order, and its start is there. */
  predicate Sound(s: Slice, i: nat) {
    && (s.start.Some? ==> 0 <= s.start.value < i)
    && (s.end.Some? ==> s.start.Some? && s.start.value <= s.end.value < i)
  }

  predicate NoBreak(b: string, from: int, to: int)
    requires 0 <= from <= to <= |b|
  {
    forall k :: from <= k < to ==> b[k] != CR && b[k] != LF
  }

  /** A URI starts with a slash and stays on its line. */
  predicate UriText(b: string, s: Slice) {
    s.end.Some? ==> Sound(s, |b|) && b[s.start.value] == '/' && NoBreak(b, s.start.value, s.end.value + 1)
  }

  /** A header value does not start with a blank or colon and stays on its line after that. */
  predicate ValueTextAt(b: string, m: nat, i: nat)
    requires m < i <= |b|
  {
    b[m] != ' ' && b[m] != ':' && forall k :: m < k < i ==> b[k] != LF
  }

  predicate ValueText(b: string, s: Slice) {
    s.end.Some? ==> Sound(s, |b|) && ValueTextAt(b, s.start.value, s.end.value + 1)
  }

  /** The end of the cookie slice is first set, provisionally, to the end of the packet. */
  predicate CookieText(b: string, s: Slice, cap: int) {
    s.end.Some? && s.end.value != cap ==> ValueText(b, s)
  }

  predicate SoundFields(b: string, i: nat, cap: int, f: Fields) {
    && Sound(f.uri, i) && UriText(b, f.uri)
    && Sound(f.host, i) && ValueText(b, f.host)
    && Sound(f.ua, i) && ValueText(b, f.ua)
    && Sound(f.referer, i) && ValueText(b, f.referer)
    && Sound(f.contentLen, i) && ValueText(b, f.contentLen)
    && CookieText(b, f.cookies, cap)
  }

  /** What holds between two octets of any run. */
  predicate Invariant(b: string, i: nat, cap: int, mc: Machine)
    requires i <= |b|
  {
    && SoundFields(b, i, cap, mc.f)
    && mc.state != IgnoreLine
    && (mc.state in {Start, Method, SpacesBeforeUri} ==> mc.f.uri == UNSET)
    && (mc.state == Uri || mc.state == Http09 ==>
          mc.f.uri.start.Some? && b[mc.f.uri.start.value] == '/' && NoBreak(b, mc.f.uri.start.value, i))
    && (mc.state == SpaceBeforeValue || mc.state == Value ==> HS_HOST <= mc.f.headerState <= HS_CONTENT_LENGTH)
    && (mc.state == Value ==> mc.m < i && ValueTextAt(b, mc.m, i))
  }

  predicate GoodOutcome(b: string, i: nat, cap: int, o: Outcome)
    requires i < |b|
  {
    match o
    case Next(mc) => Invariant(b, i + 1, cap, mc)
    case Stop(code, f) => SoundFields(b, i + 1, cap, f) && ReturnCode(code)
  }

  predicate ReturnCode(code: int) {
    code == 0 || code == 998 || 12 <= code <= 16 || code == 18 || code == 19 || code == 25
  }

  lemma FieldsGrow(b: string, i: nat, cap: int, f: Fields)
    requires SoundFields(b, i, cap, f)
    ensures SoundFields(b, i + 1, cap, f)
  {
  }

  lemma BodyStartSound(b: string, i: nat, cap: int, f: Fields)
    requires SoundFields(b, i, cap, f)
    ensures SoundFields(b, i, cap, f.(postStart := Some(i)))
  {
  }

  lemma TypeSound(b: string, i: nat, cap: int, f: Fields)
    requires SoundFields(b, i, cap, f)
    ensures SoundFields(b, i, cap, f.(httpType := 1))
  {
  }

  lemma BeforeUriStep(b: string, i: nat, cap: int, mc: Machine)
    requires i < |b| && b[i] != '\0' && Invariant(b, i, cap, mc)
    requires mc.state == SpacesBeforeUri
    ensures GoodOutcome(b, i, cap, Step(b, i, cap, mc))
  {
    FieldsGrow(b, i, cap, mc.f);
  }

  lemma UriStep(b: string, i: nat, cap: int, mc: Machine)
    requires i < |b| && b[i] != '\0' && Invariant(b, i, cap, mc)
    requires mc.state == Uri
    ensures GoodOutcome(b, i, cap, Step(b, i, cap, mc))
  {
    FieldsGrow(b, i, cap, mc.f);
    if b[i] == ' ' { UriEnds(b, i, cap, mc); }
  }

  lemma UriEnds(b: string, i: nat, cap: int, mc: Machine)
    requires i < |b| && b[i] == ' ' && Invariant(b, i, cap, mc) && mc.state == Uri
    requires SoundFields(b, i + 1, cap, mc.f)
    ensures GoodOutcome(b, i, cap, Step(b, i, cap, mc))
  {
    UriRecorded(b, i, cap, mc.f);
  }

  lemma UriRecorded(b: string, i: nat, cap: int, f: Fields)
    requires i < |b| && SoundFields(b, i + 1, cap, f)
    requires f.uri.start.Some? && 0 <= f.uri.start.value < i
    requires b[f.uri.start.value] == '/' && NoBreak(b, f.uri.start.value, i)
    ensures SoundFields(b, i + 1, cap, f.(uri := f.uri.(end := Some(i - 1))))
  {
    var uri := f.uri.(end := Some(i - 1));
    assert Sound(uri, i + 1) && UriText(b, uri);
  }

  lemma Http09Step(b: string, i: nat, cap: int, mc: Machine)
    requires i < |b| && b[i] != '\0' && Invariant(b, i, cap, mc)
    requires mc.state == Http09
    ensures GoodOutcome(b, i, cap, Step(b, i, cap, mc))
  {
    FieldsGrow(b, i, cap, mc.f);
  }

  lemma NameStep(b: string, i: nat, cap: int, mc: Machine)
    requires i < |b| && b[i] != '\0' && Invariant(b, i, cap, mc)
    requires mc.state == Name
    ensures GoodOutcome(b, i, cap, Step(b, i, cap, mc))
  {
    FieldsGrow(b, i, cap, mc.f);
    if b[i] == ' ' || b[i] == ':' { AnnouncedSound(b, i + 1, cap, mc.f, HeaderOf(b, mc.m, i)); }
  }

  lemma AnnouncedSound(b: string, i: nat, cap: int, f: Fields, h: int)
    requires SoundFields(b, i, cap, f)
    ensures SoundFields(b, i, cap, if h == HS_COOKIE then f.(headerState := h, cookies := At(i, cap)) else f.(headerState := h))
  {
  }

  lemma BeforeValueStep(b: string, i: nat, cap: int, mc: Machine)
    requires i < |b| && b[i] != '\0' && Invariant(b, i, cap, mc)
    requires mc.state == SpaceBeforeValue
    ensures GoodOutcome(b, i, cap, Step(b, i, cap, mc))
  {
    FieldsGrow(b, i, cap, mc.f);
  }

  lemma ValueStep(b: string, i: nat, cap: int, mc: Machine)
    requires i < |b| && b[i] != '\0' && Invariant(b, i, cap, mc)
    requires mc.state == Value
    ensures GoodOutcome(b, i, cap, Step(b, i, cap, mc))
  {
    FieldsGrow(b, i, cap, mc.f);
    if b[i] == CR {
      RecordSound(b, i, cap, mc.f, mc.m);
    }
  }

  lemma RecordSound(b: string, i: nat, cap: int, f: Fields, m: nat)
    requires m < i < |b| && ValueTextAt(b, m, i) && SoundFields(b, i + 1, cap, f)
    requires HS_HOST <= f.headerState <= HS_CONTENT_LENGTH
    ensures RecordValue(f, m, i).Some? && RecordValue(f, m, i).value.headerState == f.headerState
    ensures SoundFields(b, i + 1, cap, RecordValue(f, m, i).value)
  {
    assert ValueText(b, At(m, i - 1));
  }

  lemma StepKeepsInvariant(b: string, i: nat, cap: int, mc: Machine)
    requires i < |b| && b[i] != '\0' && Invariant(b, i, cap, mc)
    ensures GoodOutcome(b, i, cap, Step(b, i, cap, mc))
  {
    match mc.state
    case SpacesBeforeUri => BeforeUriStep(b, i, cap, mc);
    case Uri => UriStep(b, i, cap, mc);
    case Http09 => Http09Step(b, i, cap, mc);
    case Name => NameStep(b, i, cap, mc);
    case SpaceBeforeValue => BeforeValueStep(b, i, cap, mc);
    case Value => ValueStep(b, i, cap, mc);
    case Method => MethodStep(b, i, cap, mc);
    case HeadStart => HeadStep(b, i, cap, mc);
    case AlmostDone => AlmostDoneStep(b, i, cap, mc);
    case _ => QuietStep(b, i, cap, mc);
  }

  lemma MethodStep(b: string, i: nat, cap: int, mc: Machine)
    requires i < |b| && b[i] != '\0' && Invariant(b, i, cap, mc)
    requires mc.state == Method
    ensures GoodOutcome(b, i, cap, Step(b, i, cap, mc))
  {
    FieldsGrow(b, i, cap, mc.f);
    TypeSound(b, i + 1, cap, mc.f);
  }

  lemma HeadStep(b: string, i: nat, cap: int, mc: Machine)
    requires i < |b| && b[i] != '\0' && Invariant(b, i, cap, mc)
    requires mc.state == HeadStart
    ensures GoodOutcome(b, i, cap, Step(b, i, cap, mc))
  {
    FieldsGrow(b, i, cap, mc.f);
    if b[i] == LF { BodyStartSound(b, i + 1, cap, mc.f); }
  }

  lemma AlmostDoneStep(b: string, i: nat, cap: int, mc: Machine)
    requires i < |b| && b[i] != '\0' && Invariant(b, i, cap, mc)
    requires mc.state == AlmostDone
    ensures GoodOutcome(b, i, cap, Step(b, i, cap, mc))
  {
    FieldsGrow(b, i, cap, mc.f);
    if b[i] == LF { BodyStartSound(b, i + 1, cap, mc.f); }
  }

  /** The states that record nothing. */
  lemma QuietStep(b: string, i: nat, cap: int, mc: Machine)
    requires i < |b| && b[i] != '\0' && Invariant(b, i, cap, mc)
    requires mc.state in {Start, SpacesAfterDigit, SpaceAfterValue}
    ensures GoodOutcome(b, i, cap, Step(b, i, cap, mc))
  {
    FieldsGrow(b, i, cap, mc.f);
  }

  /** All slices are sound at the end of the payload, and the return code is a known one. */
  predicate SoundResult(b: string, cap: int, r: Result) {
    SoundFields(b, |b|, cap, r.f) && ReturnCode(r.code)
  }

  /** Every slice of the record lies in the payload, and only ten return codes are possible. */
  lemma {:induction false} RunSound(b: string, i: nat, cap: int, mc: Machine)
    requires i <= |b| && Invariant(b, i, cap, mc)
    ensures SoundResult(b, cap, Run(b, i, cap, mc))
    decreases |b| - i
  {
    if i < |b| && b[i] != '\0' {
      StepKeepsInvariant(b, i, cap, mc);
      match Step(b, i, cap, mc)
      case Next(mc') => RunSound(b, i + 1, cap, mc');
      case Stop(code, f) => StopSound(b, i + 1, cap, code, f);
    } else {
      StopSound(b, i, cap, 0, mc.f);
    }
  }

  lemma StopSound(b: string, i: nat, cap: int, code: int, f: Fields)
    requires i <= |b| && SoundFields(b, i, cap, f) && ReturnCode(code)
    ensures SoundResult(b, cap, Result(code, f))
  {
    LastGrow(b, i, cap, f);
  }

  lemma LastGrow(b: string, i: nat, cap: int, f: Fields)
    requires i <= |b| && SoundFields(b, i, cap, f)
    ensures SoundFields(b, |b|, cap, f)
  {
  }

  // ----- the Content-Length, whose slice is not cleared before

  function WithLength(mc: Machine, s: Slice): Machine {
    mc.(f := mc.f.(contentLen := s))
  }

  /** At this octet a Content-Length value ends, and its slice is recorded. */
  predicate EndsLength(b: string, i: nat, mc: Machine)
    requires i < |b|
  {
    mc.state == Value && b[i] == CR && mc.f.headerState == HS_CONTENT_LENGTH
  }

  /** A Content-Length value reaches its CR before the parser stops. */
  predicate RecordsLength(b: string, i: nat, cap: int, mc: Machine)
    requires i <= |b|
    decreases |b| - i
  {
    i < |b| && b[i] != '\0' &&
    (EndsLength(b, i, mc) ||
     match Step(b, i, cap, mc)
     case Next(mc') => RecordsLength(b, i + 1, cap, mc')
     case Stop(_, _) => false)
  }

  /** The two outcomes differ at most in the slice of the Content-Length, which is not set. */
  predicate SameButLength(o: Outcome, o': Outcome, was: Slice, s: Slice) {
    match o
    case Stop(code, f) => o' == Stop(code, f.(contentLen := s)) && f.contentLen == was
    case Next(mc) => o' == Next(WithLength(mc, s)) && mc.f.contentLen == was
  }

  /** No step looks at the slice of the Content-Length, and only the end of such a value sets it. */
  lemma StepKeepsLength(b: string, i: nat, cap: int, mc: Machine, s: Slice)
    requires i < |b|
    ensures var o, o' := Step(b, i, cap, mc), Step(b, i, cap, WithLength(mc, s));
      if EndsLength(b, i, mc) then o.Next? && o' == o else SameButLength(o, o', mc.f.contentLen, s)
  {
    if mc.state == Value { ValueKeepsLength(b, i, cap, mc, s); }
  }

  lemma ValueKeepsLength(b: string, i: nat, cap: int, mc: Machine, s: Slice)
    requires i < |b| && mc.state == Value
    ensures var o, o' := Step(b, i, cap, mc), Step(b, i, cap, WithLength(mc, s));
      if EndsLength(b, i, mc) then o.Next? && o' == o else SameButLength(o, o', mc.f.contentLen, s)
  {
  }

  /** The run from a record with another Content-Length slice differs at most in that slice. */
  lemma {:induction false} RunKeepsLength(b: string, i: nat, cap: int, mc: Machine, s: Slice)
    requires i <= |b|
    ensures RecordsLength(b, i, cap, WithLength(mc, s)) == RecordsLength(b, i, cap, mc)
    ensures var r := Run(b, i, cap, mc);
      Run(b, i, cap, WithLength(mc, s))
        == if RecordsLength(b, i, cap, mc) then r else Result(r.code, r.f.(contentLen := s))
    ensures !RecordsLength(b, i, cap, mc) ==> Run(b, i, cap, mc).f.contentLen == mc.f.contentLen
    decreases |b| - i
  {
    if i < |b| && b[i] != '\0' {
      StepKeepsLength(b, i, cap, mc, s);
      match Step(b, i, cap, mc)
      case Next(mc') => if !EndsLength(b, i, mc) { RunKeepsLength(b, i + 1, cap, mc', s); }
      case Stop(_, _) =>
    }
  }

  predicate SoundLength(b: string, s: Slice) {
    Sound(s, |b|) && ValueText(b, s)
  }

  /**
   After every parse all slices are sound, except that the one of the Content-Length is sound
   exactly if such a value reached its CR or the slice that was there before happens to be; in the
   other case that slice is still there.
   */
  lemma ParseSound(b: string, cap: int, headerState: int, stale: Slice)
    ensures var mc := Begin(Initial(headerState, stale));
      var r := Run(b, 0, cap, mc);
      && ReturnCode(r.code)
      && SoundFields(b, |b|, cap, r.f.(contentLen := UNSET))
      && (SoundLength(b, r.f.contentLen) <==> RecordsLength(b, 0, cap, mc) || SoundLength(b, stale))
      && (!RecordsLength(b, 0, cap, mc) ==> r.f.contentLen == stale)
  {
    var clean := Begin(Initial(headerState, UNSET));
    RunSound(b, 0, cap, clean);
    RunKeepsLength(b, 0, cap, clean, stale);
    assert WithLength(clean, stale) == Begin(Initial(headerState, stale));
  }

  /** A host is recorded only after the URI of the request was complete. */
  predicate HostLate(mc: Machine) {
    && (mc.state !in {Start, Method, SpacesBeforeUri, Uri} ==> mc.f.uri.end.Some?)
    && HostAfterUri(mc.f)
  }

  predicate HostAfterUri(f: Fields) {
    f.host.end.Some? ==> f.uri.end.Some?
  }

  lemma HostLateStep(b: string, i: nat, cap: int, mc: Machine)
    requires i < |b| && HostLate(mc)
    ensures match Step(b, i, cap, mc)
            case Next(mc') => HostLate(mc')
            case Stop(_, f) => HostAfterUri(f)
  {
  }

  lemma {:induction false} RunHostLate(b: string, i: nat, cap: int, mc: Machine)
    requires i <= |b| && HostLate(mc)
    ensures HostAfterUri(Run(b, i, cap, mc).f)
    decreases |b| - i
  {
    if i < |b| && b[i] != '\0' {
      HostLateStep(b, i, cap, mc);
      match Step(b, i, cap, mc)
      case Next(mc') => RunHostLate(b, i + 1, cap, mc');
      case Stop(_, _) =>
    }
  }

  // ----- decisions use only the octets read so far

  datatype Progress = Running(mc: Machine) | Finished(r: Result)

  /** The parser after the octets of b, without knowing whether more will follow. */
  function Feed(b: string, i: nat, cap: int, mc: Machine): Progress
    requires i <= |b|
    decreases |b| - i
  {
    if i == |b| then Running(mc)
    else if b[i] == '\0' then Finished(Result(0, mc.f))
    else match Step(b, i, cap, mc)
      case Next(mc') => Feed(b, i + 1, cap, mc')
      case Stop(code, f) => Finished(Result(code, f))
  }

  lemma HeaderPrefix(b: string, more: string, m: nat, i: nat)
    requires m <= i < |b|
    ensures HeaderOf(b + more, m, i) == HeaderOf(b, m, i)
  {
    if i - m in {4, 6, 7, 10, 14} {
      var w := if i - m == 4 then 4 else if i - m == 6 then 6 else 5;
      assert (b + more)[m..m + w] == b[m..m + w];
    }
  }

  lemma StepPrefix(b: string, more: string, i: nat, cap: int, mc: Machine)
    requires i < |b| && mc.m <= i
    ensures Step(b + more, i, cap, mc) == Step(b, i, cap, mc)
    ensures Step(b, i, cap, mc).Next? ==> Step(b, i, cap, mc).mc.m <= i
  {
    match mc.state
    case Name => HeaderPrefix(b, more, mc.m, i);
    case Method => assert (b + more)[mc.m..i + 1] == b[mc.m..i + 1];
    case _ =>
  }

  /**
   Parsing a payload that continues b is parsing b first: what was decided on b stays decided,
   and otherwise the parser goes on from the state it reached.
   */
  lemma {:induction false} Incremental(b: string, more: string, i: nat, cap: int, mc: Machine)
    requires mc.m <= i <= |b|
    ensures Run(b + more, i, cap, mc) == match Feed(b, i, cap, mc)
                                         case Finished(r) => r
                                         case Running(mc') => Run(b + more, |b|, cap, mc')
    decreases |b| - i
  {
    if i < |b| && b[i] != '\0' {
      assert (b + more)[i] == b[i];
      StepPrefix(b, more, i, cap, mc);
      match Step(b, i, cap, mc)
      case Next(mc') => Incremental(b, more, i + 1, cap, mc');
      case Stop(_, _) =>
    }
  }

  // ----- parsing inverts printing

  datatype HeaderLine = HeaderLine(name: string, pad: nat, value: string)

  datatype Request = Request(post: bool, uri: string, version: string, headers: seq<HeaderLine>, body: string)

  const CRLF := [CR, LF]

  function PrintHeader(h: HeaderLine): string {
    h.name + ":" + Blanks(h.pad) + h.value + CRLF
  }

  function PrintHeaders(hs: seq<HeaderLine>): string {
    if hs == [] then "" else PrintHeader(hs[0]) + PrintHeaders(hs[1..])
  }

  function Verb(post: bool): string {
    if post then "POST" else "GET"
  }

  function PrintLine(r: Request): string {
    Verb(r.post) + " " + r.uri + " " + r.version + CRLF
  }

  function Print(r: Request): string {
    PrintLine(r) + PrintHeaders(r.headers) + CRLF + r.body
  }

  /** No octet of the text is one of these. */
  predicate Free(s: string, of: string) {
    forall k :: 0 <= k < |s| ==> s[k] !in of
  }

  predicate HeaderOk(h: HeaderLine) {
    && h.name != "" && Free(h.name, " :\0") && h.name[0] !in CRLF
    && h.value != "" && Free(h.value, "\r\n\0") && h.value[0] !in " :"
  }

  predicate RequestOk(r: Request) {
    && r.uri != "" && r.uri[0] == '/' && Free(r.uri, " \r\n\0")
    && r.version != "" && r.version[0] == 'H' && Free(r.version, "\n\0")
    && forall k :: 0 <= k < |r.headers| ==> HeaderOk(r.headers[k])
  }

  /** Octets from i that leave the machine as it is are skipped. */
  lemma {:induction false} Skip(b: string, i: nat, j: nat, cap: int, mc: Machine)
    requires i <= j <= |b|
    requires forall k :: i <= k < j ==> b[k] != '\0' && Step(b, k, cap, mc) == Next(mc)
    ensures Run(b, i, cap, mc) == Run(b, j, cap, mc)
    decreases j - i
  {
    if i < j { Skip(b, i + 1, j, cap, mc); }
  }

  /** The text s stands in b at i. */
  predicate Stands(b: string, i: nat, s: string) {
    i + |s| <= |b| && b[i..i + |s|] == s
  }

  lemma StandsAt(b: string, i: nat, s: string)
    requires Stands(b, i, s)
    ensures forall k :: 0 <= k < |s| ==> b[i + k] == s[k]
    ensures forall k :: i <= k < i + |s| ==> b[k] == s[k - i]
  {
    forall k | 0 <= k < |s| ensures b[i + k] == s[k] { assert s[k] == b[i..i + |s|][k]; }
  }

  lemma StandsSplit(b: string, i: nat, s: string, t: string)
    requires Stands(b, i, s + t)
    ensures Stands(b, i, s) && Stands(b, i + |s|, t)
  {
    StandsAt(b, i, s + t);
    assert forall k :: 0 <= k < |s| ==> (s + t)[k] == s[k];
    assert forall k :: 0 <= k < |t| ==> (s + t)[|s| + k] == t[k];
    assert b[i..i + |s|] == s;
    assert b[i + |s|..i + |s| + |t|] == t;
  }

  /** The header a name announces, by its length and the octets that are compared. */
  function Announces(name: string): int {
    if name == "Host" then HS_HOST
    else if name == "Cookie" then HS_COOKIE
    else if |name| == 7 && "Refer" <= name then HS_REFERER
    else if |name| == 10 && "User-" <= name then HS_USER_AGENT
    else if |name| == 14 && "Conte" <= name then HS_CONTENT_LENGTH
    else 0
  }

  lemma HeaderOfName(b: string, m: nat, name: string)
    requires Stands(b, m, name)
    ensures HeaderOf(b, m, m + |name|) == Announces(name)
  {
    var n := |name|;
    if n == 7 || n == 10 || n == 14 {
      assert b[m..m + 5] == b[m..m + n][..5] == name[..5];
    }
  }

  /** The record after one printed header whose value starts at octet s. */
  function AfterHeader(f: Fields, h: HeaderLine, s: nat): Fields {
    var a := Announces(h.name);
    if a == 0 then f
    else RecordValue(f.(headerState := a), s, s + |h.value|).value
  }

  lemma NamePart(b: string, i: nat, cap: int, mc: Machine, name: string) returns (mc': Machine)
    requires mc.state == HeadStart && Stands(b, i, name + ":")
    requires name != "" && Free(name, " :\0") && name[0] !in CRLF
    ensures Run(b, i, cap, mc) == Run(b, i + |name| + 1, cap, mc')
    ensures mc'.state == if Announces(name) == 0 then SpaceAfterValue else SpaceBeforeValue
    ensures mc'.f == Announced(mc.f, Announces(name), i + |name| + 1, cap)
  {
    StandsSplit(b, i, name, ":");
    StandsAt(b, i, name);
    var j := i + |name|;
    assert b[j] == b[j..j + 1][0] == ':';
    assert b[i] == name[0];
    Skip(b, i + 1, j, cap, Machine(Name, i, mc.f));
    HeaderOfName(b, i, name);
    mc' := Step(b, j, cap, Machine(Name, i, mc.f)).mc;
  }

  lemma PadPart(b: string, i: nat, cap: int, mc: Machine, pad: nat)
    requires mc.state == SpaceBeforeValue && Stands(b, i, Blanks(pad))
    ensures Run(b, i, cap, mc) == Run(b, i + pad, cap, mc)
  {
    StandsAt(b, i, Blanks(pad));
    Skip(b, i, i + pad, cap, mc);
  }

  lemma ValueOctets(b: string, s: nat, cap: int, mc: Machine, value: string)
    requires mc.state == SpaceBeforeValue && Stands(b, s, value)
    requires value != "" && Free(value, "\r\n\0") && value[0] !in " :"
    ensures Run(b, s, cap, mc) == Run(b, s + |value|, cap, Machine(Value, s, mc.f))
  {
    StandsAt(b, s, value);
    Skip(b, s + 1, s + |value|, cap, Machine(Value, s, mc.f));
  }

  lemma ValueEnd(b: string, e: nat, cap: int, mc: Machine)
    requires mc.state == Value && HS_HOST <= mc.f.headerState <= HS_CONTENT_LENGTH
    requires Stands(b, e, CRLF)
    ensures Run(b, e, cap, mc) == Run(b, e + 2, cap, Machine(HeadStart, mc.m, RecordValue(mc.f, mc.m, e).value))
  {
    StandsAt(b, e, CRLF);
    assert b[e] == CR && b[e + 1] == LF;
  }

  lemma ValuePart(b: string, i: nat, cap: int, mc: Machine, s: nat, e: nat, value: string) returns (mc': Machine)
    requires mc.state == SpaceBeforeValue && HS_HOST <= mc.f.headerState <= HS_CONTENT_LENGTH
    requires i <= s && e == s + |value|
    requires Stands(b, i, Blanks(s - i)) && Stands(b, s, value) && Stands(b, e, CRLF)
    requires value != "" && Free(value, "\r\n\0") && value[0] !in " :"
    ensures Run(b, i, cap, mc) == Run(b, e + 2, cap, mc')
    ensures mc'.state == HeadStart && Some(mc'.f) == RecordValue(mc.f, s, e)
  {
    PadPart(b, i, cap, mc, s - i);
    ValueOctets(b, s, cap, mc, value);
    ValueEnd(b, e, cap, Machine(Value, s, mc.f));
    mc' := Machine(HeadStart, s, RecordValue(mc.f, s, e).value);
  }

  lemma TailStands(b: string, i: nat, pad: nat, value: string)
    requires Stands(b, i, Blanks(pad) + value + CRLF)
    ensures Stands(b, i, Blanks(pad)) && Stands(b, i + pad, value) && Stands(b, i + pad + |value|, CRLF)
  {
    assert Blanks(pad) + value + CRLF == Blanks(pad) + (value + CRLF);
    StandsSplit(b, i, Blanks(pad), value + CRLF);
    StandsSplit(b, i + pad, value, CRLF);
  }

  lemma IgnoredPart(b: string, i: nat, cap: int, mc: Machine, s: string) returns (mc': Machine)
    requires mc.state == SpaceAfterValue && Stands(b, i, s + CRLF) && Free(s, "\r\n\0")
    ensures Run(b, i, cap, mc) == Run(b, i + |s| + 2, cap, mc')
    ensures mc'.state == HeadStart && mc'.f == mc.f
  {
    StandsSplit(b, i, s, CRLF);
    StandsAt(b, i, s);
    StandsAt(b, i + |s|, CRLF);
    assert b[i + |s|] == CR && b[i + |s| + 1] == LF;
    Skip(b, i, i + |s| + 1, cap, mc);
    mc' := mc.(state := HeadStart);
  }

  /** The record after the name of a header; the end of a cookie is provisional. */
  function Announced(f: Fields, a: int, j: nat, cap: int): Fields {
    if a == 0 then f
    else if a == HS_COOKIE then f.(headerState := a, cookies := At(j, cap))
    else f.(headerState := a)
  }

  lemma NameStands(b: string, i: nat, h: HeaderLine)
    requires Stands(b, i, PrintHeader(h))
    ensures Stands(b, i, h.name + ":")
    ensures Stands(b, i + |h.name| + 1, Blanks(h.pad) + h.value + CRLF)
  {
    assert PrintHeader(h) == (h.name + ":") + (Blanks(h.pad) + h.value + CRLF);
    StandsSplit(b, i, h.name + ":", Blanks(h.pad) + h.value + CRLF);
  }

  lemma RecordAnnounced(f: Fields, h: HeaderLine, j: nat, cap: int, s: nat)
    requires Announces(h.name) != 0
    ensures RecordValue(Announced(f, Announces(h.name), j, cap), s, s + |h.value|) == Some(AfterHeader(f, h, s))
  {
  }

  lemma HeaderLength(h: HeaderLine)
    ensures |PrintHeader(h)| == |h.name| + 1 + h.pad + |h.value| + 2
  {
  }

  lemma KnownHeader(b: string, i: nat, cap: int, mc: Machine, h: HeaderLine, j: nat, end: nat)
    returns (mc': Machine)
    requires mc.state == HeadStart && HeaderOk(h) && Stands(b, i, PrintHeader(h))
    requires Announces(h.name) != 0 && j == i + |h.name| + 1 && end == i + |PrintHeader(h)|
    ensures Run(b, i, cap, mc) == Run(b, end, cap, mc')
    ensures mc'.state == HeadStart && mc'.f == AfterHeader(mc.f, h, j + h.pad)
  {
    NameStands(b, i, h);
    HeaderLength(h);
    mc' := NamePart(b, i, cap, mc, h.name);
    mc' := KnownValue(b, cap, mc', mc.f, h, j, end - 2);
  }

  lemma KnownValue(b: string, cap: int, mc: Machine, f: Fields, h: HeaderLine, j: nat, e: nat) returns (mc': Machine)
    requires HeaderOk(h) && Announces(h.name) != 0 && e == j + h.pad + |h.value|
    requires mc.state == SpaceBeforeValue && mc.f == Announced(f, Announces(h.name), j, cap)
    requires Stands(b, j, Blanks(h.pad) + h.value + CRLF)
    ensures Run(b, j, cap, mc) == Run(b, e + 2, cap, mc')
    ensures mc'.state == HeadStart && mc'.f == AfterHeader(f, h, j + h.pad)
  {
    TailStands(b, j, h.pad, h.value);
    RecordAnnounced(f, h, j, cap, j + h.pad);
    mc' := ValuePart(b, j, cap, mc, j + h.pad, e, h.value);
  }

  lemma OtherHeader(b: string, i: nat, cap: int, mc: Machine, h: HeaderLine, end: nat)
    returns (mc': Machine)
    requires mc.state == HeadStart && HeaderOk(h) && Stands(b, i, PrintHeader(h))
    requires Announces(h.name) == 0 && end == i + |PrintHeader(h)|
    ensures Run(b, i, cap, mc) == Run(b, end, cap, mc')
    ensures mc'.state == HeadStart && mc'.f == mc.f
  {
    NameStands(b, i, h);
    mc' := NamePart(b, i, cap, mc, h.name);
    mc' := IgnoredPart(b, i + |h.name| + 1, cap, mc', Blanks(h.pad) + h.value);
  }

  /** One printed header line takes the parser from head to head and records its value. */
  lemma HeaderPart(b: string, i: nat, cap: int, mc: Machine, h: HeaderLine) returns (mc': Machine)
    requires mc.state == HeadStart && HeaderOk(h) && Stands(b, i, PrintHeader(h))
    ensures Run(b, i, cap, mc) == Run(b, i + |PrintHeader(h)|, cap, mc')
    ensures mc'.state == HeadStart && mc'.f == AfterHeader(mc.f, h, i + |h.name| + 1 + h.pad)
  {
    if Announces(h.name) == 0 {
      mc' := OtherHeader(b, i, cap, mc, h, i + |PrintHeader(h)|);
    } else {
      mc' := KnownHeader(b, i, cap, mc, h, i + |h.name| + 1, i + |PrintHeader(h)|);
    }
  }

  // ----- the request line

  /** Reading a URI moves only the mark. */
  lemma {:induction false} SkipUri(b: string, i: nat, j: nat, cap: int, mc: Machine) returns (mc': Machine)
    requires mc.state == Uri && i <= j <= |b|
    requires forall k :: i <= k < j ==> b[k] !in " \r\n\0"
    ensures Run(b, i, cap, mc) == Run(b, j, cap, mc')
    ensures mc'.state == Uri && mc'.f == mc.f
    decreases j - i
  {
    mc' := mc;
    if i < j {
      mc' := Step(b, i, cap, mc).mc;
      mc' := SkipUri(b, i + 1, j, cap, mc');
    }
  }

  lemma VerbPart(b: string, post: bool, cap: int, f: Fields) returns (mc': Machine)
    requires Stands(b, 0, Verb(post) + " ")
    ensures Run(b, 0, cap, Begin(f)) == Run(b, |Verb(post)| + 1, cap, mc')
    ensures mc'.state == SpacesBeforeUri && mc'.f == if post then f.(httpType := 1) else f
  {
    VerbStands(b, post);
    LettersPart(b, |Verb(post)|, cap, f);
    mc' := Step(b, |Verb(post)|, cap, Machine(Method, 0, f)).mc;
  }

  lemma VerbStands(b: string, post: bool)
    requires Stands(b, 0, Verb(post) + " ")
    ensures var n := |Verb(post)|;
      && 3 <= n < |b| && b[n] == ' ' && b[0..n + 1] == (if post then "POST " else "GET ")
      && forall k :: 0 <= k < n ==> 'A' <= b[k] <= 'Z'
  {
    var s := if post then "POST " else "GET ";
    assert Verb(post) + " " == s;
    StandsAt(b, 0, s);
    assert forall k :: 0 <= k < |s| - 1 ==> 'A' <= s[k] <= 'Z';
  }

  /** Reading capital letters moves only the state. */
  lemma LettersPart(b: string, n: nat, cap: int, f: Fields)
    requires 0 < n <= |b| && forall k :: 0 <= k < n ==> 'A' <= b[k] <= 'Z'
    ensures Run(b, 0, cap, Begin(f)) == Run(b, n, cap, Machine(Method, 0, f))
  {
    Skip(b, 1, n, cap, Machine(Method, 0, f));
  }

  lemma UriPart(b: string, i: nat, cap: int, mc: Machine, uri: string) returns (mc': Machine)
    requires mc.state == SpacesBeforeUri && Stands(b, i, uri + " ")
    requires uri != "" && uri[0] == '/' && Free(uri, " \r\n\0")
    ensures Run(b, i, cap, mc) == Run(b, i + |uri| + 1, cap, mc')
    ensures mc'.state == Http09 && mc'.f == mc.f.(uri := At(i, i + |uri| - 1))
  {
    StandsSplit(b, i, uri, " ");
    StandsAt(b, i, uri);
    StandsAt(b, i + |uri|, " ");
    assert b[i] == uri[0] && b[i + |uri|] == ' ';
    mc' := Step(b, i, cap, mc).mc;
    mc' := SkipUri(b, i + 1, i + |uri|, cap, mc');
    mc' := Step(b, i + |uri|, cap, mc').mc;
  }

  lemma VersionPart(b: string, i: nat, cap: int, mc: Machine, version: string) returns (mc': Machine)
    requires mc.state == Http09 && Stands(b, i, version + CRLF)
    requires version != "" && version[0] == 'H' && Free(version, "\n\0")
    ensures Run(b, i, cap, mc) == Run(b, i + |version| + 2, cap, mc')
    ensures mc'.state == HeadStart && mc'.f == mc.f
  {
    StandsSplit(b, i, version, CRLF);
    StandsAt(b, i, version);
    StandsAt(b, i + |version|, CRLF);
    assert b[i] == version[0] && b[i + |version|] == CR && b[i + |version| + 1] == LF;
    mc' := mc.(state := SpacesAfterDigit);
    Skip(b, i + 1, i + |version| + 1, cap, mc');
    mc' := mc'.(state := HeadStart);
  }

  lemma LineStands(b: string, r: Request)
    requires Stands(b, 0, PrintLine(r))
    ensures Stands(b, 0, Verb(r.post) + " ")
    ensures Stands(b, |Verb(r.post)| + 1, r.uri + " ")
    ensures Stands(b, |Verb(r.post)| + 1 + |r.uri| + 1, r.version + CRLF)
  {
    LineSplits(r);
    ThreeStand(b, Verb(r.post) + " ", r.uri + " ", r.version + CRLF);
  }

  lemma LineSplits(r: Request)
    ensures PrintLine(r) == (Verb(r.post) + " ") + ((r.uri + " ") + (r.version + CRLF))
    ensures |PrintLine(r)| == |Verb(r.post)| + 1 + |r.uri| + 1 + |r.version| + 2
  {
  }

  lemma ThreeStand(b: string, v: string, u: string, w: string)
    requires Stands(b, 0, v + (u + w))
    ensures Stands(b, 0, v) && Stands(b, |v|, u) && Stands(b, |v| + |u|, w)
  {
    StandsSplit(b, 0, v, u + w);
    StandsSplit(b, |v|, u, w);
  }

  lemma LinePart(b: string, r: Request, cap: int, f: Fields) returns (mc': Machine)
    requires RequestOk(r) && Stands(b, 0, PrintLine(r))
    ensures Run(b, 0, cap, Begin(f)) == Run(b, |PrintLine(r)|, cap, mc')
    ensures var u := |Verb(r.post)| + 1;
      && mc'.state == HeadStart
      && mc'.f == f.(httpType := if r.post then 1 else f.httpType, uri := At(u, u + |r.uri| - 1))
  {
    LineStands(b, r);
    LineSplits(r);
    mc' := LinePieces(b, r.post, |Verb(r.post)| + 1, r.uri, r.version, cap, f);
  }

  lemma LinePieces(b: string, post: bool, u: nat, uri: string, version: string, cap: int, f: Fields)
    returns (mc': Machine)
    requires u == |Verb(post)| + 1 && Stands(b, 0, Verb(post) + " ")
    requires Stands(b, u, uri + " ") && uri != "" && uri[0] == '/' && Free(uri, " \r\n\0")
    requires Stands(b, u + |uri| + 1, version + CRLF) && version != "" && version[0] == 'H' && Free(version, "\n\0")
    ensures Run(b, 0, cap, Begin(f)) == Run(b, u + |uri| + 1 + |version| + 2, cap, mc')
    ensures mc'.state == HeadStart
    ensures mc'.f == f.(httpType := if post then 1 else f.httpType, uri := At(u, u + |uri| - 1))
  {
    mc' := VerbPart(b, post, cap, f);
    mc' := UriPart(b, u, cap, mc', uri);
    mc' := VersionPart(b, u + |uri| + 1, cap, mc', version);
  }

  // ----- all headers

  /** The value of the last header that announces a. */
  function Last(hs: seq<HeaderLine>, a: int): Option<string> {
    if hs == [] then None
    else if Announces(hs[|hs| - 1].name) == a then Some(hs[|hs| - 1].value)
    else Last(hs[..|hs| - 1], a)
  }

  function SliceOf(f: Fields, a: int): Slice {
    if a == HS_HOST then f.host
    else if a == HS_USER_AGENT then f.ua
    else if a == HS_REFERER then f.referer
    else if a == HS_COOKIE then f.cookies
    else f.contentLen
  }

  /** The slice holds the text, or is as it was when there is none. */
  predicate Reads(b: string, s: Slice, v: Option<string>, was: Slice) {
    match v
    case None => s == was
    case Some(text) =>
      && s.start.Some? && s.start.value >= 0
      && Stands(b, s.start.value, text)
      && s.end == Some(s.start.value + |text| - 1)
  }

  function Before(a: int, stale: Slice): Slice {
    if a == HS_CONTENT_LENGTH then stale else UNSET
  }

  /** Each slice holds the last value that is announced for it; stale was that of the Content-Length. */
  predicate AllRead(b: string, f: Fields, hs: seq<HeaderLine>, stale: Slice) {
    forall a :: HS_HOST <= a <= HS_CONTENT_LENGTH ==> Reads(b, SliceOf(f, a), Last(hs, a), Before(a, stale))
  }

  lemma HeaderRead(b: string, f: Fields, done: seq<HeaderLine>, h: HeaderLine, s: nat, stale: Slice)
    requires AllRead(b, f, done, stale) && Stands(b, s, h.value)
    ensures AllRead(b, AfterHeader(f, h, s), done + [h], stale)
    ensures var g := AfterHeader(f, h, s); g.uri == f.uri && g.httpType == f.httpType
  {
    assert (done + [h])[..|done|] == done;
    var g := AfterHeader(f, h, s);
    forall a | HS_HOST <= a <= HS_CONTENT_LENGTH
      ensures Reads(b, SliceOf(g, a), Last(done + [h], a), Before(a, stale))
    {
      if a != Announces(h.name) {
        assert SliceOf(g, a) == SliceOf(f, a);
      }
    }
  }

  lemma {:induction false} HeadersPart(b: string, i: nat, cap: int, mc: Machine,
                                       done: seq<HeaderLine>, hs: seq<HeaderLine>, stale: Slice)
    returns (mc': Machine)
    requires mc.state == HeadStart && Stands(b, i, PrintHeaders(hs))
    requires forall k :: 0 <= k < |hs| ==> HeaderOk(hs[k])
    requires AllRead(b, mc.f, done, stale)
    ensures Run(b, i, cap, mc) == Run(b, i + |PrintHeaders(hs)|, cap, mc')
    ensures mc'.state == HeadStart && AllRead(b, mc'.f, done + hs, stale)
    ensures mc'.f.uri == mc.f.uri && mc'.f.httpType == mc.f.httpType
    decreases |hs|
  {
    mc' := mc;
    if hs == [] {
      assert done + hs == done;
    } else {
      HeadersStand(b, i, hs);
      mc' := OneHeader(b, i, cap, mc, done, hs[0], stale);
      mc' := HeadersPart(b, i + |PrintHeader(hs[0])|, cap, mc', done + [hs[0]], hs[1..], stale);
      DoneMore(done, hs);
    }
  }

  lemma DoneMore(done: seq<HeaderLine>, hs: seq<HeaderLine>)
    requires hs != []
    ensures done + [hs[0]] + hs[1..] == done + hs
  {
  }

  lemma HeadersStand(b: string, i: nat, hs: seq<HeaderLine>)
    requires hs != [] && Stands(b, i, PrintHeaders(hs))
    ensures |PrintHeaders(hs)| == |PrintHeader(hs[0])| + |PrintHeaders(hs[1..])|
    ensures Stands(b, i, PrintHeader(hs[0])) && Stands(b, i + |PrintHeader(hs[0])|, PrintHeaders(hs[1..]))
  {
    StandsSplit(b, i, PrintHeader(hs[0]), PrintHeaders(hs[1..]));
  }

  lemma OneHeader(b: string, i: nat, cap: int, mc: Machine, done: seq<HeaderLine>, h: HeaderLine,
                  stale: Slice)
    returns (mc': Machine)
    requires mc.state == HeadStart && Stands(b, i, PrintHeader(h)) && HeaderOk(h)
    requires AllRead(b, mc.f, done, stale)
    ensures Run(b, i, cap, mc) == Run(b, i + |PrintHeader(h)|, cap, mc')
    ensures mc'.state == HeadStart && AllRead(b, mc'.f, done + [h], stale)
    ensures mc'.f.uri == mc.f.uri && mc'.f.httpType == mc.f.httpType
  {
    mc' := HeaderPart(b, i, cap, mc, h);
    ValueRead(b, i, mc.f, done, h, mc'.f, stale);
  }

  lemma ValueRead(b: string, i: nat, f: Fields, done: seq<HeaderLine>, h: HeaderLine, f': Fields, stale: Slice)
    requires Stands(b, i, PrintHeader(h)) && AllRead(b, f, done, stale)
    requires f' == AfterHeader(f, h, i + |h.name| + 1 + h.pad)
    ensures AllRead(b, f', done + [h], stale) && f'.uri == f.uri && f'.httpType == f.httpType
  {
    ValueStands(b, i, h);
    HeaderRead(b, f, done, h, i + |h.name| + 1 + h.pad, stale);
  }

  lemma ValueStands(b: string, i: nat, h: HeaderLine)
    requires Stands(b, i, PrintHeader(h))
    ensures Stands(b, i + |h.name| + 1 + h.pad, h.value)
  {
    NameStands(b, i, h);
    TailStands(b, i + |h.name| + 1, h.pad, h.value);
  }

  lemma EndPart(b: string, i: nat, cap: int, mc: Machine)
    requires mc.state == HeadStart && Stands(b, i, CRLF)
    ensures Run(b, i, cap, mc) == Result(0, mc.f.(postStart := Some(i + 2)))
  {
    StandsAt(b, i, CRLF);
    assert b[i] == CR && b[i + 1] == LF;
  }

  lemma PrintStands(r: Request)
    ensures var b, l, h := Print(r), PrintLine(r), PrintHeaders(r.headers);
      && Stands(b, 0, l) && Stands(b, |l|, h) && Stands(b, |l| + |h|, CRLF)
      && Stands(b, |l| + |h| + 2, r.body) && |b| == |l| + |h| + 2 + |r.body|
  {
    FourStand(PrintLine(r), PrintHeaders(r.headers), CRLF, r.body);
  }

  lemma FourStand(l: string, h: string, c: string, t: string)
    ensures var b := l + h + c + t;
      && Stands(b, 0, l) && Stands(b, |l|, h) && Stands(b, |l| + |h|, c) && Stands(b, |l| + |h| + |c|, t)
  {
    var b := l + h + c + t;
    assert b == l + (h + (c + t)) && Stands(b, 0, b);
    StandsSplit(b, 0, l, h + (c + t));
    StandsSplit(b, |l|, h, c + t);
    StandsSplit(b, |l| + |h|, c, t);
  }

  lemma RunPrinted(r: Request, cap: int, f: Fields, stale: Slice) returns (mc': Machine)
    requires RequestOk(r) && AllRead(Print(r), f, [], stale)
    ensures Run(Print(r), 0, cap, Begin(f)) == Result(0, mc'.f.(postStart := Some(|Print(r)| - |r.body|)))
    ensures AllRead(Print(r), mc'.f, r.headers, stale)
    ensures mc'.f.httpType == if r.post then 1 else f.httpType
    ensures mc'.f.uri == At(|Verb(r.post)| + 1, |Verb(r.post)| + |r.uri|)
  {
    PrintStands(r);
    mc' := RunParts(Print(r), r, |PrintLine(r)|, |PrintLine(r)| + |PrintHeaders(r.headers)|, cap, f, stale);
  }

  /** The same for any payload in which the parts of the request follow one another. */
  lemma RunParts(b: string, r: Request, l: nat, e: nat, cap: int, f: Fields, stale: Slice)
    returns (mc': Machine)
    requires RequestOk(r) && AllRead(b, f, [], stale) && l == |PrintLine(r)| && e == l + |PrintHeaders(r.headers)|
    requires Stands(b, 0, PrintLine(r)) && Stands(b, l, PrintHeaders(r.headers)) && Stands(b, e, CRLF)
    ensures Run(b, 0, cap, Begin(f)) == Result(0, mc'.f.(postStart := Some(e + 2)))
    ensures AllRead(b, mc'.f, r.headers, stale)
    ensures mc'.f.httpType == if r.post then 1 else f.httpType
    ensures mc'.f.uri == At(|Verb(r.post)| + 1, |Verb(r.post)| + |r.uri|)
  {
    mc' := LinePart(b, r, cap, f);
    mc' := HeadersPart(b, l, cap, mc', [], r.headers, stale);
    assert [] + r.headers == r.headers;
    EndPart(b, e, cap, mc');
  }

  /**
   Parsing a printed request succeeds and finds the method, the URI, the body and, for each of
   the five headers, the value of the last line that announces it. Without a line that announces
   the Content-Length its slice stays what it was.
   */
  lemma PrintThenParse(r: Request, cap: int, headerState: int, stale: Slice)
    requires RequestOk(r)
    ensures var b := Print(r);
      var res := Run(b, 0, cap, Begin(Initial(headerState, stale)));
      && res.code == 0
      && res.f.httpType == (if r.post then 1 else 0)
      && Reads(b, res.f.uri, Some(r.uri), UNSET)
      && AllRead(b, res.f, r.headers, stale)
      && res.f.postStart == Some(|b| - |r.body|)
  {
    var b := Print(r);
    var mc := RunPrinted(r, cap, Initial(headerState, stale), stale);
    var g := mc.f.(postStart := Some(|b| - |r.body|));
    PrintStands(r);
    LineStands(b, r);
    StandsSplit(b, |Verb(r.post)| + 1, r.uri, " ");
    assert Reads(b, g.uri, Some(r.uri), UNSET);
    BodyKeepsReads(b, mc.f, g, r.headers, stale);
  }

  lemma BodyKeepsReads(b: string, f: Fields, g: Fields, hs: seq<HeaderLine>, stale: Slice)
    requires AllRead(b, f, hs, stale) && g == f.(postStart := g.postStart)
    ensures AllRead(b, g, hs, stale)
  {
    forall a | HS_HOST <= a <= HS_CONTENT_LENGTH ensures Reads(b, SliceOf(g, a), Last(hs, a), Before(a, stale)) {
      assert SliceOf(g, a) == SliceOf(f, a);
    }
  }

  /** In a printed request a Content-Length is recorded exactly if a header announces it. */
  lemma PrintedLength(r: Request, cap: int, headerState: int, stale: Slice)
    requires RequestOk(r)
    ensures RecordsLength(Print(r), 0, cap, Begin(Initial(headerState, stale)))
       <==> Last(r.headers, HS_CONTENT_LENGTH).Some?
  {
    var b, clean := Print(r), Begin(Initial(headerState, UNSET));
    var other := At(0, 0);
    PrintThenParse(r, cap, headerState, UNSET);
    PrintThenParse(r, cap, headerState, other);
    RunKeepsLength(b, 0, cap, clean, other);
    RunKeepsLength(b, 0, cap, clean, stale);
    assert WithLength(clean, other) == Begin(Initial(headerState, other));
    assert WithLength(clean, stale) == Begin(Initial(headerState, stale));
    var f, g := Run(b, 0, cap, clean).f, Run(b, 0, cap, Begin(Initial(headerState, other))).f;
    var v := Last(r.headers, HS_CONTENT_LENGTH);
    assert Reads(b, SliceOf(f, HS_CONTENT_LENGTH), v, Before(HS_CONTENT_LENGTH, UNSET));
    assert Reads(b, SliceOf(g, HS_CONTENT_LENGTH), v, Before(HS_CONTENT_LENGTH, other));
  }

  /** A request without a Content-Length, parsed into a record that held one before. */
  lemma StaleLength(cap: int, headerState: int)
    ensures var b := Print(Request(false, "/", "HTTP/1.1", [HeaderLine("Host", 1, "a")], ""));
      var stale := At(900, 5);
      var r := Run(b, 0, cap, Begin(Initial(headerState, stale)));
      r.code == 0 && r.f.contentLen == stale && !SoundLength(b, r.f.contentLen)
  {
    var r := Request(false, "/", "HTTP/1.1", [HeaderLine("Host", 1, "a")], "");
    var b := Print(r);
    PrintThenParse(r, cap, headerState, At(900, 5));
    assert r.headers[..0] == [] && Last(r.headers, HS_CONTENT_LENGTH) == None;
    var res := Run(b, 0, cap, Begin(Initial(headerState, At(900, 5))));
    assert Reads(b, SliceOf(res.f, HS_CONTENT_LENGTH), None, Before(HS_CONTENT_LENGTH, At(900, 5)));
  }
}
