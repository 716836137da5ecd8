/**
 The byte-at-a-time parser of HTTP request heads (the request line and header fields of
 sections 3.1.1 and 3.2 of RFC 7230). Octets are chars; pointers into the payload are indices.
 */
module HttpParser {
  import opened Options

  datatype State =
    | Start | Method | SpacesBeforeUri | Uri | Http09 | SpacesAfterDigit | HeadStart
    | Name | SpaceBeforeValue | Value | SpaceAfterValue | IgnoreLine | AlmostDone

  const CR := '\r'
  const LF := '\n'

  const HS_HOST := 1
  const HS_USER_AGENT := 2
  const HS_REFERER := 3
  const HS_COOKIE := 4
  const HS_CONTENT_LENGTH := 5

  /** A pair of pointers into the payload: the first and the last octet of a text. */
  datatype Slice = Slice(start: Option<int>, end: Option<int>)

  const UNSET := Slice(None, None)

  /** What the parser leaves in the request record. */
  datatype Fields = Fields(
    uri: Slice, host: Slice, ua: Slice, referer: Slice, cookies: Slice, contentLen: Slice,
    postStart: Option<int>, httpType: int, headerState: int)

  /** The parser between two octets: its state, its mark m and the record. */
  datatype Machine = Machine(state: State, m: nat, f: Fields)

  datatype Outcome = Next(mc: Machine) | Stop(code: int, f: Fields)

  function At(start: int, end: int): Slice {
    Slice(Some(start), Some(end))
  }

  // ----- one octet

  /** The header that a name of octets m to i-1 announces; 0 if none. */
  function HeaderOf(b: string, m: nat, i: nat): int
    requires i <= |b|
  {
    if i - m == 4 && b[m..m + 4] == "Host" then HS_HOST
    else if i - m == 6 && b[m..m + 6] == "Cookie" then HS_COOKIE
    else if i - m == 7 && b[m..m + 5] == "Refer" then HS_REFERER
    else if i - m == 10 && b[m..m + 5] == "User-" then HS_USER_AGENT
    else if i - m == 14 && b[m..m + 5] == "Conte" then HS_CONTENT_LENGTH
    else 0
  }

  /** The record when a header value ends before octet i; None stands for return code 22. */
  function RecordValue(f: Fields, m: nat, i: nat): Option<Fields> {
    var v := At(m, i - 1);
    if f.headerState == HS_HOST then Some(f.(host := v))
    else if f.headerState == HS_USER_AGENT then Some(f.(ua := v))
    else if f.headerState == HS_REFERER then Some(f.(referer := v))
    else if f.headerState == HS_COOKIE then Some(f.(cookies := v))
    else if f.headerState == HS_CONTENT_LENGTH then Some(f.(contentLen := v))
    else None
  }

  /** The mark kept while reading a URI: at most ten octets back from t. */
  function UriMark(m: nat, t: nat): nat {
    if t - m > 10 then t - 10 else m
  }

  /** The machine after octet i; cap is where the captured packet ends. */
  function Step(b: string, i: nat, cap: int, mc: Machine): Outcome
    requires i < |b|
  {
    var Machine(state, m, f) := mc;
    var ch := b[i];
    match state
    case Start =>
      if ch == CR || ch == LF then Next(mc.(m := i))
      else if ch < 'A' || ch > 'Z' then Stop(998, f)
      else Next(Machine(Method, i, f))
    case Method =>
      if ch == ' ' then
        if i - m == 3 && b[m..i + 1] == "GET " then Next(mc.(state := SpacesBeforeUri))
        else if i - m == 4 && b[m..i + 1] == "POST " then Next(Machine(SpacesBeforeUri, m, f.(httpType := 1)))
        else Stop(12, f)
      else if ch < 'A' || ch > 'Z' then Stop(13, f)
      else Next(mc)
    case SpacesBeforeUri =>
      if ch == '/' then Next(Machine(Uri, i, f.(uri := f.uri.(start := Some(i)))))
      else if ch == ' ' then Next(mc)
      else Stop(14, f)
    case Uri =>
      if ch == ' ' then
        Next(Machine(Http09, if i == 0 then m else UriMark(m, i - 1), f.(uri := f.uri.(end := Some(i - 1)))))
      else if ch == '?' then Next(mc.(m := if i == 0 then m else UriMark(m, i - 1)))
      else if ch == CR then Stop(15, f)
      else if ch == LF then Stop(16, f)
      else if ch == '\0' then Stop(17, f)
      else Next(mc)
    case Http09 =>
      if ch == ' ' then Next(mc)
      else if ch == CR then Stop(18, f)
      else if ch == LF then Stop(19, f)
      else if ch == 'H' then Next(mc.(state := SpacesAfterDigit))
      else Next(mc.(state := Uri))
    case SpacesAfterDigit =>
      if ch == LF then Next(mc.(state := HeadStart)) else Next(mc)
    case HeadStart =>
      if ch == ' ' then Next(mc)
      else if ch == CR then Next(mc.(state := AlmostDone))
      else if ch == LF then Stop(0, f.(postStart := Some(i + 1)))
      else if ch == '\0' then Stop(21, f)
      else Next(Machine(Name, i, f))
    case Name =>
      if ch != ' ' && ch != ':' then Next(mc)
      else
        var h := HeaderOf(b, m, i);
        if h == 0 then Next(mc.(state := SpaceAfterValue))
        else if h == HS_COOKIE then
          Next(Machine(SpaceBeforeValue, m, f.(headerState := h, cookies := At(i + 1, cap))))
        else Next(Machine(SpaceBeforeValue, m, f.(headerState := h)))
    case SpaceBeforeValue =>
      if ch == ':' || ch == ' ' then Next(mc) else Next(Machine(Value, i, f))
    case Value =>
      if ch == CR then
        match RecordValue(f, m, i)
        case None => Stop(22, f)
        case Some(f') => Next(mc.(f := f'))
      else if ch == LF then Next(mc.(state := HeadStart))
      else if ch == '\0' then Stop(23, f)
      else Next(mc)
    case SpaceAfterValue =>
      if ch == LF then Next(mc.(state := HeadStart))
      else if ch == '\0' then Stop(24, f)
      else Next(mc)
    case AlmostDone =>
      if ch == LF then Stop(0, f.(postStart := Some(i + 1)))
      else if ch == CR then Next(mc)
      else Stop(25, f)
    case IgnoreLine => Stop(26, f)
  }

  datatype Result = Result(code: int, f: Fields)

  /** The parser from octet i on; it stops at the end of the payload and at a NUL octet. */
  function Run(b: string, i: nat, cap: int, mc: Machine): Result
    requires i <= |b|
    decreases |b| - i
  {
    if i == |b| || b[i] == '\0' then Result(0, mc.f)
    else match Step(b, i, cap, mc)
      case Next(mc') => Run(b, i + 1, cap, mc')
      case Stop(code, f) => Result(code, f)
  }

  /**
   The record after http_parser_level_1: it clears every slice but that of the Content-Length, and
   neither that slice nor the header state has a value before.
   */
  function Initial(headerState: int, contentLen: Slice): Fields {
    Fields(UNSET, UNSET, UNSET, UNSET, UNSET, contentLen, None, 0, headerState)
  }

  function Begin(f: Fields): Machine {
    Machine(Start, 0, f)
  }

  // ----- the parser itself

  class HttpRequest {
    var uri: Slice
    var host: Slice
    var ua: Slice
    var referer: Slice
    var cookies: Slice
    var contentLen: Slice
    var postStart: Option<int>
    var httpType: int
    var headerState: int

    function View(): Fields
      reads this
    {
      Fields(uri, host, ua, referer, cookies, contentLen, postStart, httpType, headerState)
    }

    /** The switch over the length of a header name, at the octet that ends the name. */
    method EndOfName(b: string, m: nat, i: nat, cap: int) returns (state: State)
      requires m <= i < |b| && (b[i] == ' ' || b[i] == ':')
      modifies this
      ensures Step(b, i, cap, Machine(Name, m, old(View()))) == Next(Machine(state, m, View()))
    {
      state := SpaceAfterValue;
      match i - m
      case 4 =>
        if b[m..m + 4] == "Host" { state, headerState := SpaceBeforeValue, HS_HOST; }
      case 6 =>
        if b[m..m + 6] == "Cookie" {
          state, headerState := SpaceBeforeValue, HS_COOKIE;
          cookies := At(i + 1, cap);
        }
      case 7 =>
        if b[m..m + 5] == "Refer" { state, headerState := SpaceBeforeValue, HS_REFERER; }
      case 10 =>
        if b[m..m + 5] == "User-" { state, headerState := SpaceBeforeValue, HS_USER_AGENT; }
      case 14 =>
        if b[m..m + 5] == "Conte" { state, headerState := SpaceBeforeValue, HS_CONTENT_LENGTH; }
      case _ =>
    }

    /** The switch over the header that is being read, at the CR that ends its value. */
    method EndOfValue(m: nat, i: nat) returns (known: bool)
      modifies this
      ensures known == RecordValue(old(View()), m, i).Some?
      ensures View() == if known then RecordValue(old(View()), m, i).value else old(View())
    {
      known := true;
      match headerState
      case 1 => host := At(m, i - 1);
      case 2 => ua := At(m, i - 1);
      case 3 => referer := At(m, i - 1);
      case 4 => cookies := At(m, i - 1);
      case 5 => contentLen := At(m, i - 1);
      case _ => known := false;
    }

    /** http_parser_level_2 on the payload b. */
    method Parse(b: string, cap: int) returns (code: int)
      modifies this
      ensures Result(code, View()) == Run(b, 0, cap, Begin(old(View())))
    {
      var state, m: nat, i: nat := Start, 0, 0;
      while i < |b| && b[i] != '\0'
        invariant i <= |b| && m <= i
        invariant Run(b, i, cap, Machine(state, m, View())) == Run(b, 0, cap, Begin(old(View())))
      {
        var ch := b[i];
        match state {
          case Start =>
            m := i;
            if ch != CR && ch != LF {
              if ch < 'A' || ch > 'Z' { return 998; }
              state := Method;
            }
          case Method =>
            if ch == ' ' {
              if i - m == 3 && b[m..i + 1] == "GET " {
                state := SpacesBeforeUri;
              } else if i - m == 4 && b[m..i + 1] == "POST " {
                httpType := 1;
                state := SpacesBeforeUri;
              } else {
                return 12;
              }
            } else if ch < 'A' || ch > 'Z' {
              return 13;
            }
          case SpacesBeforeUri =>
            if ch == '/' {
              m := i;
              uri := uri.(start := Some(i));
              state := Uri;
            } else if ch != ' ' {
              return 14;
            }
          case Uri =>
            if ch == ' ' {
              uri := uri.(end := Some(i - 1));
              if i - 1 - m > 10 { m := i - 11; }
              state := Http09;
            } else if ch == '?' {
              if i - 1 - m > 10 { m := i - 11; }
            } else if ch == CR {
              return 15;
            } else if ch == LF {
              return 16;
            }
          case Http09 =>
            if ch == CR { return 18; }
            if ch == LF { return 19; }
            if ch == 'H' { state := SpacesAfterDigit; }
            else if ch != ' ' { state := Uri; }
          case SpacesAfterDigit =>
            if ch == LF { state := HeadStart; }
          case HeadStart =>
            if ch == CR {
              state := AlmostDone;
            } else if ch == LF {
              postStart := Some(i + 1);
              return 0;
            } else if ch != ' ' {
              m := i;
              state := Name;
            }
          case Name =>
            if ch == ' ' || ch == ':' { state := EndOfName(b, m, i, cap); }
          case SpaceBeforeValue =>
            if ch != ':' && ch != ' ' {
              m := i;
              state := Value;
            }
          case Value =>
            if ch == CR {
              var known := EndOfValue(m, i);
              if !known { return 22; }
            } else if ch == LF {
              state := HeadStart;
            }
          case SpaceAfterValue =>
            if ch == LF { state := HeadStart; }
          case AlmostDone =>
            if ch == LF {
              postStart := Some(i + 1);
              return 0;
            }
            if ch != CR { return 25; }
          case IgnoreLine =>
            return 26;
        }
        i := i + 1;
      }
      return 0;
    }
  }
}
