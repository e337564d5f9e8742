/** The request, response and header grammars of the parser (sections 3.1 and 3.2 of RFC 7230), read one byte
    at a time from a buffer `b`; positions are offsets from its start. */
module RequestSpec {
  import opened Bytes
  import opened Options

  /** The position a scan reaches, or one of the parser's two failures: malformed (-1), or partial (-2). */
  datatype Scan = Found(pos: nat) | Bad | More

  /** A parsed value and the position after it, or a failure. */
  datatype Parse<+T> = Ok(value: T, pos: nat) | Err | Partial {
    predicate IsFailure() { !Ok? }
    function PropagateFailure<U>(): Parse<U>
      requires IsFailure()
    {
      if Err? then Err else Partial
    }
    function Extract(): (T, nat)
      requires Ok?
    {
      (value, pos)
    }
  }

  /** A stretch of the buffer; the parser returns pointers into its input. */
  datatype Slice = Slice(start: nat, len: nat) {
    predicate In(b: seq<Byte>) { start + len <= |b| }

    function Of(b: seq<Byte>): seq<Byte>
      requires In(b)
    {
      b[start..start + len]
    }
  }

  /** A header; a continuation line of a folded value has no name. */
  datatype Header = Header(name: Option<Slice>, value: Slice)

  datatype Request = Request(verb: Slice, path: Slice, minor: nat, headers: seq<Header>)

  datatype Response = Response(minor: nat, status: nat, msg: Slice, headers: seq<Header>)

  predicate IsPrintableAscii(c: Byte) {
    ' ' <= c < DEL
  }

  /** Control characters, DEL included. */
  predicate IsControl(c: Byte) {
    c < ' ' || c == DEL
  }

  /** The control characters that end header values and reason phrases: all but the tab. */
  predicate EndsText(c: Byte) {
    (c < ' ' && c != '\t') || c == DEL
  }

  predicate IsBlank(c: Byte) {
    c == ' ' || c == '\t'
  }

  predicate IsDigit(c: Byte) {
    '0' <= c <= '9'
  }

  /** The characters of a token (section 3.2.6 of RFC 7230). */
  predicate IsTokenChar(c: Byte) {
    || c == '!' || '#' <= c <= '\'' || c == '*' || c == '+' || c == '-' || c == '.'
    || '0' <= c <= '9' || 'A' <= c <= 'Z' || '^' <= c <= 'z' || c == '|' || c == '~'
  }

  /** The first `next` at or after `i`, with only token characters before it. */
  function TokenEnd(b: seq<Byte>, i: nat, next: Byte): (r: Scan)
    requires i <= |b|
    ensures r.Found? ==> i <= r.pos < |b|
    decreases |b| - i
  {
    if i == |b| then More
    else if b[i] == next then Found(i)
    else if !IsTokenChar(b[i]) then Bad
    else TokenEnd(b, i + 1, next)
  }

  /** The first space at or after `i`, with no control character before it. */
  function PathEnd(b: seq<Byte>, i: nat): (r: Scan)
    requires i <= |b|
    ensures r.Found? ==> i <= r.pos < |b|
    decreases |b| - i
  {
    if i == |b| then More
    else if b[i] == ' ' then Found(i)
    else if IsControl(b[i]) then Bad
    else PathEnd(b, i + 1)
  }

  /** The first character at or after `i` that ends a text. */
  function TextEnd(b: seq<Byte>, i: nat): (r: Scan)
    requires i <= |b|
    ensures r != Bad && (r.Found? ==> i <= r.pos < |b|)
    decreases |b| - i
  {
    if i == |b| then More
    else if EndsText(b[i]) then Found(i)
    else TextEnd(b, i + 1)
  }

  /** The first character at or after `i` that is not a space. */
  function SpacesEnd(b: seq<Byte>, i: nat): (r: Scan)
    requires i <= |b|
    ensures r != Bad && (r.Found? ==> i <= r.pos < |b|)
    decreases |b| - i
  {
    if i == |b| then More
    else if b[i] != ' ' then Found(i)
    else SpacesEnd(b, i + 1)
  }

  /** The first character of `b[i..end]` that is not a space, or `end`. */
  function SkipSpaces(b: seq<Byte>, i: nat, end: nat): (r: nat)
    requires i <= end <= |b|
    ensures i <= r <= end
    decreases end - i
  {
    if i < end && b[i] == ' ' then SkipSpaces(b, i + 1, end) else i
  }

  /** The first character at or after `i` that is neither a space nor a tab. */
  function BlanksEnd(b: seq<Byte>, i: nat): (r: Scan)
    requires i <= |b|
    ensures r != Bad && (r.Found? ==> i <= r.pos < |b|)
    decreases |b| - i
  {
    if i == |b| then More
    else if !IsBlank(b[i]) then Found(i)
    else BlanksEnd(b, i + 1)
  }

  /** The position after the line end at `i`: a line feed, or a carriage return and a line feed. */
  function Newline(b: seq<Byte>, i: nat): (r: Scan)
    requires i <= |b|
    ensures r.Found? ==> i < r.pos <= |b|
  {
    if i == |b| then More
    else if b[i] == '\n' then Found(i + 1)
    else if b[i] != '\r' then Bad
    else if i + 1 == |b| then More
    else if b[i + 1] == '\n' then Found(i + 2)
    else Bad
  }

  /** The end of `b[start..end]` without its trailing blanks. */
  function TrimEnd(b: seq<Byte>, start: nat, end: nat): (r: nat)
    requires start <= end <= |b|
    ensures start <= r <= end
    decreases end
  {
    if start < end && IsBlank(b[end - 1]) then TrimEnd(b, start, end - 1) else end
  }

  /** The text from `i` to the end of its line, and the position after that. */
  function TextLine(b: seq<Byte>, i: nat): (r: Parse<Slice>)
    requires i <= |b|
    ensures r.Ok? ==> i <= i + r.value.len < r.pos <= |b| && r.value.start == i
  {
    match TextEnd(b, i)
    case More => Partial
    case Found(e) =>
      match Newline(b, e)
      case More => Partial
      case Bad => Err
      case Found(n) => Ok(Slice(i, e - i), n)
  }

  /** A header value: a line's text without its trailing blanks. */
  function Value(b: seq<Byte>, i: nat): (r: Parse<Slice>)
    requires i <= |b|
    ensures r.Ok? ==> i < r.pos <= |b| && r.value.start == i && i + r.value.len < r.pos
  {
    var (text, n) :- TextLine(b, i);
    Ok(Slice(i, TrimEnd(b, i, i + text.len) - i), n)
  }

  /** One header line; all but the first may continue the line before. */
  function ParseHeader(b: seq<Byte>, i: nat, first: bool): (r: Parse<Header>)
    requires i < |b|
    ensures r.Ok? ==> i < r.pos <= |b|
  {
    if !first && IsBlank(b[i]) then
      var (value, n) :- Value(b, i);
      Ok(Header(None, value), n)
    else
      match TokenEnd(b, i, ':')
      case More => Partial
      case Bad => Err
      case Found(colon) =>
        if colon == i then Err
        else
          match BlanksEnd(b, colon + 1)
          case More => Partial
          case Found(v) =>
            var (value, n) :- Value(b, v);
            Ok(Header(Some(Slice(i, colon - i)), value), n)
  }

  /** Header lines up to the blank line, when `n` of at most `max` are already read. */
  function ParseHeaders(b: seq<Byte>, i: nat, n: nat, max: nat): (r: Parse<seq<Header>>)
    requires i <= |b| && n <= max
    ensures r.Ok? ==> i < r.pos <= |b| && n + |r.value| <= max
    decreases |b| - i
  {
    if i == |b| then Partial
    else if b[i] == '\r' || b[i] == '\n' then
      match Newline(b, i)
      case More => Partial
      case Bad => Err
      case Found(k) => Ok([], k)
    else if n == max then Err
    else
      var (h, k) :- ParseHeader(b, i, n == 0);
      var (hs, end) :- ParseHeaders(b, k, n + 1, max);
      Ok([h] + hs, end)
  }

  const HTTP_1: seq<Byte> := "HTTP/1."

  /** `HTTP/1.` and a digit, judged only once a ninth byte is there. */
  function ParseVersion(b: seq<Byte>, i: nat): (r: Parse<nat>)
    requires i <= |b|
    ensures r.Ok? ==> i + 8 == r.pos < |b| && r.value < 10
  {
    if |b| - i < 9 then Partial
    else if b[i..i + 7] != HTTP_1 || !IsDigit(b[i + 7]) then Err
    else Ok(b[i + 7] as int - '0' as int, i + 8)
  }

  /** A leading blank line, which some clients send after a body, is skipped. */
  function LeadingBlank(b: seq<Byte>): (r: Scan)
    ensures r.Found? ==> r.pos <= |b|
  {
    if b == [] then More
    else if b[0] == '\r' || b[0] == '\n' then Newline(b, 0)
    else Found(0)
  }

  /** Method, path and version up to the request line's end. An empty method is refused only after the path. */
  function ParseRequestLine(b: seq<Byte>, i: nat): (r: Parse<Request>)
    requires i <= |b|
    ensures r.Ok? ==> i < r.pos <= |b|
  {
    match TokenEnd(b, i, ' ')
    case More => Partial
    case Bad => Err
    case Found(m) =>
      match SpacesEnd(b, m + 1)
      case More => Partial
      case Found(p) =>
        match PathEnd(b, p)
        case More => Partial
        case Bad => Err
        case Found(q) =>
          match SpacesEnd(b, q + 1)
          case More => Partial
          case Found(v) =>
            if m == i || q == p then Err
            else
              var (minor, e) :- ParseVersion(b, v);
              match Newline(b, e)
              case More => Partial
              case Bad => Err
              case Found(n) => Ok(Request(Slice(i, m - i), Slice(p, q - p), minor, []), n)
  }

  function ParseRequest(b: seq<Byte>, max: nat): (r: Parse<Request>)
    ensures r.Ok? ==> 0 < r.pos <= |b| && |r.value.headers| <= max
  {
    match LeadingBlank(b)
    case More => Partial
    case Bad => Err
    case Found(i) =>
      var (line, n) :- ParseRequestLine(b, i);
      var (hs, end) :- ParseHeaders(b, n, 0, max);
      Ok(line.(headers := hs), end)
  }

  /** Version, status and reason phrase; three digits are judged only once a fourth byte is there. */
  function ParseStatusLine(b: seq<Byte>): (r: Parse<Response>)
    ensures r.Ok? ==> 0 < r.pos <= |b|
  {
    var (minor, e) :- ParseVersion(b, 0);
    if b[e] != ' ' then Err
    else
      match SpacesEnd(b, e + 1)
      case More => Partial
      case Found(s) =>
        if |b| - s < 4 then Partial
        else if !IsDigit(b[s]) || !IsDigit(b[s + 1]) || !IsDigit(b[s + 2]) then Err
        else
          var status := Digit(b[s]) * 100 + Digit(b[s + 1]) * 10 + Digit(b[s + 2]);
          var (text, n) :- TextLine(b, s + 3);
          if text.len == 0 then Ok(Response(minor, status, text, []), n)
          else if b[s + 3] != ' ' then Err
          else
            var start := SkipSpaces(b, s + 3, s + 3 + text.len);
            Ok(Response(minor, status, Slice(start, s + 3 + text.len - start), []), n)
  }

  function Digit(c: Byte): nat
    requires IsDigit(c)
  {
    c as int - '0' as int
  }

  function ParseResponse(b: seq<Byte>, max: nat): (r: Parse<Response>)
    ensures r.Ok? ==> 0 < r.pos <= |b|
  {
    var (line, n) :- ParseStatusLine(b);
    var (hs, end) :- ParseHeaders(b, n, 0, max);
    Ok(line.(headers := hs), end)
  }

  /** Looks for two line ends in a row from `i` on, after `seen` of them. */
  function CompleteFrom(b: seq<Byte>, i: nat, seen: nat): (r: Scan)
    requires i <= |b| && seen < 2
    ensures r.Found? ==> i < r.pos <= |b|
    decreases |b| - i
  {
    if i == |b| then More
    else if b[i] == '\r' || b[i] == '\n' then
      match Newline(b, i)
      case Found(k) => if seen == 1 then Found(k) else CompleteFrom(b, k, 1)
      case failure => failure
    else CompleteFrom(b, i + 1, 0)
  }

  /** The completeness pre-scan resumes three bytes before the end of what was seen last time. */
  function IsComplete(b: seq<Byte>, lastLen: nat): Scan
    requires lastLen <= |b|
  {
    CompleteFrom(b, if lastLen < 3 then 0 else lastLen - 3, 0)
  }

  /** An entry point: with `lastLen` not zero the pre-scan decides first. */
  function WithPreScan<T>(b: seq<Byte>, lastLen: nat, plain: Parse<T>): Parse<T>
    requires lastLen <= |b|
  {
    if lastLen == 0 then plain
    else
      match IsComplete(b, lastLen)
      case More => Partial
      case Bad => Err
      case Found(_) => plain
  }
}
