/** Requests as text: the parser accepts exactly the buffers that begin with a rendered request, and returns
    that request's fields. */
module RequestGrammar {
  import opened Bytes
  import opened RequestSpec
  import opened RequestScans
  import opened RequestStability
  import opened Options

  datatype Eol = CrLf | LfOnly {
    function Render(): seq<Byte> {
      if CrLf? then ['\r', '\n'] else ['\n']
    }
  }

  // The grammar's classes of bytes, listed as RFC 7230 does: the characters of a token (section 3.2.6), of a request
  // target, of field values and reason phrases, white space, and digits.

  predicate IsTchar(c: Byte) {
    c in "!#$%&'*+-.^_`|~" || '0' <= c <= '9' || 'A' <= c <= 'Z' || 'a' <= c <= 'z'
  }

  /** All but the control characters and the space. */
  predicate IsTargetChar(c: Byte) {
    '!' <= c <= '~' || '\U{80}' <= c
  }

  /** All but the control characters other than the tab. */
  predicate IsTextChar(c: Byte) {
    c == '\t' || c == ' ' || IsTargetChar(c)
  }

  predicate IsWhite(c: Byte) {
    c == ' ' || c == '\t'
  }

  /** The digit of a number below 10. */
  function DigitOf(n: nat): Byte
    requires n < 10
  {
    "0123456789"[n]
  }

  predicate Blanks(s: seq<Byte>) { forall k :: 0 <= k < |s| ==> IsWhite(s[k]) }

  predicate Spaces(s: seq<Byte>) { forall k :: 0 <= k < |s| ==> s[k] == ' ' }

  predicate Token(s: seq<Byte>) { s != [] && forall k :: 0 <= k < |s| ==> IsTchar(s[k]) }

  predicate Path(s: seq<Byte>) { s != [] && forall k :: 0 <= k < |s| ==> IsTargetChar(s[k]) }

  predicate Text(s: seq<Byte>) { forall k :: 0 <= k < |s| ==> IsTextChar(s[k]) }

  /** The parser's table is that of the tokens. */
  lemma TokenChars(c: Byte)
    ensures IsTokenChar(c) <==> IsTchar(c)
  {
  }

  /** Its other tests are those of the other classes. */
  lemma OtherChars(c: Byte)
    ensures !IsControl(c) && c != ' ' <==> IsTargetChar(c)
    ensures !EndsText(c) <==> IsTextChar(c)
    ensures IsBlank(c) <==> IsWhite(c)
    ensures IsPrintableAscii(c) <==> ' ' <= c <= '~'
    ensures IsDigit(c) <==> c in "0123456789"
  {
    if IsDigit(c) {
      assert c == "0123456789"[c as int - '0' as int];
    }
  }

  lemma DigitsAreRead(n: nat)
    requires n < 10
    ensures IsDigit(DigitOf(n)) && Digit(DigitOf(n)) == n
  {
    assert "0123456789"[n] as int == '0' as int + n;
  }

  lemma DigitsAreWritten(c: Byte)
    requires IsDigit(c)
    ensures Digit(c) < 10 && DigitOf(Digit(c)) == c
  {
    DigitsAreRead(Digit(c));
  }

  lemma TextMeaning(s: seq<Byte>)
    ensures Text(s) <==> forall k :: 0 <= k < |s| ==> !EndsText(s[k])
  {
    hide EndsText;
    hide IsTextChar;
    forall c: Byte
      ensures !EndsText(c) <==> IsTextChar(c)
    {
      OtherChars(c);
    }
  }

  lemma BlanksMeaning(s: seq<Byte>)
    ensures Blanks(s) <==> forall k :: 0 <= k < |s| ==> IsBlank(s[k])
  {
  }

  lemma TokenMeaning(s: seq<Byte>)
    ensures Token(s) <==> s != [] && forall k :: 0 <= k < |s| ==> IsTokenChar(s[k])
  {
    hide IsTokenChar;
    hide IsTchar;
    forall c: Byte
      ensures IsTokenChar(c) <==> IsTchar(c)
    {
      TokenChars(c);
    }
  }

  /** A header line: name and colon, or neither on a continuation line; then the value between blanks. */
  datatype HeaderText =
    HeaderText(name: Option<seq<Byte>>, lead: seq<Byte>, value: seq<Byte>, trail: seq<Byte>, eol: Eol)
  {
    predicate Valid() {
      && Blanks(lead) && Text(value) && Blanks(trail)
      && (value != [] ==> !IsWhite(value[|value| - 1]))
      && match name
         case Some(n) =>
           Token(n) && if value == [] then trail == [] else !IsWhite(value[0])
         case None =>
           lead == [] && value + trail != [] && IsWhite((value + trail)[0])
    }

    function Line(): seq<Byte> { value + trail + eol.Render() }

    function Render(): seq<Byte> {
      match name
      case Some(n) => n + [':'] + (lead + Line())
      case None => Line()
    }
  }

  function RenderHeaders(hs: seq<HeaderText>): seq<Byte> {
    if hs == [] then [] else hs[0].Render() + RenderHeaders(hs[1..])
  }

  /** The first line of a header block is not a continuation. */
  predicate HeaderBlock(hs: seq<HeaderText>) {
    (forall h :: h in hs ==> h.Valid()) && (hs != [] ==> hs[0].name.Some?)
  }

  function Version(minor: nat): seq<Byte>
    requires minor < 10
  {
    "HTTP/1." + [DigitOf(minor)]
  }

  datatype RequestText =
    RequestText(blank: Option<Eol>, verb: seq<Byte>, gap1: seq<Byte>, path: seq<Byte>, gap2: seq<Byte>, minor: nat,
                eol: Eol, headers: seq<HeaderText>, end: Eol)
  {
    predicate Valid() {
      && Token(verb) && Path(path) && minor < 10
      && Spaces(gap1) && gap1 != [] && Spaces(gap2) && gap2 != []
      && HeaderBlock(headers)
    }

    function RenderBlank(): seq<Byte> {
      match blank
      case None => []
      case Some(e) => e.Render()
    }

    function RenderLine(): seq<Byte>
      requires minor < 10
    {
      verb + gap1 + path + gap2 + Version(minor) + eol.Render()
    }

    function Render(): seq<Byte>
      requires minor < 10
    {
      RenderBlank() + RenderLine() + (RenderHeaders(headers) + end.Render())
    }
  }

  /** A slice of the buffer holds the given bytes. */
  ghost predicate Holds(b: seq<Byte>, s: Slice, bytes: seq<Byte>) {
    s.In(b) && s.Of(b) == bytes
  }

  ghost predicate HeaderHolds(b: seq<Byte>, h: Header, f: HeaderText) {
    && Holds(b, h.value, f.value)
    && match h.name
       case None => f.name.None?
       case Some(n) => f.name.Some? && Holds(b, n, f.name.value)
  }

  ghost predicate HeadersHold(b: seq<Byte>, hs: seq<Header>, fs: seq<HeaderText>) {
    |hs| == |fs| && forall k :: 0 <= k < |hs| ==> HeaderHolds(b, hs[k], fs[k])
  }

  /** The parsed request has the fields of the text. */
  ghost predicate RequestHolds(b: seq<Byte>, r: Request, t: RequestText)
  {
    && Holds(b, r.verb, t.verb) && Holds(b, r.path, t.path)
    && r.minor == t.minor
    && HeadersHold(b, r.headers, t.headers)
  }

  // Rendered text is parsed.

  lemma ReadEol(b: seq<Byte>, i: nat, e: Eol)
    requires At(b, i, e.Render())
    ensures i < |b| && Newline(b, i) == Found(i + |e.Render()|)
    ensures b[i] == '\r' || b[i] == '\n'
  {
    AtByte(b, i, e.Render(), 0);
    if e.CrLf? {
      AtByte(b, i, e.Render(), 1);
    }
  }

  lemma ReadValue(b: seq<Byte>, i: nat, h: HeaderText)
    requires At(b, i, h.Line()) && Text(h.value) && Blanks(h.trail)
    requires h.value != [] ==> !IsBlank(h.value[|h.value| - 1])
    ensures Value(b, i) == Ok(Slice(i, |h.value|), i + |h.Line()|)
  {
    hide Text;
    hide Blanks;
    TextMeaning(h.value);
    BlanksMeaning(h.trail);
    hide At;
    hide TextEnd;
    hide TrimEnd;
    hide Newline;
    AtBoth(b, i, h.value + h.trail, h.eol.Render());
    AtBoth(b, i, h.value, h.trail);
    var t := i + |h.value|;
    var e := t + |h.trail|;
    ReadEol(b, e, h.eol);
    forall k | i <= k < t ensures !EndsText(b[k]) { AtByte(b, i, h.value, k - i); }
    forall k | t <= k < e ensures IsBlank(b[k]) { AtByte(b, t, h.trail, k - t); }
    TextFinds(b, i, e);
    if i < t {
      AtByte(b, i, h.value, t - 1 - i);
    }
    TrimFinds(b, i, t, e);
  }

  lemma ReadHeader(b: seq<Byte>, i: nat, h: HeaderText, first: bool)
    requires At(b, i, h.Render()) && h.Valid() && (first ==> h.name.Some?)
    ensures i < |b| && b[i] != '\r' && b[i] != '\n'
    ensures var r := ParseHeader(b, i, first);
            r.Ok? && r.pos == i + |h.Render()| && HeaderHolds(b, r.value, h)
  {
    hide At;
    hide TokenEnd;
    hide BlanksEnd;
    hide Value;
    match h.name
    case None =>
      AtBoth(b, i, h.value + h.trail, h.eol.Render());
      AtBoth(b, i, h.value, h.trail);
      AtByte(b, i, h.value + h.trail, 0);
      ReadValue(b, i, h);
      AtSlice(b, i, h.value);
    case Some(n) =>
      ReadNamedHeader(b, i, n, h, first);
      AtSlice(b, i, n);
      AtSlice(b, i + |n| + 1 + |h.lead|, h.value);
  }

  lemma ReadNamedHeader(b: seq<Byte>, i: nat, n: seq<Byte>, h: HeaderText, first: bool)
    requires At(b, i, n + [':'] + (h.lead + h.Line())) && h.Valid() && h.name == Some(n)
    ensures i < |b| && IsTokenChar(b[i])
    ensures var v := i + |n| + 1 + |h.lead|;
            ParseHeader(b, i, first) == Ok(Header(Some(Slice(i, |n|)), Slice(v, |h.value|)), v + |h.Line()|)
    ensures At(b, i, n) && At(b, i + |n| + 1 + |h.lead|, h.value)
  {
    hide Token;
    hide IsTchar;
    hide Text;
    hide At;
    hide TokenEnd;
    hide BlanksEnd;
    hide Value;
    hide HeaderText.Line;
    var colon := i + |n|;
    var v := colon + 1 + |h.lead|;
    AtBoth(b, i, n + [':'], h.lead + h.Line());
    AtBoth(b, i, n, [':']);
    AtBoth(b, colon + 1, h.lead, h.Line());
    TokenMeaning(n);
    AtByte(b, i, n, 0);
    forall k | i <= k < colon ensures IsTokenChar(b[k]) { AtByte(b, i, n, k - i); }
    AtByte(b, colon, [':'], 0);
    TokenFinds(b, i, colon, ':');
    LineStart(b, v, h);
    forall k | colon + 1 <= k < v ensures IsBlank(b[k]) { AtByte(b, colon + 1, h.lead, k - colon - 1); }
    BlanksFinds(b, colon + 1, v);
    ReadValue(b, v, h);
  }

  lemma LineStart(b: seq<Byte>, v: nat, h: HeaderText)
    requires At(b, v, h.Line()) && h.Valid() && h.name.Some?
    ensures v < |b| && !IsBlank(b[v]) && At(b, v, h.value)
  {
    AtBoth(b, v, h.value + h.trail, h.eol.Render());
    AtBoth(b, v, h.value, h.trail);
    if h.value != [] {
      AtByte(b, v, h.value, 0);
    } else {
      ReadEol(b, v, h.eol);
    }
  }

  lemma {:induction false} ReadHeaders(b: seq<Byte>, i: nat, hs: seq<HeaderText>, end: Eol, n: nat, max: nat)
    requires At(b, i, RenderHeaders(hs) + end.Render())
    requires (forall h :: h in hs ==> h.Valid()) && (n == 0 && hs != [] ==> hs[0].name.Some?)
    requires n + |hs| <= max
    ensures var r := ParseHeaders(b, i, n, max);
            r.Ok? && r.pos == i + |RenderHeaders(hs) + end.Render()| && HeadersHold(b, r.value, hs)
    decreases |hs|
  {
    hide At;
    hide ParseHeader;
    hide HeaderHolds;
    hide HeaderText.Valid;
    hide HeaderText.Render;
    if hs == [] {
      assert RenderHeaders(hs) + end.Render() == end.Render();
      ReadEol(b, i, end);
    } else {
      assert hs[0] in hs;
      assert RenderHeaders(hs) + end.Render() == hs[0].Render() + (RenderHeaders(hs[1..]) + end.Render());
      AtBoth(b, i, hs[0].Render(), RenderHeaders(hs[1..]) + end.Render());
      ReadHeader(b, i, hs[0], n == 0);
      ReadHeaders(b, i + |hs[0].Render()|, hs[1..], end, n + 1, max);
    }
  }

  /** Where the parts of a rendered request line stand. */
  ghost predicate LineParts(b: seq<Byte>, i: nat, t: RequestText, m: nat, p: nat, q: nat, v: nat)
    requires t.minor < 10
  {
    && m == i + |t.verb| && p == m + |t.gap1| && q == p + |t.path| && v == q + |t.gap2|
    && At(b, i, t.verb) && At(b, m, t.gap1) && At(b, p, t.path) && At(b, q, t.gap2)
    && At(b, v, Version(t.minor)) && At(b, v + 8, t.eol.Render())
  }

  lemma SplitLine(b: seq<Byte>, i: nat, t: RequestText, m: nat, p: nat, q: nat, v: nat)
    requires t.minor < 10
    requires m == i + |t.verb| && p == m + |t.gap1| && q == p + |t.path| && v == q + |t.gap2|
    ensures At(b, i, t.RenderLine()) <==> LineParts(b, i, t, m, p, q, v)
    ensures i + |t.RenderLine()| == v + 8 + |t.eol.Render()|
  {
    hide At;
    var version := Version(t.minor);
    AtBoth(b, i, t.verb + t.gap1 + t.path + t.gap2 + version, t.eol.Render());
    AtBoth(b, i, t.verb + t.gap1 + t.path + t.gap2, version);
    AtBoth(b, i, t.verb + t.gap1 + t.path, t.gap2);
    AtBoth(b, i, t.verb + t.gap1, t.path);
    AtBoth(b, i, t.verb, t.gap1);
  }

  lemma ReadToken(b: seq<Byte>, i: nat, t: seq<Byte>, next: Byte)
    requires At(b, i, t) && Token(t) && i + |t| < |b| && b[i + |t|] == next && !IsTokenChar(next)
    ensures TokenEnd(b, i, next) == Found(i + |t|) && IsTokenChar(b[i])
  {
    hide Token;
    TokenMeaning(t);
    forall k | i <= k < i + |t| ensures IsTokenChar(b[k]) { AtByte(b, i, t, k - i); }
    TokenFinds(b, i, i + |t|, next);
  }

  lemma ReadGap(b: seq<Byte>, i: nat, gap: seq<Byte>)
    requires At(b, i, gap) && Spaces(gap) && gap != [] && i + |gap| < |b| && b[i + |gap|] != ' '
    ensures b[i] == ' ' && SpacesEnd(b, i + 1) == Found(i + |gap|)
  {
    forall k | i <= k < i + |gap| ensures b[k] == ' ' { AtByte(b, i, gap, k - i); }
    SpacesFinds(b, i + 1, i + |gap|);
  }

  lemma ReadPath(b: seq<Byte>, i: nat, p: seq<Byte>)
    requires At(b, i, p) && Path(p) && i + |p| < |b| && b[i + |p|] == ' '
    ensures PathEnd(b, i) == Found(i + |p|) && b[i] != ' '
  {
    forall k | i <= k < i + |p| ensures !IsControl(b[k]) && b[k] != ' ' { AtByte(b, i, p, k - i); }
    PathFinds(b, i, i + |p|);
  }

  lemma ReadLine(b: seq<Byte>, i: nat, t: RequestText)
    requires t.Valid() && At(b, i, t.RenderLine()) && i + |t.RenderLine()| < |b|
    ensures i < |b| && b[i] != '\r' && b[i] != '\n'
    ensures var r := ParseRequestLine(b, i);
            && r.Ok? && r.pos == i + |t.RenderLine()|
            && Holds(b, r.value.verb, t.verb) && Holds(b, r.value.path, t.path)
            && r.value.minor == t.minor
  {
    hide IsControl;
    hide At;
    hide TokenEnd;
    hide SpacesEnd;
    hide PathEnd;
    hide ParseVersion;
    hide Newline;
    hide Token;
    hide Path;
    hide Spaces;
    hide HeaderBlock;
    hide RequestText.RenderLine;
    var m := i + |t.verb|;
    var p := m + |t.gap1|;
    var q := p + |t.path|;
    var v := q + |t.gap2|;
    SplitLine(b, i, t, m, p, q, v);
    ReadEol(b, v + 8, t.eol);
    ReadVersion(b, v, t.minor);
    ReadGap(b, q, t.gap2);
    ReadPath(b, p, t.path);
    ReadGap(b, m, t.gap1);
    ReadToken(b, i, t.verb, ' ');
    AtSlice(b, i, t.verb);
    AtSlice(b, p, t.path);
  }

  lemma ReadVersion(b: seq<Byte>, i: nat, minor: nat)
    requires minor < 10 && At(b, i, Version(minor)) && i + 8 < |b|
    ensures b[i] != ' ' && ParseVersion(b, i) == Ok(minor, i + 8)
  {
    DigitsAreRead(minor);
    AtBoth(b, i, "HTTP/1.", [DigitOf(minor)]);
    AtByte(b, i, "HTTP/1.", 0);
    AtByte(b, i + 7, [DigitOf(minor)], 0);
  }

  /** Parsing a rendered request returns its fields and consumes exactly the rendering. */
  lemma RoundTrip(t: RequestText, max: nat, tail: seq<Byte>)
    requires t.Valid() && |t.headers| <= max
    ensures var b := t.Render() + tail;
            var r := ParseRequest(b, max);
            r.Ok? && r.pos == |t.Render()| && RequestHolds(b, r.value, t)
  {
    hide Token;
    hide Path;
    hide Spaces;
    hide HeaderText.Valid;
    hide ParseRequestLine;
    hide ParseHeaders;
    hide HeadersHold;
    hide Holds;
    var b := t.Render() + tail;
    var rest := RenderHeaders(t.headers) + t.end.Render();
    assert At(b, 0, t.Render());
    AtBoth(b, 0, t.RenderBlank() + t.RenderLine(), rest);
    AtBoth(b, 0, t.RenderBlank(), t.RenderLine());
    var i := |t.RenderBlank()|;
    if t.blank.Some? {
      ReadEol(b, 0, t.blank.value);
    }
    ReadLine(b, i, t);
    ReadHeaders(b, i + |t.RenderLine()|, t.headers, t.end, 0, max);
  }

  // What is parsed is rendered text.

  lemma UnreadEol(b: seq<Byte>, i: nat) returns (e: Eol)
    requires i <= |b| && Newline(b, i).Found?
    ensures At(b, i, e.Render()) && Newline(b, i).pos == i + |e.Render()|
  {
    if b[i] == '\r' {
      e := CrLf;
      assert b[i..i + 2] == e.Render();
    } else {
      e := LfOnly;
      assert b[i..i + 1] == e.Render();
    }
  }

  lemma UnreadValue(b: seq<Byte>, i: nat) returns (value: seq<Byte>, trail: seq<Byte>, eol: Eol)
    requires i <= |b| && Value(b, i).Ok?
    ensures Text(value) && Blanks(trail) && (value != [] ==> !IsWhite(value[|value| - 1]))
    ensures At(b, i, value + trail + eol.Render()) && Value(b, i).pos == i + |value + trail + eol.Render()|
    ensures Holds(b, Value(b, i).value, value)
    ensures !EndsText(b[i]) ==> value + trail != [] && (value + trail)[0] == b[i]
  {
    hide EndsText;
    hide Text;
    hide Blanks;
    hide At;
    hide TextEnd;
    hide TrimEnd;
    hide Newline;
    var e := TextEnd(b, i).pos;
    var t := TrimEnd(b, i, e);
    TextStops(b, i);
    TrimStops(b, i, e);
    SliceAt(b, i, t);
    SliceAt(b, t, e);
    value, trail := b[i..t], b[t..e];
    TextMeaning(value);
    BlanksMeaning(trail);
    eol := UnreadEol(b, e);
    AtBoth(b, i, value, trail);
    AtBoth(b, i, value + trail, eol.Render());
  }

  lemma UnreadHeader(b: seq<Byte>, i: nat, first: bool) returns (h: HeaderText)
    requires i < |b| && ParseHeader(b, i, first).Ok?
    ensures h.Valid() && (first ==> h.name.Some?)
    ensures At(b, i, h.Render()) && ParseHeader(b, i, first).pos == i + |h.Render()|
  {
    hide At;
    hide TokenEnd;
    hide BlanksEnd;
    hide Value;
    if !first && IsBlank(b[i]) {
      var value, trail, eol := UnreadValue(b, i);
      h := HeaderText(None, [], value, trail, eol);
    } else {
      h := UnreadNamedHeader(b, i, first);
    }
  }

  lemma UnreadNamedHeader(b: seq<Byte>, i: nat, first: bool) returns (h: HeaderText)
    requires i < |b| && (first || !IsBlank(b[i])) && ParseHeader(b, i, first).Ok?
    ensures h.Valid() && h.name.Some?
    ensures At(b, i, h.Render()) && ParseHeader(b, i, first).pos == i + |h.Render()|
  {
    hide IsBlank;
    hide IsWhite;
    hide Blanks;
    hide Token;
    hide IsTchar;
    hide Text;
    hide EndsText;
    hide IsTokenChar;
    hide At;
    hide TokenEnd;
    hide BlanksEnd;
    hide Value;
    TokenStops(b, i, ':');
    var colon := TokenEnd(b, i, ':').pos;
    TokenMeaning(b[i..colon]);
    BlanksStops(b, colon + 1);
    var v := BlanksEnd(b, colon + 1).pos;
    SliceAt(b, i, colon);
    SliceAt(b, colon, colon + 1);
    SliceAt(b, colon + 1, v);
    var value, trail, eol := UnreadValue(b, v);
    StartsUnblank(b, v, value, trail, eol);
    BlanksMeaning(b[colon + 1..v]);
    h := HeaderText(Some(b[i..colon]), b[colon + 1..v], value, trail, eol);
    assert b[colon..colon + 1] == [':'];
    AtBoth(b, i, b[i..colon], [':']);
    AtBoth(b, colon + 1, h.lead, h.Line());
    AtBoth(b, i, b[i..colon] + [':'], h.lead + h.Line());
  }

  lemma StartsUnblank(b: seq<Byte>, v: nat, value: seq<Byte>, trail: seq<Byte>, eol: Eol)
    requires At(b, v, value + trail + eol.Render()) && v < |b| && !IsBlank(b[v]) && Blanks(trail)
    ensures if value == [] then trail == [] else !IsWhite(value[0])
  {
    AtBoth(b, v, value + trail, eol.Render());
    AtBoth(b, v, value, trail);
    if value != [] {
      AtByte(b, v, value, 0);
    } else if trail != [] {
      AtByte(b, v, trail, 0);
    }
  }

  lemma {:induction false} UnreadHeaders(b: seq<Byte>, i: nat, n: nat, max: nat) returns (hs: seq<HeaderText>, end: Eol)
    requires i <= |b| && n <= max && ParseHeaders(b, i, n, max).Ok?
    ensures (forall h :: h in hs ==> h.Valid()) && (n == 0 && hs != [] ==> hs[0].name.Some?) && n + |hs| <= max
    ensures At(b, i, RenderHeaders(hs) + end.Render())
    ensures ParseHeaders(b, i, n, max).pos == i + |RenderHeaders(hs) + end.Render()|
    decreases |b| - i
  {
    hide At;
    hide ParseHeader;
    hide Newline;
    hide HeaderText.Valid;
    hide HeaderText.Render;
    if b[i] == '\r' || b[i] == '\n' {
      end := UnreadEol(b, i);
      hs := [];
      assert RenderHeaders(hs) + end.Render() == end.Render();
    } else {
      var h := UnreadHeader(b, i, n == 0);
      var k := i + |h.Render()|;
      var more;
      more, end := UnreadHeaders(b, k, n + 1, max);
      hs := [h] + more;
      AtBoth(b, i, h.Render(), RenderHeaders(more) + end.Render());
      assert RenderHeaders(hs) + end.Render() == h.Render() + (RenderHeaders(more) + end.Render());
    }
  }

  lemma UnreadVersion(b: seq<Byte>, i: nat)
    requires i <= |b| && ParseVersion(b, i).Ok?
    ensures ParseVersion(b, i).value < 10 && At(b, i, Version(ParseVersion(b, i).value))
  {
    DigitsAreWritten(b[i + 7]);
    assert At(b, i, "HTTP/1.") && At(b, i + 7, [b[i + 7]]);
    AtBoth(b, i, "HTTP/1.", [b[i + 7]]);
  }

  lemma UnreadToken(b: seq<Byte>, i: nat, next: Byte)
    requires i <= |b| && TokenEnd(b, i, next).Found? && TokenEnd(b, i, next).pos > i
    ensures Token(b[i..TokenEnd(b, i, next).pos])
  {
    TokenStops(b, i, next);
    TokenMeaning(b[i..TokenEnd(b, i, next).pos]);
  }

  lemma UnreadPath(b: seq<Byte>, i: nat)
    requires i <= |b| && PathEnd(b, i).Found? && PathEnd(b, i).pos > i
    ensures Path(b[i..PathEnd(b, i).pos])
  {
    PathStops(b, i);
  }

  lemma UnreadGap(b: seq<Byte>, i: nat)
    requires i < |b| && b[i] == ' ' && SpacesEnd(b, i + 1).Found?
    ensures Spaces(b[i..SpacesEnd(b, i + 1).pos])
  {
    SpacesStops(b, i + 1);
  }

  lemma UnreadLine(b: seq<Byte>, i: nat) returns (t: RequestText)
    requires i <= |b| && ParseRequestLine(b, i).Ok?
    ensures t.Valid() && t.headers == [] && t.blank == None
    ensures At(b, i, t.RenderLine()) && ParseRequestLine(b, i).pos == i + |t.RenderLine()|
  {
    hide At;
    hide TokenEnd;
    hide SpacesEnd;
    hide PathEnd;
    hide ParseVersion;
    hide Newline;
    hide Token;
    hide Path;
    hide Spaces;
    hide RequestText.RenderLine;
    TokenStops(b, i, ' ');
    var m := TokenEnd(b, i, ' ').pos;
    var p := SpacesEnd(b, m + 1).pos;
    PathStops(b, p);
    var q := PathEnd(b, p).pos;
    var v := SpacesEnd(b, q + 1).pos;
    UnreadToken(b, i, ' ');
    UnreadGap(b, m);
    UnreadPath(b, p);
    UnreadGap(b, q);
    UnreadVersion(b, v);
    var eol := UnreadEol(b, v + 8);
    SliceAt(b, i, m);
    SliceAt(b, m, p);
    SliceAt(b, p, q);
    SliceAt(b, q, v);
    t := RequestText(None, b[i..m], b[m..p], b[p..q], b[q..v], ParseVersion(b, v).value, eol, [], LfOnly);
    SplitLine(b, i, t, m, p, q, v);
  }

  lemma Unread(b: seq<Byte>, max: nat) returns (t: RequestText)
    requires ParseRequest(b, max).Ok?
    ensures t.Valid() && |t.headers| <= max && t.Render() <= b
  {
    hide At;
    hide RenderHeaders;
    hide ParseRequestLine;
    hide ParseHeaders;
    hide Newline;
    hide RequestText.RenderLine;
    var i := LeadingBlank(b).pos;
    var blank := None;
    SliceAt(b, 0, 0);
    assert b[0..0] == [];
    if b[0] == '\r' || b[0] == '\n' {
      var e := UnreadEol(b, 0);
      blank := Some(e);
    }
    var line := UnreadLine(b, i);
    var n := i + |line.RenderLine()|;
    var hs, end := UnreadHeaders(b, n, 0, max);
    t := line.(blank := blank, headers := hs, end := end);
    SameLine(line, t);
    AtBoth(b, 0, t.RenderBlank(), t.RenderLine());
    AtBoth(b, 0, t.RenderBlank() + t.RenderLine(), RenderHeaders(hs) + end.Render());
    AtSlice(b, 0, t.Render());
  }

  lemma SameLine(t: RequestText, t': RequestText)
    requires t.minor < 10 && t' == t.(blank := t'.blank, headers := t'.headers, end := t'.end)
    ensures t'.RenderLine() == t.RenderLine()
  {
  }

  /** The parser accepts a buffer exactly when it begins with the rendering of a request that has at most `max`
      header lines. */
  lemma AcceptsExactlyRequests(b: seq<Byte>, max: nat)
    ensures ParseRequest(b, max).Ok? <==>
            exists t: RequestText :: t.Valid() && |t.headers| <= max && t.Render() <= b
  {
    hide ParseRequest;
    hide RequestText.Render;
    if ParseRequest(b, max).Ok? {
      var t := Unread(b, max);
    }
    hide HeaderBlock;
    hide Token;
    hide Path;
    if t: RequestText :| t.Valid() && |t.headers| <= max && t.Render() <= b {
      RoundTrip(t, max, b[|t.Render()|..]);
      assert t.Render() + b[|t.Render()|..] == b;
    }
  }
}
