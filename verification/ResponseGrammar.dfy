/** Responses as text: the parser accepts exactly the buffers that begin with a rendered response, and returns that
    response's fields. */
module ResponseGrammar {
  import opened Bytes
  import opened RequestSpec
  import opened RequestScans
  import opened RequestGrammar

  /** A status of three digits. */
  function Code(status: nat): seq<Byte>
    requires status < 1000
  {
    [DigitOf(status / 100), DigitOf(status / 10 % 10), DigitOf(status % 10)]
  }

  /** The reason phrase may be left out together with the spaces before it. */
  datatype ResponseText = ResponseText(minor: nat, gap: seq<Byte>, status: nat, lead: seq<Byte>, reason: seq<Byte>,
                                       eol: Eol, headers: seq<HeaderText>, end: Eol)
  {
    predicate Valid() {
      && minor < 10 && Spaces(gap) && gap != [] && status < 1000
      && Spaces(lead) && Text(reason) && (reason != [] ==> lead != [] && reason[0] != ' ')
      && HeaderBlock(headers)
    }

    function Phrase(): seq<Byte> { lead + reason }

    function RenderLine(): seq<Byte>
      requires minor < 10 && status < 1000
    {
      Version(minor) + gap + Code(status) + Phrase() + eol.Render()
    }

    function Render(): seq<Byte>
      requires minor < 10 && status < 1000
    {
      RenderLine() + (RenderHeaders(headers) + end.Render())
    }
  }

  /** The parsed response has the fields of the text. */
  ghost predicate ResponseHolds(b: seq<Byte>, r: Response, t: ResponseText)
  {
    && r.minor == t.minor && r.status == t.status && Holds(b, r.msg, t.reason)
    && HeadersHold(b, r.headers, t.headers)
  }

  /** Where the parts of a rendered status line stand: spaces, status, phrase and line end. */
  ghost predicate LineParts(b: seq<Byte>, t: ResponseText, s: nat, p: nat, e: nat)
    requires t.minor < 10 && t.status < 1000
  {
    && s == 8 + |t.gap| && p == s + 3 && e == p + |t.Phrase()|
    && At(b, 0, Version(t.minor)) && At(b, 8, t.gap) && At(b, s, Code(t.status)) && At(b, p, t.Phrase())
    && At(b, e, t.eol.Render())
  }

  lemma SplitLine(b: seq<Byte>, t: ResponseText, s: nat, p: nat, e: nat)
    requires t.minor < 10 && t.status < 1000 && s == 8 + |t.gap| && p == s + 3 && e == p + |t.Phrase()|
    ensures At(b, 0, t.RenderLine()) <==> LineParts(b, t, s, p, e)
    ensures |t.RenderLine()| == e + |t.eol.Render()|
  {
    hide At;
    hide ResponseText.Phrase;
    var version, code := Version(t.minor), Code(t.status);
    AtBoth(b, 0, version + t.gap + code + t.Phrase(), t.eol.Render());
    AtBoth(b, 0, version + t.gap + code, t.Phrase());
    AtBoth(b, 0, version + t.gap, code);
    AtBoth(b, 0, version, t.gap);
  }

  lemma {:induction false} SkipFinds(b: seq<Byte>, i: nat, j: nat, end: nat)
    requires i <= j <= end <= |b| && (j < end ==> b[j] != ' ') && forall k :: i <= k < j ==> b[k] == ' '
    ensures SkipSpaces(b, i, end) == j
    decreases j - i
  {
    if i < j {
      SkipFinds(b, i + 1, j, end);
    }
  }

  lemma {:induction false} SkipStops(b: seq<Byte>, i: nat, end: nat)
    requires i <= end <= |b|
    ensures var j := SkipSpaces(b, i, end); (j < end ==> b[j] != ' ') && forall k :: i <= k < j ==> b[k] == ' '
    decreases end - i
  {
    if i < end && b[i] == ' ' {
      SkipStops(b, i + 1, end);
    }
  }

  // Rendered text is parsed.

  lemma PhraseBytes(b: seq<Byte>, p: nat, t: ResponseText)
    requires t.Valid() && At(b, p, t.Phrase())
    ensures var q := p + |t.lead|;
            var e := q + |t.reason|;
            && e <= |b| && At(b, q, t.reason) && (forall k :: p <= k < q ==> b[k] == ' ')
            && (forall k :: q <= k < e ==> !EndsText(b[k])) && (q < e ==> p < q && b[q] != ' ')
  {
    hide IsDigit;
    hide HeaderBlock;
    hide EndsText;
    TextMeaning(t.reason);
    AtBoth(b, p, t.lead, t.reason);
  }

  lemma ReadPhrase(b: seq<Byte>, p: nat, t: ResponseText)
    requires t.Valid() && At(b, p, t.Phrase()) && At(b, p + |t.Phrase()|, t.eol.Render())
    ensures var e := p + |t.Phrase()|;
            && e < |b| && TextLine(b, p) == Ok(Slice(p, e - p), e + |t.eol.Render()|)
            && (p < e ==> b[p] == ' ' && SkipSpaces(b, p, e) == p + |t.lead|)
            && Holds(b, Slice(p + |t.lead|, |t.reason|), t.reason)
  {
    hide At;
    hide TextEnd;
    hide Newline;
    hide SkipSpaces;
    hide ResponseText.Valid;
    var q := p + |t.lead|;
    var e := q + |t.reason|;
    PhraseBytes(b, p, t);
    ReadEol(b, e, t.eol);
    assert forall k :: p <= k < e ==> !EndsText(b[k]);
    TextFinds(b, p, e);
    SkipFinds(b, p, q, e);
    AtSlice(b, q, t.reason);
  }

  lemma ReadCode(b: seq<Byte>, s: nat, status: nat)
    requires status < 1000 && At(b, s, Code(status))
    ensures s + 3 <= |b| && IsDigit(b[s]) && IsDigit(b[s + 1]) && IsDigit(b[s + 2])
    ensures Digit(b[s]) * 100 + Digit(b[s + 1]) * 10 + Digit(b[s + 2]) == status
  {
    hide DigitOf;
    hide IsDigit;
    hide Digit;
    AtByte(b, s, Code(status), 0);
    AtByte(b, s, Code(status), 1);
    AtByte(b, s, Code(status), 2);
    DigitsAreRead(status / 100);
    DigitsAreRead(status / 10 % 10);
    DigitsAreRead(status % 10);
  }

  lemma ReadLine(b: seq<Byte>, t: ResponseText)
    requires t.Valid() && At(b, 0, t.RenderLine())
    ensures var r := ParseStatusLine(b);
            && r.Ok? && r.pos == |t.RenderLine()|
            && r.value.minor == t.minor && r.value.status == t.status && Holds(b, r.value.msg, t.reason)
  {
    hide At;
    hide SpacesEnd;
    hide SkipSpaces;
    hide ParseVersion;
    hide TextLine;
    hide ResponseText.RenderLine;
    var s := 8 + |t.gap|;
    var e := s + 3 + |t.Phrase()|;
    SplitLine(b, t, s, s + 3, e);
    ReadPhrase(b, s + 3, t);
    ReadCode(b, s, t.status);
    ReadVersion(b, 0, t.minor);
    ReadGap(b, 8, t.gap);
  }

  /** Parsing a rendered response returns its fields and consumes exactly the rendering. */
  lemma RoundTrip(t: ResponseText, max: nat, tail: seq<Byte>)
    requires t.Valid() && |t.headers| <= max
    ensures var b := t.Render() + tail;
            var r := ParseResponse(b, max);
            r.Ok? && r.pos == |t.Render()| && ResponseHolds(b, r.value, t)
  {
    hide ParseStatusLine;
    hide ParseHeaders;
    hide HeadersHold;
    hide Holds;
    hide ResponseText.RenderLine;
    var b := t.Render() + tail;
    var rest := RenderHeaders(t.headers) + t.end.Render();
    assert At(b, 0, t.Render());
    AtBoth(b, 0, t.RenderLine(), rest);
    ReadLine(b, t);
    ReadHeaders(b, |t.RenderLine()|, t.headers, t.end, 0, max);
  }

  // What is parsed is rendered text.

  lemma UnreadPhrase(b: seq<Byte>, p: nat) returns (lead: seq<Byte>, reason: seq<Byte>, eol: Eol)
    requires p <= |b| && TextLine(b, p).Ok? && (TextLine(b, p).value.len > 0 ==> b[p] == ' ')
    ensures Spaces(lead) && Text(reason) && (reason != [] ==> lead != [] && reason[0] != ' ')
    ensures At(b, p, lead + reason) && At(b, p + |lead + reason|, eol.Render())
    ensures TextLine(b, p).pos == p + |lead + reason| + |eol.Render()|
  {
    hide At;
    hide SkipSpaces;
    hide TextEnd;
    hide Newline;
    hide EndsText;
    TextStops(b, p);
    var e := TextEnd(b, p).pos;
    eol := UnreadEol(b, e);
    var q := SkipSpaces(b, p, e);
    SkipStops(b, p, e);
    SliceAt(b, p, q);
    SliceAt(b, q, e);
    lead, reason := b[p..q], b[q..e];
    TextMeaning(reason);
    AtBoth(b, p, lead, reason);
  }

  lemma UnreadCode(b: seq<Byte>, s: nat)
    requires s + 3 <= |b| && IsDigit(b[s]) && IsDigit(b[s + 1]) && IsDigit(b[s + 2])
    ensures var status := Digit(b[s]) * 100 + Digit(b[s + 1]) * 10 + Digit(b[s + 2]);
            status < 1000 && At(b, s, Code(status))
  {
    DigitsAreWritten(b[s]);
    DigitsAreWritten(b[s + 1]);
    DigitsAreWritten(b[s + 2]);
    hide DigitOf;
    hide IsDigit;
    hide Digit;
    ThreeDigits(Digit(b[s]), Digit(b[s + 1]), Digit(b[s + 2]));
    assert b[s..s + 3] == [b[s], b[s + 1], b[s + 2]];
  }

  lemma ThreeDigits(x: nat, y: nat, z: nat)
    requires x < 10 && y < 10 && z < 10
    ensures var n := x * 100 + y * 10 + z; n < 1000 && n / 100 == x && n / 10 % 10 == y && n % 10 == z
  {
  }

  lemma UnreadLine(b: seq<Byte>) returns (t: ResponseText)
    requires ParseStatusLine(b).Ok?
    ensures t.Valid() && t.headers == []
    ensures At(b, 0, t.RenderLine()) && ParseStatusLine(b).pos == |t.RenderLine()|
  {
    hide DigitOf;
    hide Digit;
    hide Spaces;
    hide Text;
    hide At;
    hide SpacesEnd;
    hide SkipSpaces;
    hide ParseVersion;
    hide TextLine;
    hide IsDigit;
    hide EndsText;
    hide ResponseText.RenderLine;
    UnreadVersion(b, 0);
    VersionEnds(b);
    UnreadGap(b, 8);
    var s := SpacesEnd(b, 9).pos;
    UnreadCode(b, s);
    var lead, reason, eol := UnreadPhrase(b, s + 3);
    SliceAt(b, 8, s);
    var line := ParseStatusLine(b).value;
    t := ResponseText(line.minor, b[8..s], line.status, lead, reason, eol, [], LfOnly);
    SplitLine(b, t, s, s + 3, s + 3 + |lead + reason|);
  }

  lemma VersionEnds(b: seq<Byte>)
    ensures ParseVersion(b, 0).Ok? ==> ParseVersion(b, 0).pos == 8 < |b|
  {
  }

  lemma Unread(b: seq<Byte>, max: nat) returns (t: ResponseText)
    requires ParseResponse(b, max).Ok?
    ensures t.Valid() && |t.headers| <= max && t.Render() <= b
  {
    hide At;
    hide RenderHeaders;
    hide ParseStatusLine;
    hide ParseHeaders;
    hide ResponseText.RenderLine;
    var line := UnreadLine(b);
    var n := |line.RenderLine()|;
    var hs, end := UnreadHeaders(b, n, 0, max);
    t := line.(headers := hs, end := end);
    SameLine(line, t);
    AtBoth(b, 0, t.RenderLine(), RenderHeaders(hs) + end.Render());
    AtSlice(b, 0, t.Render());
  }

  lemma SameLine(t: ResponseText, t': ResponseText)
    requires t.minor < 10 && t.status < 1000 && t' == t.(headers := t'.headers, end := t'.end)
    ensures t'.RenderLine() == t.RenderLine()
  {
  }

  /** The parser accepts a buffer exactly when it begins with the rendering of a response that has at most `max`
      header lines. */
  lemma AcceptsExactlyResponses(b: seq<Byte>, max: nat)
    ensures ParseResponse(b, max).Ok? <==>
            exists t: ResponseText :: t.Valid() && |t.headers| <= max && t.Render() <= b
  {
    hide ParseResponse;
    hide ResponseText.Render;
    if ParseResponse(b, max).Ok? {
      var t := Unread(b, max);
    }
    hide HeaderBlock;
    hide Text;
    if t: ResponseText :| t.Valid() && |t.headers| <= max && t.Render() <= b {
      RoundTrip(t, max, b[|t.Render()|..]);
      assert t.Render() + b[|t.Render()|..] == b;
    }
  }
}
