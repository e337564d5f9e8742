/** What the parser's verdicts on a request mean for the bytes that may still come. */
module RequestVerdicts {
  import opened Bytes
  import opened RequestSpec
  import opened RequestScans
  import opened RequestStability
  import opened RequestGrammar
  import opened Options

  // A scan that runs out of bytes has met none that stops it.

  lemma {:induction false} TokenMore(b: seq<Byte>, i: nat, next: Byte)
    requires i <= |b| && TokenEnd(b, i, next) == More
    ensures forall k :: i <= k < |b| ==> IsTokenChar(b[k]) && b[k] != next
    decreases |b| - i
  {
    hide IsTokenChar;
    if i < |b| {
      TokenMore(b, i + 1, next);
    }
  }

  lemma {:induction false} PathMore(b: seq<Byte>, i: nat)
    requires i <= |b| && PathEnd(b, i) == More
    ensures forall k :: i <= k < |b| ==> !IsControl(b[k]) && b[k] != ' '
    decreases |b| - i
  {
    hide IsControl;
    if i < |b| {
      PathMore(b, i + 1);
    }
  }

  lemma {:induction false} TextMore(b: seq<Byte>, i: nat)
    requires i <= |b| && TextEnd(b, i) == More
    ensures forall k :: i <= k < |b| ==> !EndsText(b[k])
    decreases |b| - i
  {
    hide EndsText;
    if i < |b| {
      TextMore(b, i + 1);
    }
  }

  lemma {:induction false} SpacesMore(b: seq<Byte>, i: nat)
    requires i <= |b| && SpacesEnd(b, i) == More
    ensures forall k :: i <= k < |b| ==> b[k] == ' '
    decreases |b| - i
  {
    if i < |b| {
      SpacesMore(b, i + 1);
    }
  }

  lemma {:induction false} BlanksMore(b: seq<Byte>, i: nat)
    requires i <= |b| && BlanksEnd(b, i) == More
    ensures forall k :: i <= k < |b| ==> IsBlank(b[k])
    decreases |b| - i
  {
    if i < |b| {
      BlanksMore(b, i + 1);
    }
  }

  // Headers that are partial can be completed.

  /** Some continuation completes the headers. */
  ghost predicate HeadersOpen(b: seq<Byte>, i: nat, n: nat, max: nat)
    requires i <= |b| && n <= max
  {
    exists more :: ParseHeaders(b + more, i, n, max).Ok?
  }

  lemma LineEndOpens(b: seq<Byte>, i: nat) returns (more: seq<Byte>)
    requires i <= |b| && (i < |b| ==> b[i] == '\r' && i + 1 == |b|)
    ensures Newline(b + more, i) == Found(|b + more|)
  {
    more := if i == |b| then "\r\n" else "\n";
  }

  /** A text whose end has not come ends with any line end. */
  lemma TextOpens(b: seq<Byte>, i: nat) returns (more: seq<Byte>)
    requires i <= |b| && TextLine(b, i) == Partial
    ensures TextLine(b + more, i).Ok? && TextLine(b + more, i).pos == |b + more|
  {
    hide EndsText;
    var e := TextEnd(b, i);
    if e == More {
      TextMore(b, i);
      more := "\r\n";
      OtherChars('\r');
      TextFinds(b + more, i, |b|);
    } else {
      TextStops(b, i);
      more := LineEndOpens(b, e.pos);
      TextFinds(b + more, i, e.pos);
    }
  }

  /** Some continuation completes the header. */
  ghost predicate HeaderOpen(b: seq<Byte>, i: nat, first: bool)
    requires i < |b|
  {
    exists more :: ParseHeader(b + more, i, first).Ok? && ParseHeader(b + more, i, first).pos == |b + more|
  }

  lemma HeaderOpensLater(b: seq<Byte>, x: seq<Byte>, i: nat, first: bool)
    requires i < |b| && HeaderOpen(b + x, i, first)
    ensures HeaderOpen(b, i, first)
  {
    hide ParseHeader;
    var more :|
      ParseHeader((b + x) + more, i, first).Ok? && ParseHeader((b + x) + more, i, first).pos == |(b + x) + more|;
    assert (b + x) + more == b + (x + more);
  }

  /** Name, colon and blanks are there, or the line continues another; the text is not over. */
  lemma HeaderTextOpens(b: seq<Byte>, i: nat, first: bool, v: nat)
    requires i < |b| && v <= |b| && TextLine(b, v) == Partial
    requires if !first && IsBlank(b[i]) then v == i
             else var colon := TokenEnd(b, i, ':');
                  colon.Found? && colon.pos != i && BlanksEnd(b, colon.pos + 1) == Found(v)
    ensures HeaderOpen(b, i, first)
  {
    hide TextLine;
    hide TokenEnd;
    hide BlanksEnd;
    hide IsBlank;
    var more := TextOpens(b, v);
    var c := b + more;
    TokenLocal(c, b, |b|, i, ':');
    if !(!first && IsBlank(b[i])) {
      BlanksLocal(c, b, |b|, TokenEnd(b, i, ':').pos + 1);
    }
    assert ParseHeader(c, i, first).Ok? && ParseHeader(c, i, first).pos == |c|;
  }

  lemma HeaderBlanksOpen(b: seq<Byte>, i: nat, first: bool, colon: nat)
    requires i < colon < |b| && (first || !IsBlank(b[i]))
    requires TokenEnd(b, i, ':') == Found(colon) && BlanksEnd(b, colon + 1) == More
    ensures HeaderOpen(b, i, first)
  {
    hide TokenEnd;
    hide IsBlank;
    var c := b + "\r";
    BlanksMore(b, colon + 1);
    OtherChars('\r');
    BlanksFinds(c, colon + 1, |b|);
    TokenLocal(c, b, |b|, i, ':');
    assert TextLine(c, |b|) == Partial;
    HeaderTextOpens(c, i, first, |b|);
    HeaderOpensLater(b, "\r", i, first);
  }

  lemma HeaderNameOpens(b: seq<Byte>, i: nat, first: bool)
    requires i < |b| && (first || !IsBlank(b[i])) && TokenEnd(b, i, ':') == More
    ensures HeaderOpen(b, i, first)
  {
    hide TokenEnd;
    var c := b + ":";
    TokenMore(b, i, ':');
    TokenFinds(c, i, |b|, ':');
    HeaderBlanksOpen(c, i, first, |b|);
    HeaderOpensLater(b, ":", i, first);
  }

  lemma HeaderOpens(b: seq<Byte>, i: nat, first: bool)
    requires i < |b| && ParseHeader(b, i, first) == Partial
    ensures HeaderOpen(b, i, first)
  {
    hide TextLine;
    hide TokenEnd;
    hide BlanksEnd;
    hide IsBlank;
    if !first && IsBlank(b[i]) {
      HeaderTextOpens(b, i, first, i);
    } else {
      var colon := TokenEnd(b, i, ':');
      if colon == More {
        HeaderNameOpens(b, i, first);
      } else {
        var v := BlanksEnd(b, colon.pos + 1);
        if v == More {
          HeaderBlanksOpen(b, i, first, colon.pos);
        } else {
          HeaderTextOpens(b, i, first, v.pos);
        }
      }
    }
  }

  lemma HeadersOpenLater(b: seq<Byte>, x: seq<Byte>, i: nat, n: nat, max: nat)
    requires i <= |b| && n <= max && HeadersOpen(b + x, i, n, max)
    ensures HeadersOpen(b, i, n, max)
  {
    hide ParseHeaders;
    var more :| ParseHeaders((b + x) + more, i, n, max).Ok?;
    assert (b + x) + more == b + (x + more);
  }

  /** Header lines that are partial have a continuation that completes them. */
  lemma {:induction false} HeadersPartialOpen(b: seq<Byte>, i: nat, n: nat, max: nat)
    requires i <= |b| && n <= max && ParseHeaders(b, i, n, max) == Partial
    ensures HeadersOpen(b, i, n, max)
    decreases |b| - i
  {
    hide ParseHeader;
    if i == |b| || b[i] == '\r' || b[i] == '\n' {
      var more := LineEndOpens(b, i);
      assert ParseHeaders(b + more, i, n, max).Ok?;
    } else {
      var h := ParseHeader(b, i, n == 0);
      if h == Partial {
        HeaderOpens(b, i, n == 0);
        var more :| ParseHeader(b + more, i, n == 0).Ok? && ParseHeader(b + more, i, n == 0).pos == |b + more|;
        HeaderThenEnd(b + more, i, n, max);
        HeadersOpenLater(b, more, i, n, max);
      } else {
        HeadersPartialOpen(b, h.pos, n + 1, max);
        var more :| ParseHeaders(b + more, h.pos, n + 1, max).Ok?;
        HeaderLocal(b + more, b, |b|, i, n == 0);
        assert ParseHeaders(b + more, i, n, max).Ok?;
      }
    }
  }

  /** A last header, and the blank line to come. */
  lemma HeaderThenEnd(b: seq<Byte>, i: nat, n: nat, max: nat)
    requires i < |b| && n < max && b[i] != '\r' && b[i] != '\n'
    requires ParseHeader(b, i, n == 0).Ok? && ParseHeader(b, i, n == 0).pos == |b|
    ensures HeadersOpen(b, i, n, max)
  {
    hide ParseHeader;
    var c := b + "\r\n";
    HeaderLocal(c, b, |b|, i, n == 0);
    assert Newline(c, |b|) == Found(|c|);
    assert ParseHeaders(c, |b|, n + 1, max).Ok?;
    assert ParseHeaders(c, i, n, max).Ok?;
  }

  // Request lines that are partial.

  ghost predicate LineOpen(b: seq<Byte>, i: nat)
    requires i <= |b|
  {
    exists more :: ParseRequestLine(b + more, i).Ok? && ParseRequestLine(b + more, i).pos == |b + more|
  }

  lemma LineOpensLater(b: seq<Byte>, x: seq<Byte>, i: nat)
    requires i <= |b| && LineOpen(b + x, i)
    ensures LineOpen(b, i)
  {
    hide ParseRequestLine;
    var more :| ParseRequestLine((b + x) + more, i).Ok? && ParseRequestLine((b + x) + more, i).pos == |(b + x) + more|;
    assert (b + x) + more == b + (x + more);
  }

  /** Method, path and the spaces behind them are there. */
  ghost predicate VersionAt(b: seq<Byte>, i: nat, v: nat)
    requires i <= |b|
  {
    && TokenEnd(b, i, ' ').Found? && TokenEnd(b, i, ' ').pos > i
    && var p := SpacesEnd(b, TokenEnd(b, i, ' ').pos + 1);
    && p.Found? && PathEnd(b, p.pos).Found? && PathEnd(b, p.pos).pos > p.pos
    && SpacesEnd(b, PathEnd(b, p.pos).pos + 1) == Found(v)
  }

  /** The bytes may become a version. */
  predicate MayBeVersion(s: seq<Byte>) {
    exists d :: 0 <= d < 10 && s <= Version(d)
  }

  lemma VersionStays(c: seq<Byte>, b: seq<Byte>, i: nat, v: nat)
    requires i <= |b| && b <= c && VersionAt(b, i, v)
    ensures VersionAt(c, i, v)
  {
    hide TokenEnd;
    hide SpacesEnd;
    hide PathEnd;
    assert Agree(c, b, |b|);
    TokenLocal(c, b, |b|, i, ' ');
    SpacesLocal(c, b, |b|, TokenEnd(b, i, ' ').pos + 1);
    var p := SpacesEnd(b, TokenEnd(b, i, ' ').pos + 1).pos;
    PathLocal(c, b, |b|, p);
    SpacesLocal(c, b, |b|, PathEnd(b, p).pos + 1);
  }

  lemma VersionOpens(b: seq<Byte>, i: nat, v: nat)
    requires i <= |b| && VersionAt(b, i, v) && v < |b| < v + 9 && MayBeVersion(b[v..])
    ensures LineOpen(b, i)
  {
    hide VersionAt;
    var d :| 0 <= d < 10 && b[v..] <= Version(d);
    var more := Version(d)[|b| - v..] + "\r\n";
    var c := b + more;
    assert c == b[..v] + Version(d) + "\r\n";
    assert At(c, v, Version(d));
    ReadVersion(c, v, d);
    assert Newline(c, v + 8) == Found(v + 10);
    VersionStays(c, b, i, v);
    LineOfVersion(c, i, v);
  }

  lemma LineOfVersion(c: seq<Byte>, i: nat, v: nat)
    requires i <= |c| && VersionAt(c, i, v) && ParseVersion(c, v).Ok?
    ensures ParseRequestLine(c, i).Ok? <==> Newline(c, v + 8).Found?
    ensures ParseRequestLine(c, i).Ok? ==> ParseRequestLine(c, i).pos == Newline(c, v + 8).pos
    ensures ParseRequestLine(c, i) == Partial <==> Newline(c, v + 8) == More
  {
    hide TokenEnd;
    hide SpacesEnd;
    hide PathEnd;
    hide ParseVersion;
    hide Newline;
    VersionEndsAt(c, v);
  }

  lemma VersionEndsAt(b: seq<Byte>, v: nat)
    requires v <= |b| && ParseVersion(b, v).Ok?
    ensures ParseVersion(b, v).pos == v + 8 < |b|
  {
  }

  lemma LineEndOpensLine(b: seq<Byte>, i: nat, v: nat)
    requires i <= |b| && VersionAt(b, i, v) && ParseVersion(b, v).Ok? && Newline(b, v + 8) == More
    ensures LineOpen(b, i)
  {
    hide VersionAt;
    VersionEndsAt(b, v);
    hide ParseVersion;
    var more := LineEndOpens(b, v + 8);
    var c := b + more;
    VersionStays(c, b, i, v);
    VersionLocal(c, b, |b|, v);
    LineOfVersion(c, i, v);
  }

  lemma GapEnds(b: seq<Byte>, i: nat, p: nat, q: nat)
    requires i <= |b| && TokenEnd(b, i, ' ').Found? && TokenEnd(b, i, ' ').pos > i
    requires SpacesEnd(b, TokenEnd(b, i, ' ').pos + 1) == Found(p) && PathEnd(b, p) == Found(q) && q > p
    requires SpacesEnd(b, q + 1) == More
    ensures VersionAt(b + "H", i, |b|)
  {
    hide TokenEnd;
    hide PathEnd;
    hide SpacesEnd;
    var c := b + "H";
    SpacesMore(b, q + 1);
    TokenLocal(c, b, |b|, i, ' ');
    SpacesLocal(c, b, |b|, TokenEnd(b, i, ' ').pos + 1);
    PathLocal(c, b, |b|, p);
    SpacesFinds(c, q + 1, |b|);
  }

  lemma GapOpens(b: seq<Byte>, i: nat, p: nat, q: nat)
    requires i <= |b| && TokenEnd(b, i, ' ').Found? && TokenEnd(b, i, ' ').pos > i
    requires SpacesEnd(b, TokenEnd(b, i, ' ').pos + 1) == Found(p) && PathEnd(b, p) == Found(q) && q > p
    requires SpacesEnd(b, q + 1) == More
    ensures LineOpen(b, i)
  {
    hide TokenEnd;
    hide PathEnd;
    hide SpacesEnd;
    hide VersionAt;
    hide DigitOf;
    GapEnds(b, i, p, q);
    var c := b + "H";
    assert c[|b|..] == "H" && "H" <= Version(1);
    VersionOpens(c, i, |b|);
    LineOpensLater(b, "H", i);
  }

  lemma PathOpens(b: seq<Byte>, i: nat, p: nat)
    requires i <= |b| && TokenEnd(b, i, ' ').Found? && TokenEnd(b, i, ' ').pos > i
    requires SpacesEnd(b, TokenEnd(b, i, ' ').pos + 1) == Found(p) && PathEnd(b, p) == More
    ensures LineOpen(b, i)
  {
    hide TokenEnd;
    hide PathEnd;
    hide SpacesEnd;
    hide IsControl;
    var c := b + " ";
    PathMore(b, p);
    TokenLocal(c, b, |b|, i, ' ');
    SpacesLocal(c, b, |b|, TokenEnd(b, i, ' ').pos + 1);
    PathFinds(c, p, |b|);
    NothingLeft(c);
    GapOpens(c, i, p, |b|);
    LineOpensLater(b, " ", i);
  }

  lemma NothingLeft(b: seq<Byte>)
    ensures SpacesEnd(b, |b|) == More && PathEnd(b, |b|) == More && TokenEnd(b, |b|, ' ') == More
  {
  }

  lemma MethodOpens(b: seq<Byte>, i: nat)
    requires i <= |b| && TokenEnd(b, i, ' ').Found? && TokenEnd(b, i, ' ').pos > i
    requires SpacesEnd(b, TokenEnd(b, i, ' ').pos + 1) == More
    ensures LineOpen(b, i)
  {
    hide TokenEnd;
    var c, m := b + "/", TokenEnd(b, i, ' ').pos;
    SpacesMore(b, m + 1);
    TokenLocal(c, b, |b|, i, ' ');
    SpacesFinds(c, m + 1, |b|);
    hide SpacesEnd;
    assert PathEnd(c, |b|) == More;
    PathOpens(c, i, |b|);
    LineOpensLater(b, "/", i);
  }

  lemma NoMethodOpens(b: seq<Byte>, i: nat)
    requires i <= |b| && TokenEnd(b, i, ' ') == More
    ensures LineOpen(b, i)
  {
    hide TokenEnd;
    var c := b + "G ";
    TokenMore(b, i, ' ');
    TokenFinds(c, i, |b| + 1, ' ');
    NothingLeft(c);
    assert |c| == |b| + 2;
    MethodOpens(c, i);
    LineOpensLater(b, "G ", i);
  }

  /** A line that waits for more although none can complete it, as the parser's scans see it. */
  ghost predicate LineHopeless(b: seq<Byte>, i: nat)
    requires i <= |b|
  {
    && ParseRequestLine(b, i) == Partial
    && (|| TokenEnd(b, i, ' ') == Found(i)
        || exists v: nat :: VersionAt(b, i, v) && v < |b| < v + 9 && !MayBeVersion(b[v..]))
  }

  /** A request line that is partial can be completed if and only if it is not hopeless. */
  lemma LinePartialExactly(b: seq<Byte>, i: nat)
    requires i <= |b| && ParseRequestLine(b, i) == Partial
    ensures LineOpen(b, i) <==> !LineHopeless(b, i)
  {
    hide SpacesEnd;
    hide PathEnd;
    hide Newline;
    hide MayBeVersion;
    if LineHopeless(b, i) {
      HopelessStays(b, i);
    } else {
      var m := TokenEnd(b, i, ' ');
      hide TokenEnd;
      if m == More {
        NoMethodOpens(b, i);
      } else {
        var p := SpacesEnd(b, m.pos + 1);
        if p == More {
          MethodOpens(b, i);
        } else {
          PathIsNotEmpty(b, m.pos + 1, p.pos);
          var q := PathEnd(b, p.pos);
          if q == More {
            PathOpens(b, i, p.pos);
          } else {
            var v := SpacesEnd(b, q.pos + 1);
            if v == More {
              GapOpens(b, i, p.pos, q.pos);
            } else {
              LineVersionOpens(b, i, v.pos);
            }
          }
        }
      }
    }
  }

  lemma PathIsNotEmpty(b: seq<Byte>, i: nat, p: nat)
    requires i <= |b| && SpacesEnd(b, i) == Found(p)
    ensures PathEnd(b, p).Found? ==> PathEnd(b, p).pos > p
  {
    SpacesStops(b, i);
  }

  lemma LineVersionOpens(b: seq<Byte>, i: nat, v: nat)
    requires i <= |b| && VersionAt(b, i, v) && v < |b| && ParseRequestLine(b, i) == Partial
    requires |b| < v + 9 ==> MayBeVersion(b[v..])
    ensures LineOpen(b, i)
  {
    hide TokenEnd;
    hide SpacesEnd;
    hide PathEnd;
    hide Newline;
    hide MayBeVersion;
    if |b| < v + 9 {
      VersionOpens(b, i, v);
    } else {
      LineEndOpensLine(b, i, v);
    }
  }

  /** No continuation completes a hopeless line. */
  lemma HopelessStays(b: seq<Byte>, i: nat)
    requires i <= |b| && LineHopeless(b, i)
    ensures !LineOpen(b, i)
  {
    forall more | ParseRequestLine(b + more, i).Ok?
      ensures false
    {
      HopelessNever(b, i, more);
    }
  }

  lemma HopelessNever(b: seq<Byte>, i: nat, more: seq<Byte>)
    requires i <= |b| && LineHopeless(b, i)
    ensures !ParseRequestLine(b + more, i).Ok?
  {
    hide SpacesEnd;
    hide PathEnd;
    hide Newline;
    hide MayBeVersion;
    var c := b + more;
    TokenLocal(c, b, |b|, i, ' ');
    if TokenEnd(b, i, ' ') != Found(i) && ParseRequestLine(c, i).Ok? {
      var v: nat :| VersionAt(b, i, v) && v < |b| < v + 9 && !MayBeVersion(b[v..]);
      VersionStays(c, b, i, v);
      UnreadVersion(c, v);
      VersionBegins(b, c, v, ParseVersion(c, v).value);
    }
  }

  lemma VersionBegins(b: seq<Byte>, c: seq<Byte>, v: nat, d: nat)
    requires d < 10 && v < |b| && b <= c && At(c, v, Version(d)) && |b| <= v + 8
    ensures MayBeVersion(b[v..])
  {
    assert c[v..v + 8] == Version(d);
    assert b[v..] == Version(d)[..|b| - v];
  }

  // Hopeless lines, in bytes.

  /** A line with an empty method, of which no part of the version has come. */
  ghost predicate EmptyMethod(s: seq<Byte>) {
    exists gap1, path, gap2 ::
      && s == gap1 + path + gap2 && gap1 != [] && Spaces(gap1) && Spaces(gap2)
      && if path == [] then gap2 == [] else Path(path)
  }

  ghost predicate VersionParts(s: seq<Byte>, verb: seq<Byte>, gap1: seq<Byte>, path: seq<Byte>, gap2: seq<Byte>,
                               tail: seq<Byte>)
  {
    && s == verb + gap1 + path + gap2 + tail && Token(verb) && Path(path)
    && gap1 != [] && Spaces(gap1) && gap2 != [] && Spaces(gap2) && tail != [] && tail[0] != ' '
  }

  /** A line whose version has begun wrongly, and of which fewer than nine bytes of the version have come. */
  ghost predicate WrongVersion(s: seq<Byte>) {
    exists verb, gap1, path, gap2, tail ::
      VersionParts(s, verb, gap1, path, gap2, tail) && |tail| < 9 && !MayBeVersion(tail)
  }

  lemma PartsOfVersion(b: seq<Byte>, i: nat, v: nat)
    requires i <= |b| && VersionAt(b, i, v) && v < |b|
    ensures var m := TokenEnd(b, i, ' ').pos;
            var p := SpacesEnd(b, m + 1).pos;
            var q := PathEnd(b, p).pos;
            VersionParts(b[i..], b[i..m], b[m..p], b[p..q], b[q..v], b[v..])
  {
    hide TokenEnd;
    hide SpacesEnd;
    hide PathEnd;
    hide Token;
    hide Path;
    hide Spaces;
    TokenStops(b, i, ' ');
    var m := TokenEnd(b, i, ' ').pos;
    var p := SpacesEnd(b, m + 1).pos;
    PathStops(b, p);
    var q := PathEnd(b, p).pos;
    UnreadToken(b, i, ' ');
    UnreadGap(b, m);
    UnreadPath(b, p);
    UnreadGap(b, q);
    SpacesStops(b, q + 1);
    assert b[i..] == b[i..m] + b[m..p] + b[p..q] + b[q..v] + b[v..];
  }

  lemma VersionOfParts(b: seq<Byte>, i: nat, verb: seq<Byte>, gap1: seq<Byte>, path: seq<Byte>, gap2: seq<Byte>,
                       tail: seq<Byte>)
    requires i <= |b| && VersionParts(b[i..], verb, gap1, path, gap2, tail)
    ensures VersionAt(b, i, |b| - |tail|)
  {
    hide TokenEnd;
    hide SpacesEnd;
    hide PathEnd;
    hide At;
    hide Token;
    hide Path;
    hide Spaces;
    WholeAt(b, i);
    var m := i + |verb|;
    var p := m + |gap1|;
    var q := p + |path|;
    var v := q + |gap2|;
    AtBoth(b, i, verb + gap1 + path + gap2, tail);
    AtBoth(b, i, verb + gap1 + path, gap2);
    AtBoth(b, i, verb + gap1, path);
    AtBoth(b, i, verb, gap1);
    AtByte(b, v, tail, 0);
    TokenIsNotEmpty(verb, path);
    ReadGap(b, q, gap2);
    ReadPath(b, p, path);
    ReadGap(b, m, gap1);
    ReadToken(b, i, verb, ' ');
  }

  lemma TokenIsNotEmpty(verb: seq<Byte>, path: seq<Byte>)
    requires Token(verb) && Path(path)
    ensures verb != [] && path != []
  {
  }

  lemma WholeAt(b: seq<Byte>, i: nat)
    requires i <= |b|
    ensures At(b, i, b[i..])
  {
  }

  lemma EmptyMethodWaits(b: seq<Byte>, i: nat)
    requires i <= |b| && EmptyMethod(b[i..])
    ensures ParseRequestLine(b, i) == Partial && TokenEnd(b, i, ' ') == Found(i)
  {
    var gap1, path, gap2 :|
      && b[i..] == gap1 + path + gap2 && gap1 != [] && Spaces(gap1) && Spaces(gap2)
      && if path == [] then gap2 == [] else Path(path);
    var p := i + |gap1|;
    var q := p + |path|;
    forall k | i <= k < p
      ensures b[k] == ' '
    {
      assert b[k] == b[i..][k - i] == gap1[k - i];
    }
    forall k | p <= k < q
      ensures IsTargetChar(b[k])
    {
      assert b[k] == b[i..][k - i] == path[k - p];
    }
    forall k | q <= k < |b|
      ensures b[k] == ' '
    {
      assert b[k] == b[i..][k - i] == gap2[k - q];
    }
    GapsWait(b, i, p, q);
  }

  lemma GapsWait(b: seq<Byte>, i: nat, p: nat, q: nat)
    requires i < p <= q <= |b| && (p == q ==> q == |b|) && (forall k :: i <= k < p ==> b[k] == ' ')
    requires (forall k :: p <= k < q ==> IsTargetChar(b[k])) && forall k :: q <= k < |b| ==> b[k] == ' '
    ensures ParseRequestLine(b, i) == Partial && TokenEnd(b, i, ' ') == Found(i)
  {
    hide SpacesEnd;
    hide PathEnd;
    hide ParseVersion;
    hide Newline;
    hide IsTokenChar;
    hide IsControl;
    hide IsTargetChar;
    if p == |b| {
      SpacesRunOut(b, i + 1);
    } else {
      TargetIsNoControl(b, p, q);
      SpacesFinds(b, i + 1, p);
      if q == |b| {
        PathRunsOut(b, p);
      } else {
        PathFinds(b, p, q);
        SpacesRunOut(b, q + 1);
      }
    }
  }

  lemma TargetIsNoControl(b: seq<Byte>, p: nat, q: nat)
    requires p <= q <= |b| && forall k :: p <= k < q ==> IsTargetChar(b[k])
    ensures forall k :: p <= k < q ==> !IsControl(b[k]) && b[k] != ' '
  {
  }

  lemma {:induction false} SpacesRunOut(b: seq<Byte>, i: nat)
    requires i <= |b| && forall k :: i <= k < |b| ==> b[k] == ' '
    ensures SpacesEnd(b, i) == More
    decreases |b| - i
  {
    if i < |b| {
      SpacesRunOut(b, i + 1);
    }
  }

  lemma {:induction false} PathRunsOut(b: seq<Byte>, i: nat)
    requires i <= |b| && forall k :: i <= k < |b| ==> !IsControl(b[k]) && b[k] != ' '
    ensures PathEnd(b, i) == More
    decreases |b| - i
  {
    hide IsControl;
    if i < |b| {
      PathRunsOut(b, i + 1);
    }
  }

  /** A line with an empty method is partial only before its version. */
  lemma EmptyMethodWhere(b: seq<Byte>, i: nat)
    requires i <= |b| && ParseRequestLine(b, i) == Partial && TokenEnd(b, i, ' ') == Found(i)
    ensures i < |b|
    ensures var p := SpacesEnd(b, i + 1);
            p == More || PathEnd(b, p.pos) == More ||
            (PathEnd(b, p.pos).Found? && SpacesEnd(b, PathEnd(b, p.pos).pos + 1) == More)
  {
    hide SpacesEnd;
    hide PathEnd;
    hide ParseVersion;
    hide Newline;
    hide IsTokenChar;
  }

  /** A partial line whose method is empty. */
  lemma EmptyMethodSeen(b: seq<Byte>, i: nat)
    requires i <= |b| && ParseRequestLine(b, i) == Partial && TokenEnd(b, i, ' ') == Found(i)
    ensures EmptyMethod(b[i..])
  {
    EmptyMethodWhere(b, i);
    TokenStops(b, i, ' ');
    hide *;
    var p := SpacesEnd(b, i + 1);
    if p == More {
      OnlySpacesSeen(b, i);
    } else if PathEnd(b, p.pos) == More {
      OpenPathSeen(b, i, p.pos);
    } else {
      WholePathSeen(b, i, p.pos, PathEnd(b, p.pos).pos);
    }
  }

  lemma OnlySpacesSeen(b: seq<Byte>, i: nat)
    requires i < |b| && b[i] == ' ' && SpacesEnd(b, i + 1) == More
    ensures EmptyMethod(b[i..])
  {
    hide EmptyMethod;
    hide SpacesEnd;
    SpacesMore(b, i + 1);
    GapsSeen(b, i, |b|, |b|);
  }

  lemma OpenPathSeen(b: seq<Byte>, i: nat, p: nat)
    requires i < |b| && b[i] == ' ' && SpacesEnd(b, i + 1) == Found(p) && PathEnd(b, p) == More
    ensures EmptyMethod(b[i..])
  {
    hide EmptyMethod;
    hide SpacesEnd;
    hide PathEnd;
    SpacesStops(b, i + 1);
    PathMore(b, p);
    GapsSeen(b, i, p, |b|);
  }

  lemma WholePathSeen(b: seq<Byte>, i: nat, p: nat, q: nat)
    requires i < |b| && b[i] == ' ' && SpacesEnd(b, i + 1) == Found(p) && PathEnd(b, p) == Found(q)
    requires SpacesEnd(b, q + 1) == More
    ensures EmptyMethod(b[i..])
  {
    hide EmptyMethod;
    hide SpacesEnd;
    hide PathEnd;
    SpacesStops(b, i + 1);
    PathStops(b, p);
    SpacesMore(b, q + 1);
    GapsSeen(b, i, p, q);
  }

  lemma GapsSeen(b: seq<Byte>, i: nat, p: nat, q: nat)
    requires i < p <= q <= |b| && (p == q ==> q == |b|)
    requires (forall k :: i <= k < p ==> b[k] == ' ') && (forall k :: q <= k < |b| ==> b[k] == ' ')
    requires forall k :: p <= k < q ==> !IsControl(b[k]) && b[k] != ' '
    ensures EmptyMethod(b[i..])
  {
    assert Path(b[p..q]) || p == q by {
      forall k | p <= k < q ensures IsTargetChar(b[k]) { OtherChars(b[k]); }
    }
    assert Spaces(b[i..p]) && Spaces(b[q..]);
    assert b[i..] == b[i..p] + b[p..q] + b[q..];
  }

  lemma WrongVersionSeen(b: seq<Byte>, i: nat, v: nat)
    requires i <= |b| && VersionAt(b, i, v) && v < |b| < v + 9 && !MayBeVersion(b[v..])
    ensures WrongVersion(b[i..])
  {
    hide TokenEnd;
    hide SpacesEnd;
    hide PathEnd;
    hide MayBeVersion;
    hide VersionParts;
    PartsOfVersion(b, i, v);
    var m := TokenEnd(b, i, ' ').pos;
    var p := SpacesEnd(b, m + 1).pos;
    var q := PathEnd(b, p).pos;
    var tail := b[v..];
    assert VersionParts(b[i..], b[i..m], b[m..p], b[p..q], b[q..v], tail);
    assert |tail| < 9 && !MayBeVersion(tail);
  }

  /** A partial line is hopeless if and only if its bytes are. */
  lemma HopelessInBytes(b: seq<Byte>, i: nat)
    requires i <= |b|
    ensures LineHopeless(b, i) <==> EmptyMethod(b[i..]) || WrongVersion(b[i..])
  {
    hide EmptyMethod;
    hide MayBeVersion;
    hide TokenEnd;
    hide VersionParts;
    hide VersionAt;
    if LineHopeless(b, i) {
      if TokenEnd(b, i, ' ') == Found(i) {
        EmptyMethodSeen(b, i);
      } else {
        var v: nat :| VersionAt(b, i, v) && v < |b| < v + 9 && !MayBeVersion(b[v..]);
        WrongVersionSeen(b, i, v);
      }
    }
    if EmptyMethod(b[i..]) {
      EmptyMethodWaits(b, i);
    }
    if WrongVersion(b[i..]) {
      var verb, gap1, path, gap2, tail :|
        VersionParts(b[i..], verb, gap1, path, gap2, tail) && |tail| < 9 && !MayBeVersion(tail);
      TailOfParts(b[i..], verb, gap1, path, gap2, tail);
      VersionOfParts(b, i, verb, gap1, path, gap2, tail);
      var v: nat := |b| - |tail|;
      assert b[v..] == b[i..][v - i..] == tail;
      VersionWaits(b, i, v);
      assert VersionAt(b, i, v) && !MayBeVersion(b[v..]);
    }
  }

  lemma TailOfParts(s: seq<Byte>, verb: seq<Byte>, gap1: seq<Byte>, path: seq<Byte>, gap2: seq<Byte>, tail: seq<Byte>)
    requires VersionParts(s, verb, gap1, path, gap2, tail)
    ensures 0 < |tail| <= |s| && s[|s| - |tail|..] == tail
  {
  }

  lemma VersionWaits(b: seq<Byte>, i: nat, v: nat)
    requires i <= |b| && VersionAt(b, i, v) && v < |b| < v + 9
    ensures ParseRequestLine(b, i) == Partial
  {
    hide TokenEnd;
    hide SpacesEnd;
    hide PathEnd;
  }

  // Requests.

  ghost predicate BeginsRequest(b: seq<Byte>, max: nat) {
    exists t: RequestText :: t.Valid() && |t.headers| <= max && t.Render() <= b
  }

  /** Some continuation begins with a request. */
  ghost predicate Opens(b: seq<Byte>, max: nat) {
    exists more :: BeginsRequest(b + more, max)
  }

  function BlankBytes(blank: Option<Eol>): seq<Byte> {
    match blank
    case None => []
    case Some(e) => e.Render()
  }

  /** The parser waits for more although none can help: the method is empty, or the version has begun wrongly. */
  ghost predicate Waits(b: seq<Byte>) {
    exists blank: Option<Eol> ::
      BlankBytes(blank) <= b && (EmptyMethod(b[|BlankBytes(blank)|..]) || WrongVersion(b[|BlankBytes(blank)|..]))
  }

  lemma Begins(b: seq<Byte>, max: nat)
    ensures BeginsRequest(b, max) <==> ParseRequest(b, max).Ok?
  {
    hide ParseRequest;
    AcceptsExactlyRequests(b, max);
  }

  lemma OpensOf(b: seq<Byte>, more: seq<Byte>, max: nat)
    requires ParseRequest(b + more, max).Ok?
    ensures Opens(b, max)
  {
    hide ParseRequest;
    Begins(b + more, max);
  }

  lemma OpensLater(b: seq<Byte>, x: seq<Byte>, max: nat)
    requires Opens(b + x, max)
    ensures Opens(b, max)
  {
    hide BeginsRequest;
    var more :| BeginsRequest((b + x) + more, max);
    assert (b + x) + more == b + (x + more);
  }

  /** Behind a leading blank line that is over. */
  lemma LineOpensRequest(b: seq<Byte>, i: nat, max: nat)
    requires LeadingBlank(b) == Found(i) && b != [] && LineOpen(b, i)
    ensures Opens(b, max)
  {
    hide ParseRequestLine;
    hide Newline;
    var more :| ParseRequestLine(b + more, i).Ok? && ParseRequestLine(b + more, i).pos == |b + more|;
    BlankStays(b, more, i);
    LineThenHeaders(b + more, i, max);
    OpensLater(b, more, max);
  }

  lemma BlankStays(b: seq<Byte>, more: seq<Byte>, i: nat)
    requires LeadingBlank(b) == Found(i) && b != []
    ensures LeadingBlank(b + more) == Found(i)
  {
  }

  lemma LineThenHeaders(b: seq<Byte>, i: nat, max: nat)
    requires LeadingBlank(b) == Found(i) && b != [] && ParseRequestLine(b, i).Ok? && ParseRequestLine(b, i).pos == |b|
    ensures Opens(b, max)
  {
    hide ParseRequestLine;
    hide LeadingBlank;
    var c := b + "\r\n";
    BlankStays(b, "\r\n", i);
    RequestLineLocal(c, b, |b|, i);
    assert Newline(c, |b|) == Found(|c|);
    assert ParseHeaders(c, |b|, 0, max) == Ok([], |c|);
    OpensOf(b, "\r\n", max);
  }

  lemma HeadersOpenRequest(b: seq<Byte>, i: nat, max: nat)
    requires LeadingBlank(b) == Found(i) && b != [] && ParseRequestLine(b, i).Ok?
    requires ParseHeaders(b, ParseRequestLine(b, i).pos, 0, max) == Partial
    ensures Opens(b, max)
  {
    hide ParseRequestLine;
    hide LeadingBlank;
    hide ParseHeaders;
    var n := ParseRequestLine(b, i).pos;
    HeadersPartialOpen(b, n, 0, max);
    var more :| ParseHeaders(b + more, n, 0, max).Ok?;
    BlankStays(b, more, i);
    RequestLineLocal(b + more, b, |b|, i);
    OpensOf(b, more, max);
  }

  lemma BlankOpens(b: seq<Byte>, max: nat)
    requires LeadingBlank(b) == More
    ensures Opens(b, max)
  {
    hide ParseRequestLine;
    if b == [] {
      NoMethodOpens("G", 0);
      LineOpensRequest("G", 0, max);
      assert b + "G" == "G";
      OpensLater(b, "G", max);
    } else {
      var c := b + "\nG";
      assert c == "\r\nG";
      NoMethodOpens(c, 2);
      LineOpensRequest(c, 2, max);
      OpensLater(b, "\nG", max);
    }
  }

  lemma WaitsIsHopeless(b: seq<Byte>, max: nat)
    requires Waits(b)
    ensures b != [] && ParseRequest(b, max) == Partial
    ensures LeadingBlank(b).Found? && LeadingBlank(b).pos <= |b| && LineHopeless(b, LeadingBlank(b).pos)
  {
    hide ParseRequestLine;
    hide EmptyMethod;
    hide WrongVersion;
    hide TokenEnd;
    hide MayBeVersion;
    var blank: Option<Eol> :|
      BlankBytes(blank) <= b && (EmptyMethod(b[|BlankBytes(blank)|..]) || WrongVersion(b[|BlankBytes(blank)|..]));
    var i := |BlankBytes(blank)|;
    HopelessInBytes(b, i);
    StartsLine(b[i..]);
    assert b[i] == b[i..][0];
    if blank.Some? {
      assert At(b, 0, blank.value.Render());
      ReadEol(b, 0, blank.value);
    }
  }

  lemma StartsLine(s: seq<Byte>)
    requires EmptyMethod(s) || WrongVersion(s)
    ensures s != [] && s[0] != '\r' && s[0] != '\n'
  {
    if EmptyMethod(s) {
      var gap1, path, gap2 :| s == gap1 + path + gap2 && gap1 != [] && Spaces(gap1);
      assert s[0] == gap1[0];
    } else {
      var verb, gap1, path, gap2, tail :| VersionParts(s, verb, gap1, path, gap2, tail);
      assert s[0] == verb[0] && IsTchar(verb[0]);
    }
  }

  lemma HopelessWaits(b: seq<Byte>)
    requires LeadingBlank(b).Found? && LineHopeless(b, LeadingBlank(b).pos)
    ensures Waits(b)
  {
    hide EmptyMethod;
    hide WrongVersion;
    hide LineHopeless;
    var i := LeadingBlank(b).pos;
    HopelessInBytes(b, i);
    var blank := None;
    if i > 0 {
      var e := UnreadEol(b, 0);
      AtSlice(b, 0, e.Render());
      blank := Some(e);
    }
    assert BlankBytes(blank) <= b && |BlankBytes(blank)| == i;
  }

  lemma WaitingIsOver(b: seq<Byte>, more: seq<Byte>, max: nat)
    requires Waits(b)
    ensures !BeginsRequest(b + more, max)
  {
    hide ParseRequestLine;
    hide ParseHeaders;
    hide LineHopeless;
    hide Waits;
    hide BeginsRequest;
    WaitsIsHopeless(b, max);
    var i := LeadingBlank(b).pos;
    BlankStays(b, more, i);
    HopelessNever(b, i, more);
    Begins(b + more, max);
  }

  lemma PartialOpens(b: seq<Byte>, max: nat)
    requires ParseRequest(b, max) == Partial
    ensures Opens(b, max) || Waits(b)
  {
    hide ParseRequestLine;
    hide ParseHeaders;
    hide LineHopeless;
    hide Opens;
    hide Waits;
    var i := LeadingBlank(b);
    if i == More {
      BlankOpens(b, max);
    } else {
      var line := ParseRequestLine(b, i.pos);
      if line == Partial {
        LinePartialExactly(b, i.pos);
        if LineHopeless(b, i.pos) {
          HopelessWaits(b);
        } else {
          LineOpensRequest(b, i.pos, max);
        }
      } else {
        HeadersOpenRequest(b, i.pos, max);
      }
    }
  }

  /** The parser refuses a buffer if and only if no continuation of it begins with a request, unless it waits in vain
      for more: then the method is empty, or the version has begun wrongly. */
  lemma RefusesExactly(b: seq<Byte>, max: nat)
    ensures ParseRequest(b, max) == Err <==> !Opens(b, max) && !Waits(b)
    ensures ParseRequest(b, max) == Partial <==> !BeginsRequest(b, max) && (Opens(b, max) || Waits(b))
    ensures Waits(b) ==> !Opens(b, max)
  {
    hide ParseRequest;
    hide BeginsRequest;
    hide Waits;
    Begins(b, max);
    if ParseRequest(b, max) == Partial {
      PartialOpens(b, max);
    }
    if Waits(b) {
      WaitsIsHopeless(b, max);
      forall more
        ensures !BeginsRequest(b + more, max)
      {
        WaitingIsOver(b, more, max);
      }
    }
    if more :| BeginsRequest(b + more, max) {
      Begins(b + more, max);
      RequestStable(b, more, max);
    }
    if ParseRequest(b, max).Ok? {
      assert b + [] == b;
      assert BeginsRequest(b + [], max);
    }
  }

  /** Headers alone are refused if and only if no continuation completes them. */
  lemma HeadersRefusedExactly(b: seq<Byte>, max: nat)
    ensures ParseHeaders(b, 0, 0, max) == Err <==> !HeadersOpen(b, 0, 0, max)
  {
    hide ParseHeaders;
    if ParseHeaders(b, 0, 0, max) == Partial {
      HeadersPartialOpen(b, 0, 0, max);
    }
    if more :| ParseHeaders(b + more, 0, 0, max).Ok? {
      HeadersLocal(b + more, b, |b|, 0, 0, max);
    }
    if ParseHeaders(b, 0, 0, max).Ok? {
      assert b + [] == b;
    }
  }
}
