/** What the parser's verdicts on a response mean for the bytes that may still come. */
module ResponseVerdicts {
  import opened Bytes
  import opened RequestSpec
  import opened RequestScans
  import opened RequestStability
  import opened RequestGrammar
  import RequestVerdicts
  import opened ResponseGrammar

  // Status lines that are partial.

  ghost predicate LineOpen(b: seq<Byte>) {
    exists more :: ParseStatusLine(b + more).Ok? && ParseStatusLine(b + more).pos == |b + more|
  }

  lemma LineOpensLater(b: seq<Byte>, x: seq<Byte>)
    requires LineOpen(b + x)
    ensures LineOpen(b)
  {
    hide ParseStatusLine;
    var more :| ParseStatusLine((b + x) + more).Ok? && ParseStatusLine((b + x) + more).pos == |(b + x) + more|;
    assert (b + x) + more == b + (x + more);
  }

  /** Version and spaces are there, and something follows. */
  ghost predicate StatusAt(b: seq<Byte>, s: nat) {
    && ParseVersion(b, 0).Ok? && 9 <= |b| && b[8] == ' ' && SpacesEnd(b, 9) == Found(s)
  }

  predicate DigitsAt(b: seq<Byte>, s: nat)
    requires s + 3 <= |b|
  {
    IsDigit(b[s]) && IsDigit(b[s + 1]) && IsDigit(b[s + 2])
  }

  lemma StatusStays(c: seq<Byte>, b: seq<Byte>, s: nat)
    requires b <= c && StatusAt(b, s)
    ensures StatusAt(c, s) && s < |b| && ParseVersion(c, 0) == ParseVersion(b, 0)
  {
    hide ParseVersion;
    hide SpacesEnd;
    assert Agree(c, b, |b|);
    VersionLocal(c, b, |b|, 0);
    SpacesLocal(c, b, |b|, 9);
  }

  lemma VersionEndsAt8(b: seq<Byte>)
    requires ParseVersion(b, 0).Ok?
    ensures ParseVersion(b, 0).pos == 8 < |b|
  {
  }

  /** What the parser does behind the version and the spaces. */
  lemma LineOfStatus(b: seq<Byte>, s: nat)
    requires StatusAt(b, s)
    ensures ParseStatusLine(b).Ok? <==>
            && s + 4 <= |b| && DigitsAt(b, s) && TextLine(b, s + 3).Ok?
            && (TextLine(b, s + 3).value.len == 0 || b[s + 3] == ' ')
    ensures ParseStatusLine(b).Ok? ==> ParseStatusLine(b).pos == TextLine(b, s + 3).pos
    ensures ParseStatusLine(b) == Partial <==> |b| < s + 4 || (DigitsAt(b, s) && TextLine(b, s + 3) == Partial)
  {
    VersionEndsAt8(b);
    hide ParseVersion;
    hide SpacesEnd;
    hide TextLine;
    hide SkipSpaces;
    hide IsDigit;
    hide Digit;
  }

  lemma PhraseOpens(b: seq<Byte>, s: nat)
    requires StatusAt(b, s) && s + 4 <= |b| && DigitsAt(b, s) && TextLine(b, s + 3) == Partial
    requires b[s + 3] == ' ' || EndsText(b[s + 3])
    ensures LineOpen(b)
  {
    hide StatusAt;
    hide IsDigit;
    hide Newline;
    var more := RequestVerdicts.TextOpens(b, s + 3);
    var c := b + more;
    StatusStays(c, b, s);
    LineOfStatus(c, s);
  }

  lemma StatusOpens(b: seq<Byte>, s: nat)
    requires StatusAt(b, s) && s < |b| < s + 4 && forall k :: s <= k < |b| ==> IsDigit(b[k])
    ensures LineOpen(b)
  {
    hide StatusAt;
    var x := "00"[..s + 3 - |b|] + "\r";
    var c := b + x;
    assert |c| == s + 4 && c[s + 3] == '\r';
    forall k | s <= k < s + 3
      ensures IsDigit(c[k])
    {
      if k >= |b| {
        assert c[k] == "00"[..s + 3 - |b|][k - |b|];
      }
    }
    StatusStays(c, b, s);
    OtherChars('\r');
    assert TextEnd(c, s + 3) == Found(s + 3);
    assert TextLine(c, s + 3) == Partial;
    PhraseOpens(c, s);
    LineOpensLater(b, x);
  }

  lemma GapOpens(b: seq<Byte>)
    requires ParseVersion(b, 0).Ok? && 9 <= |b| && b[8] == ' ' && SpacesEnd(b, 9) == More
    ensures LineOpen(b)
  {
    var c := b + "2";
    RequestVerdicts.SpacesMore(b, 9);
    SpacesFinds(c, 9, |b|);
    VersionLocal(c, b, |b|, 0);
    hide ParseVersion;
    hide SpacesEnd;
    StatusOpens(c, |b|);
    LineOpensLater(b, "2");
  }

  lemma VersionOpens(b: seq<Byte>)
    requires |b| < 9 && RequestVerdicts.MayBeVersion(b)
    ensures LineOpen(b)
  {
    hide DigitOf;
    var d :| 0 <= d < 10 && b <= Version(d);
    var x := Version(d)[|b|..] + " ";
    var c := b + x;
    assert c == Version(d) + " ";
    assert At(c, 0, Version(d));
    ReadVersion(c, 0, d);
    assert SpacesEnd(c, 9) == More;
    GapOpens(c);
    LineOpensLater(b, x);
  }

  // Hopeless lines.

  ghost predicate WrongVersion(b: seq<Byte>) {
    |b| < 9 && !RequestVerdicts.MayBeVersion(b)
  }

  ghost predicate StatusParts(b: seq<Byte>, d: nat, gap: seq<Byte>, tail: seq<Byte>) {
    d < 10 && b == Version(d) + gap + tail && gap != [] && Spaces(gap) && tail != [] && tail[0] != ' '
  }

  predicate AreDigits(s: seq<Byte>) {
    forall k :: 0 <= k < |s| ==> '0' <= s[k] <= '9'
  }

  /** A text whose line end has not come, or only the CR of it. */
  predicate IsUnended(s: seq<Byte>) {
    Text(s) || (s != [] && s[|s| - 1] == '\r' && Text(s[..|s| - 1]))
  }

  /** A status with something else than digits, of which fewer than four bytes have come. */
  ghost predicate WrongStatus(b: seq<Byte>) {
    exists d: nat, gap, tail :: StatusParts(b, d, gap, tail) && |tail| < 4 && !AreDigits(tail)
  }

  /** A status with a phrase right behind it, whose line end has not come. */
  ghost predicate WrongPhrase(b: seq<Byte>) {
    exists d: nat, gap, tail ::
      && StatusParts(b, d, gap, tail) && |tail| >= 4 && AreDigits(tail[..3])
      && IsTextChar(tail[3]) && tail[3] != ' ' && IsUnended(tail[3..])
  }

  lemma PartsOfStatus(b: seq<Byte>, s: nat)
    requires StatusAt(b, s)
    ensures 8 < s < |b| && ParseVersion(b, 0).Ok? && StatusParts(b, ParseVersion(b, 0).value, b[8..s], b[s..])
  {
    UnreadVersion(b, 0);
    VersionEndsAt8(b);
    var d := ParseVersion(b, 0).value;
    hide ParseVersion;
    hide SpacesEnd;
    hide DigitOf;
    SpacesStops(b, 9);
    UnreadGap(b, 8);
    AtSlice(b, 0, Version(d));
    assert b == Version(d) + b[8..s] + b[s..];
  }

  lemma StatusOfParts(b: seq<Byte>, d: nat, gap: seq<Byte>, tail: seq<Byte>)
    requires StatusParts(b, d, gap, tail)
    ensures |b| - |tail| == 8 + |gap| && StatusAt(b, |b| - |tail|) && b[|b| - |tail|..] == tail
  {
    hide ParseVersion;
    hide SpacesEnd;
    hide DigitOf;
    hide Spaces;
    var s := 8 + |gap|;
    assert At(b, 0, b);
    AtBoth(b, 0, Version(d) + gap, tail);
    AtBoth(b, 0, Version(d), gap);
    AtByte(b, s, tail, 0);
    ReadVersion(b, 0, d);
    ReadGap(b, 8, gap);
  }

  /** A status line that is partial, as the parser's scans see it. */
  ghost predicate LineHopeless(b: seq<Byte>, s: nat)
    requires StatusAt(b, s)
  {
    if |b| < s + 4 then exists k :: s <= k < |b| && !IsDigit(b[k])
    else DigitsAt(b, s) && TextLine(b, s + 3) == Partial && b[s + 3] != ' ' && !EndsText(b[s + 3])
  }

  lemma HopelessNever(b: seq<Byte>, s: nat, more: seq<Byte>)
    requires StatusAt(b, s) && LineHopeless(b, s)
    ensures !ParseStatusLine(b + more).Ok?
  {
    hide StatusAt;
    hide IsDigit;
    hide Newline;
    hide EndsText;
    var c := b + more;
    StatusStays(c, b, s);
    LineOfStatus(c, s);
  }

  lemma UnendedIsPartial(b: seq<Byte>, i: nat)
    requires i <= |b| && IsUnended(b[i..])
    ensures TextLine(b, i) == Partial
  {
    var s := b[i..];
    if Text(s) {
      TextMeaning(s);
      hide EndsText;
      forall k | i <= k < |b| ensures !EndsText(b[k]) { assert b[k] == s[k - i]; }
      TextRunsOut(b, i);
    } else {
      var e := |b| - 1;
      TextMeaning(s[..|s| - 1]);
      OtherChars('\r');
      forall k | i <= k < e ensures !EndsText(b[k]) { assert b[k] == s[..|s| - 1][k - i]; }
      assert b[e] == s[|s| - 1];
      TextFinds(b, i, e);
    }
  }

  lemma {:induction false} TextRunsOut(b: seq<Byte>, i: nat)
    requires i <= |b| && forall k :: i <= k < |b| ==> !EndsText(b[k])
    ensures TextEnd(b, i) == More
    decreases |b| - i
  {
    hide EndsText;
    if i < |b| {
      TextRunsOut(b, i + 1);
    }
  }

  lemma PartialIsUnended(b: seq<Byte>, i: nat)
    requires i <= |b| && TextLine(b, i) == Partial
    ensures IsUnended(b[i..])
  {
    hide EndsText;
    var s := b[i..];
    if TextEnd(b, i) == More {
      RequestVerdicts.TextMore(b, i);
      TextMeaning(s);
    } else {
      TextStops(b, i);
      var e := TextEnd(b, i).pos;
      assert e + 1 == |b| && b[e] == '\r';
      TextMeaning(s[..|s| - 1]);
    }
  }

  lemma HopelessInBytes(b: seq<Byte>, s: nat)
    requires StatusAt(b, s) && LineHopeless(b, s)
    ensures WrongStatus(b) || WrongPhrase(b)
  {
    hide StatusAt;
    hide StatusParts;
    hide IsUnended;
    hide TextLine;
    PartsOfStatus(b, s);
    var d, gap, tail := ParseVersion(b, 0).value, b[8..s], b[s..];
    hide ParseVersion;
    if |b| < s + 4 {
      var k :| s <= k < |b| && !IsDigit(b[k]);
      assert tail[k - s] == b[k] && !AreDigits(tail);
      assert StatusParts(b, d, gap, tail);
    } else {
      PartialIsUnended(b, s + 3);
      OtherChars(b[s + 3]);
      assert tail[3..] == b[s + 3..];
      assert tail[..3] == [b[s], b[s + 1], b[s + 2]];
      assert StatusParts(b, d, gap, tail);
    }
  }

  lemma WrongStatusIsHopeless(b: seq<Byte>) returns (s: nat)
    requires WrongStatus(b)
    ensures StatusAt(b, s) && LineHopeless(b, s)
  {
    hide StatusAt;
    hide StatusParts;
    var d: nat, gap, tail :| StatusParts(b, d, gap, tail) && |tail| < 4 && !AreDigits(tail);
    StatusOfParts(b, d, gap, tail);
    s := |b| - |tail|;
    var k :| 0 <= k < |tail| && !('0' <= tail[k] <= '9');
    assert b[s + k] == tail[k];
  }

  lemma WrongPhraseIsHopeless(b: seq<Byte>) returns (s: nat)
    requires WrongPhrase(b)
    ensures StatusAt(b, s) && LineHopeless(b, s)
  {
    hide StatusAt;
    hide StatusParts;
    hide IsUnended;
    hide TextLine;
    var d: nat, gap, tail :|
      && StatusParts(b, d, gap, tail) && |tail| >= 4 && AreDigits(tail[..3])
      && IsTextChar(tail[3]) && tail[3] != ' ' && IsUnended(tail[3..]);
    StatusOfParts(b, d, gap, tail);
    s := |b| - |tail|;
    assert b[s + 3..] == b[s..][3..] == tail[3..];
    assert b[s] == tail[..3][0] && b[s + 1] == tail[..3][1] && b[s + 2] == tail[..3][2] && b[s + 3] == tail[3];
    UnendedIsPartial(b, s + 3);
    OtherChars(b[s + 3]);
  }

  /** A line that never becomes a status line, although the parser still asks for more. */
  ghost predicate Waits(b: seq<Byte>) {
    WrongVersion(b) || WrongStatus(b) || WrongPhrase(b)
  }

  lemma VersionMore(b: seq<Byte>)
    ensures ParseVersion(b, 0) == Partial <==> |b| < 9
  {
  }

  lemma LinePartialOpens(b: seq<Byte>)
    requires ParseStatusLine(b) == Partial
    ensures LineOpen(b) || Waits(b)
  {
    hide LineOpen;
    hide LineHopeless;
    hide WrongStatus;
    hide WrongPhrase;
    hide RequestVerdicts.MayBeVersion;
    hide ParseVersion;
    hide SpacesEnd;
    VersionMore(b);
    if |b| < 9 {
      if RequestVerdicts.MayBeVersion(b) {
        VersionOpens(b);
      }
    } else {
      VersionEndsAt8(b);
      var s := SpacesEnd(b, 9);
      if s == More {
        GapOpens(b);
      } else {
        assert StatusAt(b, s.pos);
        StatusPartial(b, s.pos);
      }
    }
  }

  lemma StatusPartial(b: seq<Byte>, s: nat)
    requires StatusAt(b, s) && ParseStatusLine(b) == Partial
    ensures LineOpen(b) || Waits(b)
  {
    hide LineOpen;
    hide WrongStatus;
    hide WrongPhrase;
    hide ParseStatusLine;
    hide IsDigit;
    hide TextLine;
    hide EndsText;
    PartsOfStatus(b, s);
    hide StatusAt;
    LineOfStatus(b, s);
    if LineHopeless(b, s) {
      HopelessInBytes(b, s);
    } else if |b| < s + 4 {
      StatusOpens(b, s);
    } else {
      PhraseOpens(b, s);
    }
  }

  lemma WaitingIsPartial(b: seq<Byte>)
    requires Waits(b)
    ensures ParseStatusLine(b) == Partial
  {
    hide StatusAt;
    hide WrongStatus;
    hide WrongPhrase;
    hide IsDigit;
    if WrongVersion(b) {
      VersionMore(b);
    } else {
      var s := 0;
      if WrongStatus(b) {
        s := WrongStatusIsHopeless(b);
      } else {
        s := WrongPhraseIsHopeless(b);
      }
      hide TextLine;
      hide ParseStatusLine;
      LineOfStatus(b, s);
    }
  }

  lemma LineNever(b: seq<Byte>, more: seq<Byte>)
    requires Waits(b)
    ensures !ParseStatusLine(b + more).Ok?
  {
    hide StatusAt;
    hide WrongStatus;
    hide WrongPhrase;
    hide LineHopeless;
    hide RequestVerdicts.MayBeVersion;
    if WrongVersion(b) {
      var c := b + more;
      if ParseVersion(c, 0).Ok? {
        BegunVersion(b, c);
      }
    } else if WrongStatus(b) {
      var s := WrongStatusIsHopeless(b);
      HopelessNever(b, s, more);
    } else {
      var s := WrongPhraseIsHopeless(b);
      HopelessNever(b, s, more);
    }
  }

  lemma BegunVersion(b: seq<Byte>, c: seq<Byte>)
    requires |b| < 9 && b <= c && ParseVersion(c, 0).Ok?
    ensures RequestVerdicts.MayBeVersion(b)
  {
    hide DigitOf;
    UnreadVersion(c, 0);
    var d := ParseVersion(c, 0).value;
    if b == [] {
      assert b <= Version(d);
    } else {
      RequestVerdicts.VersionBegins(b, c, 0, d);
      assert b[0..] == b;
    }
  }

  // Responses.

  /** The buffer begins with a response of at most `max` header lines. */
  ghost predicate BeginsResponse(b: seq<Byte>, max: nat) {
    exists t: ResponseText :: t.Valid() && |t.headers| <= max && t.Render() <= b
  }

  /** Some continuation of the buffer begins with a response. */
  ghost predicate Opens(b: seq<Byte>, max: nat) {
    exists more :: BeginsResponse(b + more, max)
  }

  lemma Begins(b: seq<Byte>, max: nat)
    ensures BeginsResponse(b, max) <==> ParseResponse(b, max).Ok?
  {
    hide ParseResponse;
    AcceptsExactlyResponses(b, max);
  }

  lemma OpensOf(b: seq<Byte>, more: seq<Byte>, max: nat)
    requires ParseResponse(b + more, max).Ok?
    ensures Opens(b, max)
  {
    hide BeginsResponse;
    Begins(b + more, max);
  }

  lemma LineOpensResponse(b: seq<Byte>, max: nat)
    requires LineOpen(b)
    ensures Opens(b, max)
  {
    hide Opens;
    var more :| ParseStatusLine(b + more).Ok? && ParseStatusLine(b + more).pos == |b + more|;
    var c := b + more;
    var d := c + "\r\n";
    StatusLineLocal(d, c, |c|);
    assert d[|c|] == '\r' && d[|c| + 1] == '\n';
    hide ParseStatusLine;
    assert ParseResponse(d, max).Ok?;
    assert d == b + (more + "\r\n");
    OpensOf(b, more + "\r\n", max);
  }

  lemma HeadersOpenResponse(b: seq<Byte>, max: nat)
    requires ParseStatusLine(b).Ok? && ParseHeaders(b, ParseStatusLine(b).pos, 0, max) == Partial
    ensures Opens(b, max)
  {
    hide Opens;
    hide ParseStatusLine;
    hide ParseHeaders;
    var n := ParseStatusLine(b).pos;
    RequestVerdicts.HeadersPartialOpen(b, n, 0, max);
    var more :| ParseHeaders(b + more, n, 0, max).Ok?;
    StatusLineLocal(b + more, b, |b|);
    OpensOf(b, more, max);
  }

  lemma PartialOpens(b: seq<Byte>, max: nat)
    requires ParseResponse(b, max) == Partial
    ensures Opens(b, max) || Waits(b)
  {
    hide ParseStatusLine;
    hide ParseHeaders;
    hide LineOpen;
    hide Opens;
    hide Waits;
    if ParseStatusLine(b) == Partial {
      LinePartialOpens(b);
      if LineOpen(b) {
        LineOpensResponse(b, max);
      }
    } else {
      HeadersOpenResponse(b, max);
    }
  }

  lemma WaitingIsOver(b: seq<Byte>, more: seq<Byte>, max: nat)
    requires Waits(b)
    ensures !BeginsResponse(b + more, max) && ParseResponse(b, max) == Partial
  {
    hide ParseStatusLine;
    hide ParseHeaders;
    hide Waits;
    hide BeginsResponse;
    LineNever(b, more);
    WaitingIsPartial(b);
    Begins(b + more, max);
  }

  /** The parser refuses a buffer if and only if no continuation of it begins with a response, unless it waits in vain
      for more: then the version, the status, or the byte behind the status is wrong. */
  lemma RefusesExactly(b: seq<Byte>, max: nat)
    ensures ParseResponse(b, max) == Err <==> !Opens(b, max) && !Waits(b)
    ensures ParseResponse(b, max) == Partial <==> !BeginsResponse(b, max) && (Opens(b, max) || Waits(b))
    ensures Waits(b) ==> !Opens(b, max)
  {
    hide ParseResponse;
    hide BeginsResponse;
    hide Waits;
    Begins(b, max);
    if ParseResponse(b, max) == Partial {
      PartialOpens(b, max);
    }
    if Waits(b) {
      forall more
        ensures !BeginsResponse(b + more, max) && ParseResponse(b, max) == Partial
      {
        WaitingIsOver(b, more, max);
      }
      assert !BeginsResponse(b + [], max);
    }
    if more :| BeginsResponse(b + more, max) {
      Begins(b + more, max);
      ResponseStable(b, more, max);
    }
    if ParseResponse(b, max).Ok? {
      assert b + [] == b;
      assert BeginsResponse(b + [], max);
    }
  }
}
