/** The completeness pre-scan: a quick look for two line ends in a row near the end of a growing buffer, meant to
    spare the parser from starting over on every byte. */
module RequestPreScan {
  import opened Bytes
  import opened RequestSpec
  import opened RequestScans
  import opened RequestStability

  /** Every carriage return in `b[i..j]` is followed by a line feed there. */
  ghost predicate PairedReturns(b: seq<Byte>, i: nat, j: nat) {
    j <= |b| && forall k :: i <= k < j && b[k] == '\r' ==> k + 1 < j && b[k + 1] == '\n'
  }

  /** Two line ends in a row stand at `p`, which is not the middle of a line end, and end at `c`. */
  ghost predicate BlankLineAt(b: seq<Byte>, p: nat, c: nat) {
    && 0 < p < |b| && b[p - 1] != '\r'
    && Newline(b, p).Found? && Newline(b, Newline(b, p).pos) == Found(c)
  }

  /** What an accepted prefix looks like to the pre-scan. */
  ghost predicate Terminated(b: seq<Byte>, c: nat) {
    PairedReturns(b, 0, c) && exists p :: BlankLineAt(b, p, c)
  }

  /** A stretch that ends in a line end, which starts at `p`, and has no other carriage returns. */
  ghost predicate LineIn(b: seq<Byte>, i: nat, p: nat, n: nat) {
    && i <= p < n <= |b| && Newline(b, p) == Found(n)
    && (p > 0 ==> b[p - 1] != '\r')
    && PairedReturns(b, i, n)
  }

  lemma TextLinePaired(b: seq<Byte>, i: nat)
    requires i <= |b| && (i > 0 ==> b[i - 1] != '\r')
    ensures TextLine(b, i).Ok? ==> exists p :: LineIn(b, i, p, TextLine(b, i).pos)
  {
    TextStops(b, i);
    if TextLine(b, i).Ok? {
      assert LineIn(b, i, TextEnd(b, i).pos, TextLine(b, i).pos);
    }
  }

  lemma HeaderPaired(b: seq<Byte>, i: nat, first: bool)
    requires i < |b| && (i > 0 ==> b[i - 1] != '\r') && (i == 0 ==> first)
    ensures var r := ParseHeader(b, i, first); r.Ok? ==> exists p :: 0 < p && LineIn(b, i, p, r.pos)
  {
    hide TokenEnd;
    hide BlanksEnd;
    hide TextLine;
    hide Newline;
    var r := ParseHeader(b, i, first);
    if !first && IsBlank(b[i]) {
      TextLinePaired(b, i);
    } else if r.Ok? {
      TokenStops(b, i, ':');
      var colon := TokenEnd(b, i, ':').pos;
      BlanksStops(b, colon + 1);
      var v := BlanksEnd(b, colon + 1).pos;
      assert forall k :: i <= k < v ==> b[k] != '\r';
      TextLinePaired(b, v);
      var p :| LineIn(b, v, p, r.pos);
      assert 0 < p && LineIn(b, i, p, r.pos);
    }
  }

  /** Headers, read after a line end that starts at `p`, leave two line ends in a row. */
  lemma {:induction false} HeadersTerminated(b: seq<Byte>, p: nat, i: nat, count: nat, max: nat)
    requires 0 < p && LineIn(b, p, p, i) && PairedReturns(b, 0, i) && count <= max
    ensures var r := ParseHeaders(b, i, count, max); r.Ok? ==> Terminated(b, r.pos)
    decreases |b| - i
  {
    hide ParseHeader;
    var r := ParseHeaders(b, i, count, max);
    if r.Ok? {
      if b[i] == '\r' || b[i] == '\n' {
        assert BlankLineAt(b, p, r.pos);
      } else {
        HeaderPaired(b, i, count == 0);
        var h := ParseHeader(b, i, count == 0);
        var q :| 0 < q && LineIn(b, i, q, h.pos);
        HeadersTerminated(b, q, h.pos, count + 1, max);
      }
    }
  }

  lemma RequestTerminated(b: seq<Byte>, max: nat)
    ensures var r := ParseRequest(b, max); r.Ok? ==> Terminated(b, r.pos)
  {
    hide ParseVersion;
    hide TokenEnd;
    hide SpacesEnd;
    hide PathEnd;
    hide ParseHeaders;
    var r := ParseRequest(b, max);
    if r.Ok? {
      var i := LeadingBlank(b).pos;
      TokenStops(b, i, ' ');
      var m := TokenEnd(b, i, ' ').pos;
      SpacesStops(b, m + 1);
      var p := SpacesEnd(b, m + 1).pos;
      PathStops(b, p);
      var q := PathEnd(b, p).pos;
      SpacesStops(b, q + 1);
      var v := SpacesEnd(b, q + 1).pos;
      VersionPaired(b, v);
      var n := Newline(b, v + 8).pos;
      assert PairedReturns(b, 0, n);
      assert LineIn(b, v + 8, v + 8, n);
      HeadersTerminated(b, v + 8, n, 0, max);
    }
  }

  lemma VersionPaired(b: seq<Byte>, i: nat)
    requires i <= |b| && ParseVersion(b, i).Ok?
    ensures forall k :: i <= k < i + 8 ==> b[k] != '\r'
  {
    forall k | i <= k < i + 7
      ensures b[k] == HTTP_1[k - i]
    {
      assert b[i..i + 7][k - i] == b[k];
    }
  }

  lemma ResponseTerminated(b: seq<Byte>, max: nat)
    ensures var r := ParseResponse(b, max); r.Ok? ==> Terminated(b, r.pos)
  {
    hide SpacesEnd;
    hide TextLine;
    hide ParseHeaders;
    hide Newline;
    var r := ParseResponse(b, max);
    if r.Ok? {
      VersionPaired(b, 0);
      SpacesStops(b, 9);
      var s := SpacesEnd(b, 9).pos;
      TextLinePaired(b, s + 3);
      var n := ParseStatusLine(b).pos;
      var p :| LineIn(b, s + 3, p, n);
      assert PairedReturns(b, 0, n);
      HeadersTerminated(b, p, n, 0, max);
    }
  }

  /** The pre-scan, started anywhere up to the two line ends, finds them or an earlier pair. */
  lemma {:induction false} PreScanFinds(b: seq<Byte>, i: nat, seen: nat, p: nat, c: nat)
    requires PairedReturns(b, i, c) && BlankLineAt(b, p, c) && i <= p && seen < 2
    ensures CompleteFrom(b, i, seen).Found? && CompleteFrom(b, i, seen).pos <= c
    decreases p - i
  {
    if i < p {
      if b[i] == '\r' || b[i] == '\n' {
        if seen == 0 {
          PreScanFinds(b, Newline(b, i).pos, 1, p, c);
        }
      } else {
        PreScanFinds(b, i + 1, 0, p, c);
      }
    }
  }

  /** The line end at `i` ends at `c`, when one was seen right before, or two line ends in a row do, and no carriage
      return up to there stands alone. */
  ghost predicate EndsLines(b: seq<Byte>, i: nat, seen: nat, c: nat)
    requires i <= |b|
  {
    && PairedReturns(b, i, c)
    && ((seen == 1 && Newline(b, i) == Found(c)) || exists p: nat :: i <= p && BlankLineAt(b, p, c))
  }

  /** Conversely, what the pre-scan finds are two line ends in a row. */
  lemma {:induction false} PreScanFound(b: seq<Byte>, i: nat, seen: nat)
    requires 0 < i <= |b| && seen < 2 && b[i - 1] != '\r' && CompleteFrom(b, i, seen).Found?
    ensures EndsLines(b, i, seen, CompleteFrom(b, i, seen).pos)
    decreases |b| - i
  {
    var c := CompleteFrom(b, i, seen).pos;
    if b[i] == '\r' || b[i] == '\n' {
      var k := Newline(b, i).pos;
      if seen == 0 {
        PreScanFound(b, k, 1);
        if Newline(b, k) == Found(c) {
          assert BlankLineAt(b, i, c);
        } else {
          var p: nat :| k <= p && BlankLineAt(b, p, c);
          assert i <= p;
        }
      }
    } else {
      PreScanFound(b, i + 1, 0);
      var p: nat :| i + 1 <= p && BlankLineAt(b, p, c);
      assert i <= p;
    }
  }

  /** From a place that is not inside a line end the pre-scan finds something if and only if lines end there so. */
  lemma PreScanFindsExactly(b: seq<Byte>, i: nat, seen: nat)
    requires 0 < i <= |b| && seen < 2 && b[i - 1] != '\r'
    ensures CompleteFrom(b, i, seen).Found? <==> exists c :: EndsLines(b, i, seen, c)
  {
    if CompleteFrom(b, i, seen).Found? {
      PreScanFound(b, i, seen);
    }
    if c :| EndsLines(b, i, seen, c) {
      if p: nat :| i <= p && BlankLineAt(b, p, c) {
        PreScanFinds(b, i, seen, p, c);
      }
    }
  }

  /** Two line ends in a row begin at or after `i` and end at `c`; the first may be the second half of one when it
      stands at `i`. No carriage return in between stands alone. */
  ghost predicate BlankBefore(b: seq<Byte>, i: nat, c: nat) {
    && PairedReturns(b, i, c)
    && exists p: nat :: i <= p < |b| && (p == i || b[p - 1] != '\r') && TwoLineEnds(b, p, c)
  }

  ghost predicate TwoLineEnds(b: seq<Byte>, p: nat, c: nat)
    requires p < |b|
  {
    Newline(b, p).Found? && Newline(b, Newline(b, p).pos) == Found(c)
  }

  ghost predicate LoneReturn(b: seq<Byte>, k: nat) {
    k + 1 < |b| && b[k] == '\r' && b[k + 1] != '\n'
  }

  lemma SameReturns(b: seq<Byte>, i: nat, j: nat, c: nat)
    requires i <= j <= c <= |b| && (forall k :: i <= k < j && b[k] == '\r' ==> k + 1 < j && b[k + 1] == '\n')
    ensures PairedReturns(b, i, c) <==> PairedReturns(b, j, c)
  {
  }

  lemma BlankIsAhead(b: seq<Byte>, i: nat, c: nat)
    requires BlankBefore(b, i, c) || (i <= |b| && (EndsLines(b, i, 0, c) || EndsLines(b, i, 1, c)))
    ensures i < c <= |b|
  {
  }

  lemma AheadLater(b: seq<Byte>, i: nat, j: nat, c: nat)
    requires i < |b| && b[i] != '\r' && b[i] != '\n' && j == i + 1
    ensures EndsLines(b, j, 0, c) <==> BlankBefore(b, i, c)
  {
    hide PairedReturns;
    if EndsLines(b, j, 0, c) {
      BlankIsAhead(b, j, c);
      SameReturns(b, i, j, c);
      var p: nat :| j <= p && BlankLineAt(b, p, c);
      assert TwoLineEnds(b, p, c);
    }
    if BlankBefore(b, i, c) {
      BlankIsAhead(b, i, c);
      SameReturns(b, i, j, c);
      var p: nat :| i <= p < |b| && (p == i || b[p - 1] != '\r') && TwoLineEnds(b, p, c);
      assert BlankLineAt(b, p, c);
    }
  }

  lemma AheadBehind(b: seq<Byte>, i: nat, k: nat, c: nat)
    requires i < |b| && Newline(b, i) == Found(k)
    ensures EndsLines(b, k, 1, c) <==> BlankBefore(b, i, c)
  {
    hide PairedReturns;
    if EndsLines(b, k, 1, c) {
      BlankIsAhead(b, k, c);
      SameReturns(b, i, k, c);
      if Newline(b, k) == Found(c) {
        assert TwoLineEnds(b, i, c);
      } else {
        var p: nat :| k <= p && BlankLineAt(b, p, c);
        assert TwoLineEnds(b, p, c);
      }
    }
    if BlankBefore(b, i, c) {
      var p: nat :| i <= p < |b| && (p == i || b[p - 1] != '\r') && TwoLineEnds(b, p, c);
      BlankIsAhead(b, i, c);
      SameReturns(b, i, k, c);
      if p > i {
        assert BlankLineAt(b, p, c);
      }
    }
  }

  /** From anywhere the pre-scan finds something if and only if two line ends in a row follow so. */
  lemma FindsFrom(b: seq<Byte>, i: nat)
    requires i <= |b|
    ensures CompleteFrom(b, i, 0).Found? <==> exists c :: BlankBefore(b, i, c)
  {
    hide BlankBefore;
    hide EndsLines;
    if i == |b| {
      NoneAtEnd(b);
    } else if b[i] != '\r' && b[i] != '\n' {
      var j := i + 1;
      PreScanFindsExactly(b, j, 0);
      forall c ensures EndsLines(b, j, 0, c) <==> BlankBefore(b, i, c) { AheadLater(b, i, j, c); }
    } else if Newline(b, i).Found? {
      var k := Newline(b, i).pos;
      PreScanFindsExactly(b, k, 1);
      forall c ensures EndsLines(b, k, 1, c) <==> BlankBefore(b, i, c) { AheadBehind(b, i, k, c); }
    } else {
      NoneAtReturn(b, i);
    }
  }

  lemma NoneAtEnd(b: seq<Byte>)
    ensures forall c :: !BlankBefore(b, |b|, c)
  {
  }

  lemma NoneAtReturn(b: seq<Byte>, i: nat)
    requires i < |b| && b[i] == '\r' && !Newline(b, i).Found?
    ensures forall c :: !BlankBefore(b, i, c)
  {
  }

  lemma {:induction false} StopsAtReturn(b: seq<Byte>, i: nat, seen: nat)
    requires i <= |b| && seen < 2
    ensures CompleteFrom(b, i, seen) == Bad ==> exists k: nat :: i <= k && LoneReturn(b, k)
    ensures CompleteFrom(b, i, seen) == More ==> forall k: nat :: i <= k ==> !LoneReturn(b, k)
    decreases |b| - i
  {
    if i < |b| {
      if b[i] == '\r' || b[i] == '\n' {
        if Newline(b, i).Found? && seen == 0 {
          StopsAtReturn(b, Newline(b, i).pos, 1);
        } else if Newline(b, i) == Bad {
          assert LoneReturn(b, i);
        }
      } else {
        StopsAtReturn(b, i + 1, 0);
      }
    }
  }

  /** What an entry point does with the length of the last call: from three bytes before it on, it parses behind a
      blank line only, refuses a carriage return that stands alone, and waits otherwise. */
  lemma PreScanDecides<T>(b: seq<Byte>, lastLen: nat, plain: Parse<T>)
    requires lastLen <= |b|
    ensures var i := if lastLen < 3 then 0 else lastLen - 3;
            WithPreScan(b, lastLen, plain) ==
            if lastLen == 0 || exists c :: BlankBefore(b, i, c) then plain
            else if exists k: nat :: i <= k && LoneReturn(b, k) then Err
            else Partial
  {
    hide CompleteFrom;
    hide BlankBefore;
    hide LoneReturn;
    var i := if lastLen < 3 then 0 else lastLen - 3;
    FindsFrom(b, i);
    StopsAtReturn(b, i, 0);
  }

  /** It reaches back far enough: the two line ends cover at most four bytes, the last of them new. */
  lemma PreScanPasses(b: seq<Byte>, lastLen: nat, c: nat)
    requires 0 < lastLen < c <= |b| && Terminated(b, c)
    ensures IsComplete(b, lastLen).Found?
  {
    var p :| BlankLineAt(b, p, c);
    PreScanFinds(b, if lastLen < 3 then 0 else lastLen - 3, 0, p, c);
  }

  /** `lastLen` bytes were judged partial before; then the pre-scan changes neither what is accepted nor how. */
  lemma RequestPreScanNeutral(b: seq<Byte>, max: nat, lastLen: nat)
    requires 0 < lastLen <= |b| && ParseRequest(b[..lastLen], max) == Partial
    ensures var plain := ParseRequest(b, max);
            var r := WithPreScan(b, lastLen, plain);
            (r.Ok? <==> plain.Ok?) && (plain.Ok? ==> r == plain)
  {
    hide ParseRequest;
    var plain := ParseRequest(b, max);
    if plain.Ok? {
      if plain.pos <= lastLen {
        RequestLocal(b[..lastLen], b, lastLen, max);
        assert false;
      }
      RequestTerminated(b, max);
      PreScanPasses(b, lastLen, plain.pos);
    }
  }

  lemma ResponsePreScanNeutral(b: seq<Byte>, max: nat, lastLen: nat)
    requires 0 < lastLen <= |b| && ParseResponse(b[..lastLen], max) == Partial
    ensures var plain := ParseResponse(b, max);
            var r := WithPreScan(b, lastLen, plain);
            (r.Ok? <==> plain.Ok?) && (plain.Ok? ==> r == plain)
  {
    hide ParseResponse;
    var plain := ParseResponse(b, max);
    if plain.Ok? {
      if plain.pos <= lastLen {
        ResponseLocal(b[..lastLen], b, lastLen, max);
        assert false;
      }
      ResponseTerminated(b, max);
      PreScanPasses(b, lastLen, plain.pos);
    }
  }

  lemma {:induction false} CompleteLocal(a: seq<Byte>, b: seq<Byte>, n: nat, i: nat, seen: nat)
    requires Agree(a, b, n) && i <= n && seen < 2
    ensures n == |b| && CompleteFrom(b, i, seen) == Bad ==> CompleteFrom(a, i, seen) == Bad
    decreases n - i
  {
    if i < n {
      if b[i] == '\r' || b[i] == '\n' {
        NewlineLocal(a, b, n, i);
        if Newline(b, i).Found? && Newline(b, i).pos <= n && seen == 0 {
          CompleteLocal(a, b, n, Newline(b, i).pos, 1);
        }
      } else {
        CompleteLocal(a, b, n, i + 1, 0);
      }
    }
  }

  /** When the pre-scan refuses a request that was partial before, no continuation would have been accepted. */
  lemma PreScanRefusalIsFinal(b: seq<Byte>, more: seq<Byte>, max: nat, lastLen: nat)
    requires 0 < lastLen <= |b| && ParseRequest(b[..lastLen], max) == Partial
    requires IsComplete(b, lastLen) == Bad
    ensures !ParseRequest(b + more, max).Ok?
  {
    hide ParseRequest;
    CompleteLocal(b + more, b, |b|, if lastLen < 3 then 0 else lastLen - 3, 0);
    assert (b + more)[..lastLen] == b[..lastLen];
    RequestPreScanNeutral(b + more, max, lastLen);
  }

  /** The same for a response. */
  lemma ResponsePreScanRefusalIsFinal(b: seq<Byte>, more: seq<Byte>, max: nat, lastLen: nat)
    requires 0 < lastLen <= |b| && ParseResponse(b[..lastLen], max) == Partial
    requires IsComplete(b, lastLen) == Bad
    ensures !ParseResponse(b + more, max).Ok?
  {
    hide ParseResponse;
    CompleteLocal(b + more, b, |b|, if lastLen < 3 then 0 else lastLen - 3, 0);
    assert (b + more)[..lastLen] == b[..lastLen];
    ResponsePreScanNeutral(b + more, max, lastLen);
  }

  /** Headers alone lack the start line whose line end the pre-scan counts on: on an empty header block it can
      wait for bytes that never come. It is neutral unless `b` begins with CR LF and neither a line end follows at
      once nor, later, two in a row, before any carriage return that stands alone. */
  lemma HeadersPreScan(b: seq<Byte>, max: nat, lastLen: nat)
    requires 0 < lastLen <= |b| && ParseHeaders(b[..lastLen], 0, 0, max) == Partial
    ensures var plain := ParseHeaders(b, 0, 0, max);
            var r := WithPreScan(b, lastLen, plain);
            && ((r.Ok? <==> plain.Ok?) <==> !(['\r', '\n'] <= b && !exists c :: EndsLines(b, 2, 1, c)))
            && (r.Ok? ==> r == plain)
  {
    var plain := ParseHeaders(b, 0, 0, max);
    if plain.Ok? {
      hide ParseHeaders;
      if plain.pos <= lastLen {
        HeadersLocal(b[..lastLen], b, lastLen, 0, 0, max);
        assert false;
      }
      if b[0] == '\r' || b[0] == '\n' {
        EmptyBlock(b, max, lastLen);
        PreScanFindsExactly(b, 2, 1);
      } else {
        BlockTerminated(b, max);
        PreScanPasses(b, lastLen, plain.pos);
      }
    }
  }

  lemma BlockTerminated(b: seq<Byte>, max: nat)
    requires b != [] && b[0] != '\r' && b[0] != '\n'
    ensures var r := ParseHeaders(b, 0, 0, max); r.Ok? ==> Terminated(b, r.pos)
  {
    hide ParseHeader;
    if ParseHeaders(b, 0, 0, max).Ok? {
      HeaderPaired(b, 0, true);
      var h := ParseHeader(b, 0, true);
      var q :| 0 < q && LineIn(b, 0, q, h.pos);
      HeadersTerminated(b, q, h.pos, 1, max);
    }
  }

  lemma EmptyBlock(b: seq<Byte>, max: nat, lastLen: nat)
    requires b != [] && (b[0] == '\r' || b[0] == '\n')
    requires ParseHeaders(b, 0, 0, max).Ok? && 0 < lastLen < ParseHeaders(b, 0, 0, max).pos
    ensures lastLen == 1 && ['\r', '\n'] <= b && b[1] == '\n' && IsComplete(b, lastLen) == CompleteFrom(b, 2, 1)
  {
  }

  /** The failing case: an accepted empty header block that the pre-scan reports as partial. */
  lemma HeadersPreScanFails(max: nat)
    ensures ParseHeaders(['\r'], 0, 0, max) == Partial
    ensures ParseHeaders(['\r', '\n'], 0, 0, max) == Ok([], 2)
    ensures WithPreScan(['\r', '\n'], 1, ParseHeaders(['\r', '\n'], 0, 0, max)) == Partial
  {
    assert CompleteFrom(['\r', '\n'], 2, 1) == More;
  }
}
