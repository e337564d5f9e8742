/** Which tokens count: a token under an `#if 0` does not, and what is under one is said of the tokens' directives. */
module TokenNesting {
  import opened TokenSpec
  import opened TokenStreams
  import opened TokenGrammar

  /** The word behind the `#` of the directive at `i` starts at `p`. */
  ghost predicate WordAt(z: string, i: nat, p: nat) {
    i < p <= |z| && (forall k :: i < k < p ==> z[k] in " \t") && !Next(z, p, " \t")
  }

  /** The token is a directive whose word starts with these letters. */
  ghost predicate Says(z: string, t: Token, word: string) {
    t.kind == Preprocessor && exists p: nat :: WordAt(z, t.start, p) && word <= z[p..]
  }

  /** The token is an `#if 0`. */
  ghost predicate IsZeroIf(z: string, ifZero: nat -> bool, t: Token) {
    t.kind == Preprocessor && exists p: nat :: WordAt(z, t.start, p) && ifZero(p)
  }

  /** What a token adds to the number of open `#if`. */
  ghost function Nests(z: string, ifZero: nat -> bool, t: Token): int {
    if IsZeroIf(z, ifZero, t) || Says(z, t, "if") then 1 else if Says(z, t, "endif") then -1 else 0
  }

  ghost function Nesting(z: string, ifZero: nat -> bool, ts: seq<Token>): int {
    if ts == [] then 0 else Nesting(z, ifZero, ts[..|ts| - 1]) + Nests(z, ifZero, ts[|ts| - 1])
  }

  /** What the tokens behind `j` and before `k` add. */
  ghost function Inside(z: string, ifZero: nat -> bool, ts: seq<Token>, j: nat, k: nat): int
    requires j < k <= |ts|
  {
    Nesting(z, ifZero, ts[j + 1..k])
  }

  /** The `#if 0` at `j` has no matching `#endif` among the tokens up to `k`. */
  ghost predicate OpenAt(z: string, ifZero: nat -> bool, ts: seq<Token>, j: nat, k: nat) {
    && j < k <= |ts| && IsZeroIf(z, ifZero, ts[j])
    && forall m :: j < m <= k ==> 1 + Inside(z, ifZero, ts, j, m) > 0
  }

  /** Some `#if 0` is open before token `k`. */
  ghost predicate Hidden(z: string, ifZero: nat -> bool, ts: seq<Token>, k: nat) {
    exists j: nat :: OpenAt(z, ifZero, ts, j, k)
  }

  ghost predicate Visible(z: string, ifZero: nat -> bool, ts: seq<Token>, k: nat)
    requires k < |ts|
  {
    && ts[k].kind in {Id, Preprocessor, Number, String, Other}
    && !IsZeroIf(z, ifZero, ts[k]) && !Hidden(z, ifZero, ts, k)
  }

  /** The tokenizer's errors in these tokens. */
  function Mistakes(z: string, ts: seq<Token>): nat {
    if ts == [] then 0 else CutAt(z, ts[0].start).errors + Mistakes(z, ts[1..])
  }

  // The tokenizer's count of open blocks.

  lemma WordIsName(z: string, t: Token, p: nat)
    requires t.start < |z|
    ensures WordAt(z, t.start, p) <==> p == DirectiveName(z, t.start)
  {
    hide Skip;
    forall c: char
      ensures TokenSpec.IsBlank(c) <==> c in " \t"
    {
    }
    var n := DirectiveName(z, t.start);
  }

  lemma SaysPrefix(z: string, t: Token, word: string)
    requires t.start < |z|
    ensures Says(z, t, word) <==> t.kind == Preprocessor && HasPrefix(z, DirectiveName(z, t.start), word)
  {
    var p := DirectiveName(z, t.start);
    WordIsName(z, t, p);
    if p + |word| <= |z| {
      assert z[p..p + |word|] == z[p..][..|word|];
    }
    if Says(z, t, word) {
      var p': nat :| WordAt(z, t.start, p') && word <= z[p'..];
      WordIsName(z, t, p');
    }
  }

  lemma ZeroIfName(z: string, ifZero: nat -> bool, t: Token)
    requires t.start < |z|
    ensures IsZeroIf(z, ifZero, t) <==> t.kind == Preprocessor && ifZero(DirectiveName(z, t.start))
  {
    WordIsName(z, t, DirectiveName(z, t.start));
    if IsZeroIf(z, ifZero, t) {
      var p: nat :| WordAt(z, t.start, p) && ifZero(p);
      WordIsName(z, t, p);
    }
  }

  lemma StepNests(z: string, ifZero: nat -> bool, t: Token, depth: nat)
    requires t.start < |z|
    ensures ZeroStep(z, ifZero, t, depth) ==
            if depth > 0 then depth + Nests(z, ifZero, t) else if IsZeroIf(z, ifZero, t) then 1 else 0
  {
    hide IsZeroIf;
    hide Says;
    hide HasPrefix;
    hide DirectiveName;
    ZeroIfName(z, ifZero, t);
    SaysPrefix(z, t, "if");
    SaysPrefix(z, t, "endif");
  }

  lemma {:induction false} DepthOfMore(z: string, ifZero: nat -> bool, ts: seq<Token>, depth: nat)
    requires ts != []
    ensures ZeroDepth(z, ifZero, ts, depth) ==
            ZeroStep(z, ifZero, ts[|ts| - 1], ZeroDepth(z, ifZero, ts[..|ts| - 1], depth))
    decreases |ts|
  {
    hide ZeroStep;
    if |ts| > 1 {
      DepthOfMore(z, ifZero, ts[1..], ZeroStep(z, ifZero, ts[0], depth));
      assert ts[1..][..|ts[1..]| - 1] == ts[..|ts| - 1][1..];
    }
  }

  /** The tokens start in the text. */
  ghost predicate InText(z: string, ts: seq<Token>) {
    forall t :: t in ts ==> t.start < |z|
  }

  lemma DepthStep(z: string, ifZero: nat -> bool, ts: seq<Token>, k: nat)
    requires InText(z, ts) && k < |ts|
    ensures ZeroDepth(z, ifZero, ts[..k + 1], 0) == ZeroStep(z, ifZero, ts[k], ZeroDepth(z, ifZero, ts[..k], 0))
    ensures ts[k].start < |z|
  {
    assert ts[..k + 1][..k] == ts[..k] && ts[..k + 1][k] == ts[k] && ts[k] in ts;
    DepthOfMore(z, ifZero, ts[..k + 1], 0);
  }

  lemma NestingStep(z: string, ifZero: nat -> bool, ts: seq<Token>, j: nat, k: nat)
    requires j < k < |ts|
    ensures Inside(z, ifZero, ts, j, k + 1) == Inside(z, ifZero, ts, j, k) + Nests(z, ifZero, ts[k])
  {
    var s := ts[j + 1..k + 1];
    assert s[..|s| - 1] == ts[j + 1..k] && s[|s| - 1] == ts[k];
  }

  /** While an `#if 0` is open the count is at least its nesting. */
  lemma {:induction false} OpenCounts(z: string, ifZero: nat -> bool, ts: seq<Token>, j: nat, k: nat)
    requires InText(z, ts) && OpenAt(z, ifZero, ts, j, k)
    ensures ZeroDepth(z, ifZero, ts[..k], 0) ==
            ZeroDepth(z, ifZero, ts[..j], 0) + 1 + Inside(z, ifZero, ts, j, k)
    decreases k
  {
    hide ZeroStep;
    hide ZeroDepth;
    hide Nests;
    hide IsZeroIf;
    DepthStep(z, ifZero, ts, k - 1);
    StepNests(z, ifZero, ts[k - 1], ZeroDepth(z, ifZero, ts[..k - 1], 0));
    if j < k - 1 {
      NestingStep(z, ifZero, ts, j, k - 1);
      hide Inside;
      assert 1 + Inside(z, ifZero, ts, j, k - 1) > 0;
      OpenCounts(z, ifZero, ts, j, k - 1);
    } else {
      assert ts[j + 1..k] == [];
      ZeroIfNests(z, ifZero, ts[j]);
    }
  }

  lemma ZeroIfNests(z: string, ifZero: nat -> bool, t: Token)
    requires IsZeroIf(z, ifZero, t)
    ensures Nests(z, ifZero, t) == 1
  {
  }

  /** When the count is not zero some `#if 0` is open. */
  lemma {:induction false} CountsOpen(z: string, ifZero: nat -> bool, ts: seq<Token>, k: nat) returns (j: nat)
    requires InText(z, ts) && k <= |ts| && ZeroDepth(z, ifZero, ts[..k], 0) > 0
    ensures OpenAt(z, ifZero, ts, j, k)
    ensures ZeroDepth(z, ifZero, ts[..k], 0) == 1 + Inside(z, ifZero, ts, j, k)
    decreases k
  {
    if k == 0 {
      assert false;
    } else {
      hide ZeroStep;
      hide Nests;
      hide IsZeroIf;
      DepthStep(z, ifZero, ts, k - 1);
      hide ZeroDepth;
      var before := ZeroDepth(z, ifZero, ts[..k - 1], 0);
      StepNests(z, ifZero, ts[k - 1], before);
      if before == 0 {
        j := k - 1;
        assert Inside(z, ifZero, ts, j, k) == 0;
      } else {
        j := CountsOpen(z, ifZero, ts, k - 1);
        NestingStep(z, ifZero, ts, j, k - 1);
        hide Inside;
      }
    }
  }

  lemma HiddenExactly(z: string, ifZero: nat -> bool, ts: seq<Token>, k: nat)
    requires InText(z, ts) && k <= |ts|
    ensures Hidden(z, ifZero, ts, k) <==> ZeroDepth(z, ifZero, ts[..k], 0) > 0
  {
    hide ZeroDepth;
    hide Inside;
    if j: nat :| OpenAt(z, ifZero, ts, j, k) {
      OpenCounts(z, ifZero, ts, j, k);
    }
    if ZeroDepth(z, ifZero, ts[..k], 0) > 0 {
      var j := CountsOpen(z, ifZero, ts, k);
    }
  }

  lemma VisibleExactly(z: string, ifZero: nat -> bool, ts: seq<Token>, k: nat)
    requires InText(z, ts) && k < |ts| && ts[k].kind !in {Eof, Braces, Error}
    ensures Visible(z, ifZero, ts, k) <==> ShowsAt(z, ifZero, ts, 0, k)
  {
    hide ZeroDepth;
    hide Hidden;
    hide IsZeroIf;
    HiddenExactly(z, ifZero, ts, k);
    assert ts[k] in ts;
    ZeroIfName(z, ifZero, ts[k]);
  }

  /** The token behind the `#endif` that matches an `#if 0` is not under it: nothing is open there that was not open
      before. */
  lemma EndifEnds(z: string, ifZero: nat -> bool, ts: seq<Token>, j: nat, e: nat)
    requires InText(z, ts) && e < |ts| && OpenAt(z, ifZero, ts, j, e)
    requires 1 + Inside(z, ifZero, ts, j, e + 1) == 0
    ensures Says(z, ts[e], "endif")
    ensures Hidden(z, ifZero, ts, e + 1) <==> Hidden(z, ifZero, ts, j)
  {
    hide ZeroStep;
    hide ZeroDepth;
    hide Says;
    hide Hidden;
    NestingStep(z, ifZero, ts, j, e);
    hide Inside;
    assert 1 + Inside(z, ifZero, ts, j, e) > 0;
    OpenCounts(z, ifZero, ts, j, e);
    DepthStep(z, ifZero, ts, e);
    StepNests(z, ifZero, ts[e], ZeroDepth(z, ifZero, ts[..e], 0));
    HiddenExactly(z, ifZero, ts, e + 1);
    HiddenExactly(z, ifZero, ts, j);
  }

  // The next token that counts.

  lemma {:induction false} TokensInText(z: string, i: nat)
    ensures InText(z, Tokens(z, i))
    ensures forall t :: t in Tokens(z, i) ==> t.kind !in {Eof, Braces, Error}
    decreases |z| - i
  {
    hide CutAt;
    if i < |z| {
      CutAdvances(z, i);
      TokensInText(z, CutAt(z, i).end);
    }
  }

  /** The first token that shows, with the errors up to it. */
  lemma {:induction false} ErrorsOnTheWay(z: string, ifZero: nat -> bool, i: nat, depth: nat, n: nat)
    requires var ts := Tokens(z, i);
             && n <= |ts| && (forall k :: 0 <= k < n ==> !ShowsAt(z, ifZero, ts, depth, k))
             && (n < |ts| ==> ShowsAt(z, ifZero, ts, depth, n))
    ensures var ts := Tokens(z, i);
            Nonspace(z, ifZero, i, depth).1 ==
            if n < |ts| then Mistakes(z, ts[..n + 1])
            else Mistakes(z, ts) + if ZeroDepth(z, ifZero, ts, depth) > 0 then 1 else 0
    decreases |z| - i
  {
    hide CutAt;
    hide Shows;
    hide ZeroStep;
    if i < |z| {
      CutAdvances(z, i);
      var c := CutAt(z, i);
      var ts, rest := Tokens(z, i), Tokens(z, c.end);
      var depth' := ZeroStep(z, ifZero, ts[0], depth);
      assert ts[1..] == rest;
      if n == 0 {
        assert ts[..1] == [ts[0]] && ts[..0] == [];
        assert ShowsAt(z, ifZero, ts, depth, 0);
      } else {
        assert !ShowsAt(z, ifZero, ts, depth, 0) && ts[..0] == [];
        forall k | 0 <= k < |rest|
          ensures ShowsAt(z, ifZero, rest, depth', k) == ShowsAt(z, ifZero, ts, depth, k + 1)
        {
          assert ts[..k + 1][1..] == rest[..k];
        }
        ErrorsOnTheWay(z, ifZero, c.end, depth', n - 1);
        if n < |ts| {
          assert ts[..n + 1][1..] == rest[..n];
        }
      }
    }
  }

  /** The next token that counts is the first visible one, and the errors are those of the tokens up to it, plus one
      when the text ends under an `#if 0`. */
  lemma NextIsFirstVisible(z: string, ifZero: nat -> bool, i: nat) returns (n: nat)
    ensures var ts := Tokens(z, i);
            var (t, errors) := Nonspace(z, ifZero, i, 0);
            && n <= |ts|
            && (forall k :: 0 <= k < n ==> !Visible(z, ifZero, ts, k))
            && (if n < |ts| then t == ts[n] && Visible(z, ifZero, ts, n) else t.kind == Eof)
            && errors == if n < |ts| then Mistakes(z, ts[..n + 1])
                         else Mistakes(z, ts) + if Hidden(z, ifZero, ts, n) then 1 else 0
  {
    hide Nonspace;
    hide ShowsAt;
    hide Visible;
    hide Hidden;
    var ts := Tokens(z, i);
    hide Tokens;
    n := NonspaceIsFirst(z, ifZero, i, 0);
    TokensInText(z, i);
    forall k | 0 <= k < |ts|
      ensures Visible(z, ifZero, ts, k) == ShowsAt(z, ifZero, ts, 0, k)
    {
      assert ts[k] in ts;
      VisibleExactly(z, ifZero, ts, k);
    }
    ErrorsOnTheWay(z, ifZero, i, 0, n);
    HiddenExactly(z, ifZero, ts, |ts|);
    assert ts[..|ts|] == ts;
  }

  // Big tokens.

  /** The errors on the way to the first `n` counted tokens, or to the end of the text. */
  function ErrorsTo(z: string, ifZero: nat -> bool, i: nat, n: nat): nat
    decreases n
  {
    if n == 0 then 0
    else
      var (t, errors) := Nonspace(z, ifZero, i, 0);
      errors + if t.kind == Eof then 0 else ErrorsTo(z, ifZero, t.end, n - 1)
  }

  lemma StillOpen(z: string, ifZero: nat -> bool, i: nat, depth: nat, n: nat, m: nat)
    requires Closes(z, ifZero, i, depth, n) && m < n
    ensures depth + Depth(z, Counted(z, ifZero, i, n)[..m]) > 0
  {
  }

  lemma {:induction false} ClosedErrors(z: string, ifZero: nat -> bool, i: nat, depth: nat, n: nat)
    requires depth > 0 && Closes(z, ifZero, i, depth, n)
    ensures Balance(z, ifZero, i, depth).1
    ensures Balance(z, ifZero, i, depth).0 == Counted(z, ifZero, i, n)[n - 1].end
    ensures Balance(z, ifZero, i, depth).2 == ErrorsTo(z, ifZero, i, n)
    decreases n
  {
    hide Nonspace;
    var t := Nonspace(z, ifZero, i, 0).0;
    var ts, rest := Counted(z, ifZero, i, n), Counted(z, ifZero, t.end, n - 1);
    assert ts == [t] + rest && ts[1..] == rest;
    var depth' := if IsBrace(z, t, '{') then depth + 1 else if IsBrace(z, t, '}') then depth - 1 else depth;
    if depth' == 0 {
      assert ts[..1] == [t] && [t][1..] == [];
      if n > 1 {
        StillOpen(z, ifZero, i, depth, n, 1);
        assert false;
      }
      assert ErrorsTo(z, ifZero, t.end, 0) == 0;
    } else {
      forall m | 0 <= m < n - 1
        ensures depth' + Depth(z, rest[..m]) > 0
      {
        assert ts[..m + 1][1..] == rest[..m];
      }
      ClosedErrors(z, ifZero, t.end, depth', n - 1);
    }
  }

  /** Braces that balance have the errors on the way to their last token; others have one more than those on the way to
      the end of the text. */
  lemma {:induction false} OpenErrors(z: string, ifZero: nat -> bool, i: nat, depth: nat) returns (n: nat)
    requires depth > 0 && !Balance(z, ifZero, i, depth).1
    ensures |Counted(z, ifZero, i, n)| < n
    ensures Balance(z, ifZero, i, depth).2 == ErrorsTo(z, ifZero, i, n) + 1
    decreases |z| - i
  {
    hide Nonspace;
    var t := Nonspace(z, ifZero, i, 0).0;
    n := 1;
    if t.kind != Eof {
      var depth' := if IsBrace(z, t, '{') then depth + 1 else if IsBrace(z, t, '}') then depth - 1 else depth;
      var k := OpenErrors(z, ifZero, t.end, depth');
      n := k + 1;
    }
  }

  /** A big token is the next token that counts; or, from an opening brace on, all up to the token that balances it. Its
      errors are those on the way, and one more if nothing balances the brace. */
  lemma BigExactly(z: string, ifZero: nat -> bool, i: nat)
    ensures var (open, before) := Nonspace(z, ifZero, i, 0);
            var (t, errors) := Big(z, ifZero, i);
            if !IsBrace(z, open, '{') then (t, errors) == (open, before)
            else if exists n: nat :: Closes(z, ifZero, open.end, 1, n) then
              exists n: nat ::
                && Closes(z, ifZero, open.end, 1, n)
                && t == Token(Braces, open.start, Counted(z, ifZero, open.end, n)[n - 1].end)
                && errors == before + ErrorsTo(z, ifZero, open.end, n)
            else
              t.kind == Error &&
              exists n: nat ::
                |Counted(z, ifZero, open.end, n)| < n && errors == before + ErrorsTo(z, ifZero, open.end, n) + 1
  {
    hide Nonspace;
    hide Closes;
    hide Counted;
    hide ErrorsTo;
    var open := Nonspace(z, ifZero, i, 0).0;
    if IsBrace(z, open, '{') {
      if n: nat :| Closes(z, ifZero, open.end, 1, n) {
        ClosedErrors(z, ifZero, open.end, 1, n);
        ClosesSome(z, ifZero, open.end, n);
      } else {
        if Balance(z, ifZero, open.end, 1).1 {
          var k := BalanceCloses(z, ifZero, open.end, 1);
        }
        var n := OpenErrors(z, ifZero, open.end, 1);
      }
    }
  }

  lemma ClosesSome(z: string, ifZero: nat -> bool, i: nat, n: nat)
    requires Closes(z, ifZero, i, 1, n)
    ensures 0 < n == |Counted(z, ifZero, i, n)|
  {
  }

  /** Where the search for token `k` of a list begins. */
  function Begin(ts: seq<Token>, i: nat, k: nat): nat
    requires k <= |ts|
  {
    if k == 0 then i else ts[k - 1].end
  }

  /** The errors of the first `k` tokens of a list. */
  function ErrorsOf(z: string, ifZero: nat -> bool, ts: seq<Token>, i: nat, k: nat): nat
    requires k <= |ts|
    decreases k
  {
    if k == 0 then 0 else ErrorsOf(z, ifZero, ts, i, k - 1) + Big(z, ifZero, Begin(ts, i, k - 1)).1
  }

  lemma {:induction false} ErrorsOfMore(z: string, ifZero: nat -> bool, ts: seq<Token>, rest: seq<Token>, i: nat,
                                        k: nat)
    requires ts != [] && rest == ts[1..] && k <= |rest|
    ensures ErrorsOf(z, ifZero, ts, i, k + 1) ==
            Big(z, ifZero, i).1 + ErrorsOf(z, ifZero, rest, ts[0].end, k)
    decreases k
  {
    hide Big;
    if k > 0 {
      ErrorsOfMore(z, ifZero, ts, rest, i, k - 1);
      assert Begin(ts, i, k) == Begin(rest, ts[0].end, k - 1);
    } else {
      assert ErrorsOf(z, ifZero, ts, i, 0) == 0;
    }
  }

  /** Each token of the list is the one found behind the one before. */
  ghost predicate AreNext(z: string, ifZero: nat -> bool, i: nat, ts: seq<Token>) {
    forall k :: 0 <= k < |ts| ==> ts[k] == Big(z, ifZero, Begin(ts, i, k)).0
  }

  /** The text ends behind the list, or the last token is its end. */
  predicate ReachesEnd(z: string, i: nat, ts: seq<Token>) {
    At(z, Begin(ts, i, |ts|)) == '\0' || (ts != [] && ts[|ts| - 1].kind == Eof)
  }

  lemma FirstThenNext(z: string, ifZero: nat -> bool, i: nat, ts: seq<Token>)
    requires ts != [] && ts[0] == Big(z, ifZero, i).0 && AreNext(z, ifZero, ts[0].end, ts[1..])
    ensures AreNext(z, ifZero, i, ts)
  {
    hide Big;
    var rest := ts[1..];
    forall k | 0 <= k < |ts|
      ensures ts[k] == Big(z, ifZero, Begin(ts, i, k)).0
    {
      if k > 0 {
        assert rest[k - 1] == Big(z, ifZero, Begin(rest, ts[0].end, k - 1)).0;
      }
    }
  }

  lemma StillReachesEnd(z: string, i: nat, ts: seq<Token>)
    requires ts != [] && ReachesEnd(z, ts[0].end, ts[1..])
    ensures ReachesEnd(z, i, ts)
  {
    hide At;
  }

  lemma BigTokensStep(z: string, ifZero: nat -> bool, i: nat)
    ensures At(z, i) == '\0' ==> BigTokens(z, ifZero, i) == ([], 0)
    ensures var (t, errors) := Big(z, ifZero, i);
            At(z, i) != '\0' ==>
              && i < |z|
              && (t.kind == Eof ==> BigTokens(z, ifZero, i) == ([t], errors))
              && (t.kind != Eof ==>
                    var (ts, more) := BigTokens(z, ifZero, t.end);
                    BigTokens(z, ifZero, i) == ([t] + ts, errors + more))
  {
    hide Big;
  }

  /** The list of big tokens goes on to the end of the text, each the one found behind the one before, and counts their
      errors. */
  lemma {:induction false} BigTokensGoOn(z: string, ifZero: nat -> bool, i: nat)
    ensures var (ts, errors) := BigTokens(z, ifZero, i);
            AreNext(z, ifZero, i, ts) && ReachesEnd(z, i, ts) && errors == ErrorsOf(z, ifZero, ts, i, |ts|)
    decreases |z| - i
  {
    BigTokensStep(z, ifZero, i);
    var (t, before) := Big(z, ifZero, i);
    var (ts, errors) := BigTokens(z, ifZero, i);
    if At(z, i) != '\0' {
      if t.kind == Eof {
        EofEnds(z, ifZero, i, t);
      }
      hide *;
      assert ts != [] && ts[0] == t;
      if t.kind == Eof {
        assert ts[1..] == [];
        ErrorsOfMore(z, ifZero, ts, [], i, 0);
      } else {
        BigTokensGoOn(z, ifZero, t.end);
        assert ts[1..] == BigTokens(z, ifZero, t.end).0;
        StillReachesEnd(z, i, ts);
        ErrorsOfMore(z, ifZero, ts, ts[1..], i, |ts[1..]|);
      }
      FirstThenNext(z, ifZero, i, ts);
    }
  }

  lemma EofEnds(z: string, ifZero: nat -> bool, i: nat, t: Token)
    requires t.kind == Eof
    ensures ReachesEnd(z, i, [t]) && AreNext(z, ifZero, t.end, []) && ErrorsOf(z, ifZero, [], t.end, 0) == 0
  {
  }
}
