/** Token streams: nothing of the text is lost, and what is skipped or gathered on the way to a big token. */
module TokenStreams {
  import opened TokenSpec

  /** Cutting always gets on, and stays in the text unless a directive's last backslash takes the NUL with it. */
  lemma CutAdvances(z: string, i: nat)
    requires i < |z|
    ensures var c := CutAt(z, i);
            && c.kind != Eof && c.kind != Braces && c.kind != Error
            && i < c.end <= |z| + 1
            && (c.end > |z| ==> StartsDirective(z, i) && c.end == DirectiveEnd(z, i + 1) && z[|z| - 1] == '\\')
  {
    if z[i] == '#' && StartsDirective(z, i) {
      DirectiveOverruns(z, i + 1);
    }
  }

  lemma {:induction false} DirectiveOverruns(z: string, i: nat)
    requires i <= |z|
    ensures DirectiveEnd(z, i) > |z| ==> i < |z| && z[|z| - 1] == '\\'
    decreases |z| - i
  {
    if i < |z| && z[i] != '\n' {
      if z[i] == '\\' {
        if i + 2 <= |z| {
          DirectiveOverruns(z, i + 2);
        }
      } else {
        DirectiveOverruns(z, i + 1);
      }
    }
  }

  /** No directive ends in a backslash at the end of the text. */
  ghost predicate DirectivesEnd(z: string) {
    forall i: nat :: StartsDirective(z, i) ==> DirectiveEnd(z, i + 1) <= |z|
  }

  function Tokens(z: string, i: nat): (ts: seq<Token>)
    decreases |z| - i
  {
    if i >= |z| then []
    else
      CutAdvances(z, i);
      var c := CutAt(z, i);
      [Token(c.kind, i, c.end)] + Tokens(z, c.end)
  }

  /** The texts of tokens, one after another. */
  function Texts(z: string, ts: seq<Token>): string
    requires forall t :: t in ts ==> t.start <= t.end <= |z|
  {
    if ts == [] then [] else z[ts[0].start..ts[0].end] + Texts(z, ts[1..])
  }

  /** Tokenizing loses nothing: the texts of the tokens are the text. */
  lemma {:induction false} Lossless(z: string, i: nat)
    requires DirectivesEnd(z) && i <= |z|
    ensures forall t :: t in Tokens(z, i) ==> i <= t.start < t.end <= |z|
    ensures Texts(z, Tokens(z, i)) == z[i..]
    decreases |z| - i
  {
    if i < |z| {
      hide CutAt;
      CutAdvances(z, i);
      var c := CutAt(z, i);
      Lossless(z, c.end);
      assert z[i..] == z[i..c.end] + z[c.end..];
    }
  }

  /** The tokens stay within the text exactly when every directive that is cut ends in it. */
  lemma {:induction false} OverrunOnlyAtDirective(z: string, i: nat)
    requires i <= |z|
    ensures (forall t :: t in Tokens(z, i) ==> t.end <= |z|) <==>
            (forall t :: t in Tokens(z, i) && t.kind == Preprocessor ==> DirectiveEnd(z, t.start + 1) <= |z|)
    decreases |z| - i
  {
    if i < |z| {
      CutAdvances(z, i);
      var c := CutAt(z, i);
      if c.end <= |z| {
        OverrunOnlyAtDirective(z, c.end);
      }
    }
  }

  lemma {:induction false} NewlinesAdd(z: string, i: nat, j: nat, k: nat)
    requires i <= j <= k
    ensures Newlines(z, i, k) == Newlines(z, i, j) + Newlines(z, j, k)
    decreases j - i
  {
    if i < j {
      NewlinesAdd(z, i + 1, j, k);
    }
  }

  // Tokens that are not white space, comments, or text under `#if 0`.

  /** The directive's first character after `#` and blanks. */
  function DirectiveName(z: string, i: nat): nat {
    Skip(z, i + 1, IsBlank)
  }

  predicate HasPrefix(z: string, i: nat, word: string) {
    i + |word| <= |z| && z[i..i + |word|] == word
  }

  /** The number of open `#if 0`, and `#if` inside them, after one more token; `ifZero` says where `if %d` reads a
      zero. */
  function ZeroStep(z: string, ifZero: nat -> bool, t: Token, depth: nat): nat {
    var p := DirectiveName(z, t.start);
    if t.kind != Preprocessor then depth
    else if ifZero(p) || (depth > 0 && HasPrefix(z, p, "if")) then depth + 1
    else if depth > 0 && HasPrefix(z, p, "endif") then depth - 1
    else depth
  }

  /** The token is no white space or comment, does not open an `#if 0`, and is not under one. */
  predicate Shows(z: string, ifZero: nat -> bool, t: Token, depth: nat) {
    && t.kind !in {Space, Comment, BlockComment}
    && depth == 0
    && !(t.kind == Preprocessor && ifZero(DirectiveName(z, t.start)))
  }

  /** The next token that counts, and the errors on the way. */
  function Nonspace(z: string, ifZero: nat -> bool, i: nat, depth: nat): (r: (Token, nat))
    ensures r.0.start >= i && r.0.end >= r.0.start
    ensures r.0.kind == Eof <==> r.0.start >= |z|
    ensures r.0.kind == Eof ==> r.0.end == r.0.start
    ensures r.0.kind != Eof ==> r.0.start < r.0.end
    ensures r.0.kind !in {Space, Comment, BlockComment, Braces, Error}
    decreases |z| - i
  {
    if i >= |z| then (Token(Eof, i, i), if depth != 0 then 1 else 0)
    else
      CutAdvances(z, i);
      var c := CutAt(z, i);
      var t := Token(c.kind, i, c.end);
      if Shows(z, ifZero, t, depth) then (t, c.errors)
      else AddErrors(c.errors, Nonspace(z, ifZero, c.end, ZeroStep(z, ifZero, t, depth)))
  }

  function AddErrors(n: nat, r: (Token, nat)): (Token, nat) {
    (r.0, n + r.1)
  }

  predicate IsBrace(z: string, t: Token, brace: char) {
    t.kind == Other && At(z, t.start) == brace
  }

  /** From behind an opening brace to behind the brace that balances it: the end, whether it was found, the errors. */
  function Balance(z: string, ifZero: nat -> bool, i: nat, depth: nat): (r: (nat, bool, nat))
    requires depth > 0
    ensures r.0 >= i
    ensures !r.1 ==> r.2 > 0
    decreases |z| - i
  {
    var (t, errors) := Nonspace(z, ifZero, i, 0);
    if t.kind == Eof then (t.end, false, errors + 1)
    else
      var depth' := if IsBrace(z, t, '{') then depth + 1 else if IsBrace(z, t, '}') then depth - 1 else depth;
      if depth' == 0 then (t.end, true, errors)
      else
        var (end, closed, more) := Balance(z, ifZero, t.end, depth');
        (end, closed, errors + more)
  }

  /** The next big token: braces and all that they hold are one token. */
  function Big(z: string, ifZero: nat -> bool, i: nat): (r: (Token, nat))
    ensures i <= r.0.start <= r.0.end
    ensures r.0.kind != Eof ==> i < r.0.end
    ensures r.0.kind == Eof ==> r.0.start >= |z|
    ensures r.0.kind == Error ==> r.1 > 0
    ensures r.0.kind !in {Space, Comment, BlockComment}
    ensures r.0.kind != Eof && r.0.kind != Error ==> r.0.start < r.0.end
  {
    var (t, errors) := Nonspace(z, ifZero, i, 0);
    if !IsBrace(z, t, '{') then (t, errors)
    else
      var (end, closed, more) := Balance(z, ifZero, t.end, 1);
      (if closed then Token(Braces, t.start, end) else Token(Error, end, end), errors + more)
  }

  /** At most `n` counted tokens from `i` on. */
  function Counted(z: string, ifZero: nat -> bool, i: nat, n: nat): (ts: seq<Token>)
    ensures |ts| <= n
    decreases n
  {
    var t := Nonspace(z, ifZero, i, 0).0;
    if n == 0 || t.kind == Eof then [] else [t] + Counted(z, ifZero, t.end, n - 1)
  }

  /** Opening minus closing braces among tokens. */
  function Depth(z: string, ts: seq<Token>): int {
    if ts == [] then 0
    else (if IsBrace(z, ts[0], '{') then 1 else if IsBrace(z, ts[0], '}') then -1 else 0) + Depth(z, ts[1..])
  }

  /** The `n` tokens from `i` on close `depth` open braces, and no fewer of them do. */
  ghost predicate Closes(z: string, ifZero: nat -> bool, i: nat, depth: nat, n: nat) {
    var ts := Counted(z, ifZero, i, n);
    && |ts| == n && n > 0 && depth + Depth(z, ts) == 0
    && forall m :: 0 <= m < n ==> depth + Depth(z, ts[..m]) > 0
  }

  lemma {:induction false} BalanceCloses(z: string, ifZero: nat -> bool, i: nat, depth: nat) returns (n: nat)
    requires depth > 0 && Balance(z, ifZero, i, depth).1
    ensures Closes(z, ifZero, i, depth, n)
    ensures Balance(z, ifZero, i, depth).0 == Counted(z, ifZero, i, n)[n - 1].end
    decreases |z| - i
  {
    hide Nonspace;
    var t := Nonspace(z, ifZero, i, 0).0;
    var depth' := if IsBrace(z, t, '{') then depth + 1 else if IsBrace(z, t, '}') then depth - 1 else depth;
    if depth' == 0 {
      n := 1;
      assert Counted(z, ifZero, i, 1) == [t] + [];
      assert Depth(z, [t]) == -1;
    } else {
      var k := BalanceCloses(z, ifZero, t.end, depth');
      n := k + 1;
      var ts, rest := Counted(z, ifZero, i, n), Counted(z, ifZero, t.end, k);
      assert ts == [t] + rest && ts[1..] == rest;
      forall m | 0 <= m < n
        ensures depth + Depth(z, ts[..m]) > 0
      {
        if m > 0 {
          assert ts[..m][1..] == rest[..m - 1];
        }
      }
    }
  }

  /** A braces token is the slice of the text from its opening brace to the end of the first counted token at which
      the counted braces balance. */
  lemma BracesBalance(z: string, ifZero: nat -> bool, i: nat)
    requires Big(z, ifZero, i).0.kind == Braces
    ensures var open := Nonspace(z, ifZero, i, 0).0;
            var braces := Big(z, ifZero, i).0;
            && IsBrace(z, open, '{') && braces.start == open.start
            && exists n: nat :: Closes(z, ifZero, open.end, 1, n) &&
                 braces.end == Counted(z, ifZero, open.end, n)[n - 1].end
  {
    hide Nonspace;
    hide Counted;
    var open := Nonspace(z, ifZero, i, 0).0;
    var n := BalanceCloses(z, ifZero, open.end, 1);
  }

  /** The big tokens from `i` on, up to the NUL or an end found on the way to a token, and the errors among them. */
  function BigTokens(z: string, ifZero: nat -> bool, i: nat): (r: (seq<Token>, nat))
    decreases |z| - i
  {
    if At(z, i) == '\0' then ([], 0)
    else
      var (t, errors) := Big(z, ifZero, i);
      if t.kind == Eof then ([t], errors)
      else
        var (ts, more) := BigTokens(z, ifZero, t.end);
        ([t] + ts, errors + more)
  }

  /** The list of a text without errors: nonempty tokens in the order of the text, none overlapping the next, each
      the big token found from where the one before ends; only the last can be the end of the text. */
  lemma {:induction false} BigTokensInOrder(z: string, ifZero: nat -> bool, i: nat)
    requires BigTokens(z, ifZero, i).1 == 0
    ensures var ts := BigTokens(z, ifZero, i).0;
            forall k :: 0 <= k < |ts| ==>
              && ts[k] == Big(z, ifZero, if k == 0 then i else ts[k - 1].end).0
              && (if k == 0 then i else ts[k - 1].end) <= ts[k].start
              && ts[k].kind !in {Error, Space, Comment, BlockComment}
              && (if ts[k].kind == Eof then k == |ts| - 1 else ts[k].start < ts[k].end)
    decreases |z| - i
  {
    hide Big;
    if At(z, i) != '\0' {
      var t := Big(z, ifZero, i).0;
      if t.kind != Eof {
        BigTokensInOrder(z, ifZero, t.end);
        assert BigTokens(z, ifZero, i).0 == [t] + BigTokens(z, ifZero, t.end).0;
      }
    }
  }

  // Which token is the next that counts, said of the stream of all tokens.

  function ZeroDepth(z: string, ifZero: nat -> bool, ts: seq<Token>, depth: nat): nat {
    if ts == [] then depth else ZeroDepth(z, ifZero, ts[1..], ZeroStep(z, ifZero, ts[0], depth))
  }

  predicate ShowsAt(z: string, ifZero: nat -> bool, ts: seq<Token>, depth: nat, k: nat)
    requires k < |ts|
  {
    Shows(z, ifZero, ts[k], ZeroDepth(z, ifZero, ts[..k], depth))
  }

  /** The next token that counts is the first of all tokens that shows. */
  lemma {:induction false} NonspaceIsFirst(z: string, ifZero: nat -> bool, i: nat, depth: nat) returns (n: nat)
    ensures var ts := Tokens(z, i);
            var t := Nonspace(z, ifZero, i, depth).0;
            && n <= |ts|
            && (forall k :: 0 <= k < n ==> !ShowsAt(z, ifZero, ts, depth, k))
            && (if n < |ts| then t == ts[n] && ShowsAt(z, ifZero, ts, depth, n) else t.kind == Eof)
    decreases |z| - i
  {
    hide CutAt;
    hide Shows;
    hide ZeroStep;
    n := 0;
    if i < |z| {
      CutAdvances(z, i);
      var c := CutAt(z, i);
      var ts, rest := Tokens(z, i), Tokens(z, c.end);
      var depth' := ZeroStep(z, ifZero, ts[0], depth);
      assert ts[1..] == rest;
      if !Shows(z, ifZero, ts[0], depth) {
        n := NonspaceIsFirst(z, ifZero, c.end, depth');
        forall k | 0 <= k < |ts|
          ensures ShowsAt(z, ifZero, ts, depth, k) == (k > 0 && ShowsAt(z, ifZero, rest, depth', k - 1))
        {
          if k > 0 {
            assert ts[..k][1..] == rest[..k - 1];
          }
        }
        n := n + 1;
      }
    }
  }
}
