/** The tokenizer of makeheaders: a stream that cuts tokens off a text and counts its lines. */
module Tokenizer {
  import opened TokenSpec
  import opened TokenStreams

  lemma {:induction false} NoNewlines(z: string, i: nat, j: nat)
    requires forall k :: i <= k < j ==> At(z, k) != '\n'
    ensures Newlines(z, i, j) == 0
    decreases j - i
  {
    if i < j {
      NoNewlines(z, i + 1, j);
    }
  }

  lemma NonspaceUnfolds(z: string, ifZero: nat -> bool, i: nat, depth: nat, n: nat)
    ensures var c := CutAt(z, i);
            var t := Token(c.kind, i, c.end);
            AddErrors(n, Nonspace(z, ifZero, i, depth)) ==
            if i >= |z| then (Token(Eof, i, i), if depth != 0 then n + 1 else n)
            else if Shows(z, ifZero, t, depth) then (t, n + c.errors)
            else AddErrors(n + c.errors, Nonspace(z, ifZero, c.end, ZeroStep(z, ifZero, t, depth)))
  {
    hide CutAt;
    hide Shows;
    hide ZeroStep;
  }

  lemma OnlyDirectivesNest(z: string, ifZero: nat -> bool, t: Token, depth: nat)
    requires t.kind != Preprocessor
    ensures Shows(z, ifZero, t, depth) <==> depth == 0 && t.kind !in {Space, Comment, BlockComment}
    ensures ZeroStep(z, ifZero, t, depth) == depth
  {
  }

  lemma BalanceUnfolds(z: string, ifZero: nat -> bool, i: nat, depth: nat, n: nat)
    requires depth > 0
    ensures var (t, errors) := Nonspace(z, ifZero, i, 0);
            var depth' := if IsBrace(z, t, '{') then depth + 1 else if IsBrace(z, t, '}') then depth - 1 else depth;
            AddMore(n, Balance(z, ifZero, i, depth)) ==
            if t.kind == Eof then (t.end, false, n + errors + 1)
            else if depth' == 0 then (t.end, true, n + errors)
            else AddMore(n + errors, Balance(z, ifZero, t.end, depth'))
  {
    hide Nonspace;
  }

  lemma BigUnfolds(z: string, ifZero: nat -> bool, i: nat)
    ensures var (t, errors) := Nonspace(z, ifZero, i, 0);
            Big(z, ifZero, i) ==
            if !IsBrace(z, t, '{') then (t, errors)
            else
              var (end, closed, all) := AddMore(errors, Balance(z, ifZero, t.end, 1));
              (if closed then Token(Braces, t.start, end) else Token(Error, end, end), all)
  {
    hide Nonspace;
    hide Balance;
  }

  class InStream {
    const z: string
    var i: nat
    var nLine: nat

    constructor (z: string)
      ensures this.z == z && i == 0 && nLine == 1
    {
      this.z := z;
      i, nLine := 0, 1;
    }

    /** While the characters are in a class without line feeds. */
    method SkipAll(from: nat, p: char -> bool) returns (j: nat)
      ensures j == Skip(z, from, p)
    {
      j := from;
      while j < |z| && p(z[j])
        invariant Skip(z, j, p) == Skip(z, from, p)
        decreases |z| - j
      {
        j := j + 1;
      }
    }

    method SkipSpace(from: nat) returns (j: nat)
      modifies this`nLine
      ensures j == Skip(z, from, IsSpace)
      ensures nLine == old(nLine) + Newlines(z, from, j)
    {
      j := from;
      ghost var end := Skip(z, from, IsSpace);
      while j < |z| && IsSpace(z[j])
        invariant from <= j <= end && Skip(z, j, IsSpace) == end
        invariant nLine + Newlines(z, j, end) == old(nLine) + Newlines(z, from, end)
        decreases |z| - j
      {
        if z[j] == '\n' {
          nLine := nLine + 1;
        }
        j := j + 1;
      }
    }

    method SkipDirective(from: nat) returns (j: nat)
      modifies this`nLine
      ensures j == DirectiveEnd(z, from)
      ensures nLine == old(nLine) + Newlines(z, from, j)
    {
      j := from;
      ghost var end := DirectiveEnd(z, from);
      while j < |z| && z[j] != '\n'
        invariant from <= j <= end && DirectiveEnd(z, j) == end
        invariant nLine + Newlines(z, j, end) == old(nLine) + Newlines(z, from, end)
        decreases |z| - j
      {
        if z[j] == '\\' {
          j := j + 1;
          if At(z, j) == '\n' {
            nLine := nLine + 1;
          }
        }
        j := j + 1;
      }
    }

    /** Past the literal whose opening quote is at `start`. */
    method SkipLiteral(start: nat, quote: char) returns (j: nat, nErr: nat)
      requires start < |z| && CText(z) && quote != '\0' && quote != '\n' && quote != '\\'
      modifies this`nLine
      ensures (j, nErr) == LiteralEnd(z, start + 1, quote)
      ensures nLine == old(nLine) + Newlines(z, start + 1, j)
    {
      j, nErr := start, 0;
      ghost var end := LiteralEnd(z, start + 1, quote);
      while true
        invariant start <= j < end.0 && j < |z| && LiteralEnd(z, j + 1, quote) == end && nErr == 0
        invariant nLine + Newlines(z, j + 1, end.0) == old(nLine) + Newlines(z, start + 1, end.0)
        decreases |z| - j
      {
        j := j + 1;
        var c := At(z, j);
        if c == '\n' {
          nLine := nLine + 1;
        }
        if c == '\\' {
          j := j + 1;
          c := At(z, j);
          if c == '\n' {
            nLine := nLine + 1;
          }
        } else if c == quote {
          j := j + 1;
          c := '\0';
        } else if c == '\0' {
          nErr := nErr + 1;
        }
        if c == '\0' {
          break;
        }
      }
    }

    /** Past a C comment whose text starts at `from`; whether it is a block comment at last. */
    method SkipComment(from: nat, isBlockComment: Block) returns (j: nat, b: Block, nErr: nat)
      requires from <= |z| && CText(z)
      modifies this`nLine
      ensures (j, nErr) == CommentEnd(z, from) && b == BlockState(z, from, isBlockComment)
      ensures nLine == old(nLine) + Newlines(z, from, j)
    {
      j, b, nErr := from, isBlockComment, 0;
      ghost var end := CommentEnd(z, from);
      while At(z, j) != '\0' && (At(z, j) != '*' || At(z, j + 1) != '/')
        invariant from <= j <= end.0 <= |z| && CommentEnd(z, j) == end
        invariant BlockState(z, j, b) == BlockState(z, from, isBlockComment)
        invariant nLine + Newlines(z, j, end.0) == old(nLine) + Newlines(z, from, end.0)
        decreases |z| - j
      {
        if z[j] == '\n' {
          nLine := nLine + 1;
          if b != NotBlock {
            b := if At(z, j + 1) == '*' || At(z, j + 2) == '*' then Starred else NotBlock;
          }
        }
        j := j + 1;
      }
      if At(z, j) != '\0' {
        NoNewlines(z, j, j + 2);
        j := j + 2;
      } else {
        b, nErr := NotBlock, nErr + 1;
      }
    }

    /** Past the exponent whose letter is at `from`. */
    method SkipExponent(from: nat) returns (j: nat)
      requires from < |z|
      ensures j == ExponentEnd(z, from)
      ensures forall k :: from < k < j ==> At(z, k) != '\n'
    {
      hide Skip;
      j := from + 1;
      if Either(At(z, j), '+', '-') && IsDigit(At(z, j + 1)) {
        j := j + 1;
      }
      j := SkipAll(j, IsDigit);
    }

    /** Past a number that starts with a digit other than 0. */
    method SkipNumber(from: nat) returns (j: nat)
      requires from < |z|
      ensures j == NumberTail(z, Skip(z, from, IsDigit))
      ensures Newlines(z, from, j) == 0
    {
      hide Skip;
      hide Newlines;
      j := SkipAll(from, IsDigit);
      var c := At(z, j);
      if c == '.' {
        j := SkipAll(j + 1, IsDigit);
        c := At(z, j);
        if Either(c, 'e', 'E') {
          j := SkipExponent(j);
          c := At(z, j);
        }
        if Either(c, 'f', 'F') || Either(c, 'l', 'L') {
          j := j + 1;
        }
      } else if Either(c, 'e', 'E') {
        j := SkipExponent(j);
      } else if Either(c, 'l', 'L') {
        j := j + 1;
        if Either(At(z, j), 'u', 'U') {
          j := j + 1;
        }
      } else if Either(c, 'u', 'U') {
        j := j + 1;
        if Either(At(z, j), 'l', 'L') {
          j := j + 1;
        }
      }
      NoNewlines(z, from, j);
    }

    /** The token at a slash. */
    method TakeSlash() returns (kind: Kind, end: nat, nErr: nat)
      requires CText(z) && i < |z| && z[i] == '/'
      modifies this`nLine
      ensures i < end && Cut(kind, end, nErr) == CutSlash(z, i)
      ensures nLine == old(nLine) + Newlines(z, i, end)
    {
      nErr := 0;
      if At(z, i + 1) == '/' {
        kind := Comment;
        end := SkipAll(i, IsLineChar);
        NoNewlines(z, i, end);
      } else if At(z, i + 1) == '*' {
        var b := if i == 0 || z[i - 1] == '\n' then MayBe else NotBlock;
        end, b, nErr := SkipComment(i + 2, b);
        NewlinesAdd(z, i, i + 2, end);
        NoNewlines(z, i, i + 2);
        kind := if b == Starred then BlockComment else Comment;
      } else {
        kind := Other;
        end := if At(z, i + 1) == '+' then i + 2 else i + 1;
        NoNewlines(z, i, end);
      }
    }

    /** The end of the number at a digit. */
    method TakeNumber() returns (end: nat)
      requires i < |z| && IsDigit(z[i])
      ensures CutAt(z, i) == Cut(Number, end, 0)
      ensures Newlines(z, i, end) == 0
    {
      hide Newlines;
      if z[i] == '0' {
        if Either(At(z, i + 1), 'x', 'X') {
          end := SkipAll(i + 2, IsHexDigit);
        } else {
          end := SkipAll(i, IsDigit);
        }
        NoNewlines(z, i, end);
      } else {
        end := SkipNumber(i);
      }
    }

    /** The token at a backslash or an operator; only an escaped line feed is white space. */
    method TakeOther() returns (kind: Kind, end: nat)
      requires CText(z) && i < |z| && !IsDigit(z[i]) && !IsLetter(z[i])
      requires z[i] !in {' ', '\t', '\r', '\U{C}', '\n', '\'', '"', '/'} && !StartsDirective(z, i)
      modifies this`nLine
      ensures Cut(kind, end, 0) == CutAt(z, i)
      ensures i < end && nLine == old(nLine) + Newlines(z, i, end)
    {
      var c := z[i];
      kind, end := Other, i + 1;
      if c == '\\' {
        end := i + 2;
        if At(z, i + 1) == '\n' {
          nLine := nLine + 1;
          kind := Space;
        } else if At(z, i + 1) == '\0' {
          end := i + 1;
        }
      } else if c == ':' {
        end := if At(z, i + 1) == ':' then i + 2 else i + 1;
      } else if IsDoubling(c) {
        end := if At(z, i + 1) == '=' then i + 2 else i + 1;
      }
      NewlinesAdd(z, i, i + 1, end);
    }

    /** The next token, whatever it is, and the line it starts in; the stream moves past it. */
    method GetToken() returns (t: Token, line: nat, nErr: nat)
      requires CText(z)
      modifies this
      ensures t.start == old(i) && i == t.end
      ensures line == old(nLine) && nLine == old(nLine) + Newlines(z, old(i), i)
      ensures Cut(t.kind, t.end, nErr) == CutAt(z, old(i))
      ensures if t.kind == Eof then old(i) >= |z| && i == old(i) && nErr == 0 else old(i) < |z| && old(i) < i
    {
      hide Skip;
      hide DirectiveEnd;
      hide LiteralEnd;
      hide NumberTail;
      hide CutSlash;
      var kind, end := Eof, i;
      line, nErr := nLine, 0;
      var c := At(z, i);
      if c == '\0' {
        assert i >= |z|;
      } else if StartsDirective(z, i) {
        kind := Preprocessor;
        end := SkipDirective(i + 1);
      } else if c == ' ' || c == '\t' || c == '\r' || c == '\U{C}' || c == '\n' {
        kind := Space;
        end := SkipSpace(i);
      } else if c == '\'' || c == '"' {
        kind := String;
        end, nErr := SkipLiteral(i, c);
      } else if c == '/' {
        kind, end, nErr := TakeSlash();
      } else if IsDigit(c) {
        kind := Number;
        end := TakeNumber();
      } else if IsLetter(c) {
        kind := Id;
        end := SkipAll(i, IsIdChar);
        NoNewlines(z, i, end);
      } else {
        kind, end := TakeOther();
      }
      if i < |z| {
        CutAdvances(z, i);
      }
      t := Token(kind, i, end);
      i := end;
    }

    /** What a directive does to the nesting of `#if 0`, and whether it is a token that counts. */
    method EnterDirective(ifZero: nat -> bool, t: Token, nIf: nat, inZero: bool)
      returns (shows: bool, nIf': nat, inZero': bool)
      requires t.kind == Preprocessor && inZero == (nIf > 0)
      ensures shows == Shows(z, ifZero, t, nIf)
      ensures nIf' == ZeroStep(z, ifZero, t, nIf) && inZero' == (nIf' > 0)
    {
      shows, nIf', inZero' := false, nIf, inZero;
      var p := SkipAll(t.start + 1, IsBlank);
      if ifZero(p) {
        nIf', inZero' := nIf + 1, true;
      } else if inZero {
        if HasPrefix(z, p, "if") {
          nIf' := nIf + 1;
        } else if HasPrefix(z, p, "endif") {
          nIf' := nIf - 1;
          if nIf' == 0 {
            inZero' := false;
          }
        }
      } else {
        shows := true;
      }
    }

    /** The next token that is not white space, a comment, or under `#if 0`. */
    method GetNonspaceToken(ifZero: nat -> bool) returns (t: Token, line: nat, nErr: nat)
      requires CText(z)
      modifies this
      ensures old(i) <= i == t.end
      ensures line == old(nLine) + Newlines(z, old(i), t.start)
      ensures nLine == old(nLine) + Newlines(z, old(i), i)
      ensures (t, nErr) == Nonspace(z, ifZero, old(i), 0)
    {
      hide CutAt;
      hide Newlines;
      hide Nonspace;
      hide ZeroStep;
      hide Shows;
      var nIf, inZero := 0, false;
      nErr := 0;
      NoNewlines(z, i, i);
      ghost var all := Nonspace(z, ifZero, i, 0);
      while true
        invariant inZero == (nIf > 0)
        invariant old(i) <= i && nLine == old(nLine) + Newlines(z, old(i), i)
        invariant AddErrors(nErr, Nonspace(z, ifZero, i, nIf)) == all
        decreases |z| - i
      {
        var shows, errors := false, 0;
        NonspaceUnfolds(z, ifZero, i, nIf, nErr);
        ghost var from := i;
        t, line, errors := GetToken();
        NewlinesAdd(z, old(i), from, i);
        nErr := nErr + errors;
        if t.kind != Preprocessor {
          OnlyDirectivesNest(z, ifZero, t, nIf);
        }
        if t.kind == Comment || t.kind == Space || t.kind == BlockComment {
        } else if t.kind == Eof {
          if nIf != 0 {
            nErr := nErr + 1;
          }
          return;
        } else if t.kind == Preprocessor {
          shows, nIf, inZero := EnterDirective(ifZero, t, nIf, inZero);
          if shows {
            return;
          }
        } else if !inZero {
          return;
        }
      }
    }

    /** The next big token: everything between matching braces is one token, which starts in the line of the first. */
    method GetBigToken(ifZero: nat -> bool) returns (t: Token, line: nat, nErr: nat)
      requires CText(z)
      modifies this
      ensures old(i) <= i == t.end
      ensures line == old(nLine) + Newlines(z, old(i), t.start)
      ensures nLine == old(nLine) + Newlines(z, old(i), i)
      ensures (t, nErr) == Big(z, ifZero, old(i))
    {
      hide Big;
      hide Nonspace;
      hide Newlines;
      hide Balance;
      t, line, nErr := GetNonspaceToken(ifZero);
      BigUnfolds(z, ifZero, old(i));
      if t.kind != Other || At(z, t.start) != '{' {
        return;
      }
      var start, startLine, nBrace, errors := t.start, line, 1, 0;
      ghost var all := AddMore(nErr, Balance(z, ifZero, i, 1));
      while nBrace != 0
        invariant nBrace >= 0 && old(i) <= i && nLine == old(nLine) + Newlines(z, old(i), i)
        invariant nBrace > 0 ==> AddMore(nErr, Balance(z, ifZero, i, nBrace)) == all
        invariant nBrace == 0 ==> (i, true, nErr) == all
        decreases |z| - i
      {
        BalanceUnfolds(z, ifZero, i, nBrace, nErr);
        ghost var from := i;
        t, line, errors := GetNonspaceToken(ifZero);
        NewlinesAdd(z, old(i), from, i);
        nErr := nErr + errors;
        if t.kind == Eof {
          nErr := nErr + 1;
          NewlinesAdd(z, old(i), from, t.start);
          t := t.(kind := Error);
          return;
        } else if t.kind == Other {
          if At(z, t.start) == '{' {
            nBrace := nBrace + 1;
          } else if At(z, t.start) == '}' {
            nBrace := nBrace - 1;
          }
        }
      }
      t, line := Token(Braces, start, i), startLine;
    }
  }

  function AddMore(n: nat, r: (nat, bool, nat)): (nat, bool, nat) {
    (r.0, r.1, n + r.2)
  }

  /** The big tokens of a text and the lines they start in; none when there are errors in it. */
  method TokenizeFile(z: string, ifZero: nat -> bool) returns (list: seq<Token>, lines: seq<nat>)
    requires CText(z)
    ensures |lines| == |list| && forall k :: 0 <= k < |list| ==> lines[k] == 1 + Newlines(z, 0, list[k].start)
    ensures var (ts, errors) := BigTokens(z, ifZero, 0); list == if errors == 0 then ts else []
  {
    hide Big;
    hide Newlines;
    NoNewlines(z, 0, 0);
    var stream := new InStream(z);
    var nErr := 0;
    list, lines := [], [];
    ghost var all := BigTokens(z, ifZero, 0);
    assert [] + BigTokens(z, ifZero, 0).0 == BigTokens(z, ifZero, 0).0;
    while At(z, stream.i) != '\0'
      invariant |lines| == |list| && forall k :: 0 <= k < |list| ==> lines[k] == 1 + Newlines(z, 0, list[k].start)
      invariant stream.z == z && stream.nLine == 1 + Newlines(z, 0, stream.i)
      invariant After(list, nErr, BigTokens(z, ifZero, stream.i)) == all
      decreases |z| - stream.i
    {
      ghost var from := stream.i;
      var t, line, errors := stream.GetBigToken(ifZero);
      NewlinesAdd(z, 0, from, stream.i);
      NewlinesAdd(z, 0, from, t.start);
      nErr := nErr + errors;
      ghost var was := list;
      list, lines := list + [t], lines + [line];
      if t.kind == Eof {
        break;
      }
      assert forall ts: seq<Token> :: list + ts == was + ([t] + ts);
    }
    if nErr != 0 {
      list, lines := [], [];
    }
  }

  /** What is found after tokens and errors found before. */
  function After(ts: seq<Token>, n: nat, r: (seq<Token>, nat)): (seq<Token>, nat) {
    (ts + r.0, n + r.1)
  }
}
