/** The lexical grammar of makeheaders: what the token at a position looks like, said of its characters and of the
    character behind it, and that the tokenizer cuts exactly that. */
module TokenGrammar {
  import opened TokenSpec

  // Classes of characters.

  predicate IsWhite(c: char) {
    c in " \t\n\r\U{B}\U{C}"
  }

  predicate IsDecimal(c: char) {
    c in "0123456789"
  }

  predicate IsHex(c: char) {
    c in "0123456789abcdefABCDEF"
  }

  predicate IsWordChar(c: char) {
    'a' <= c <= 'z' || 'A' <= c <= 'Z' || c == '_' || IsDecimal(c)
  }

  lemma Classes(c: char)
    ensures IsSpace(c) <==> IsWhite(c)
    ensures IsDigit(c) <==> IsDecimal(c)
    ensures IsHexDigit(c) <==> IsHex(c)
    ensures IsIdChar(c) <==> IsWordChar(c)
    ensures IsLetter(c) <==> IsWordChar(c) && !IsDecimal(c)
    ensures IsDoubling(c) <==> c in "=<>+-*%^&|"
    ensures TokenSpec.IsBlank(c) <==> c in " \t"
  {
    if IsDigit(c) {
      assert c == "0123456789"[c as int - '0' as int];
      assert c == "0123456789abcdefABCDEF"[c as int - '0' as int];
    } else if 'a' <= c <= 'f' {
      assert c == "0123456789abcdefABCDEF"[c as int - 'a' as int + 10];
    } else if 'A' <= c <= 'F' {
      assert c == "0123456789abcdefABCDEF"[c as int - 'A' as int + 16];
    }
  }

  /** The longest stretch from `i` of characters of the class. */
  ghost predicate Run(z: string, i: nat, end: nat, p: char -> bool) {
    && i <= end <= |z| && (forall k :: i <= k < end ==> p(z[k]))
    && (end < |z| ==> !p(z[end]))
  }

  /** The character at `i` is one of these. */
  predicate Next(z: string, i: nat, chars: string) {
    i < |z| && z[i] in chars
  }

  /** How many backslashes stand right before `k`, from `i` on. */
  function Backslashes(z: string, i: nat, k: nat): (n: nat)
    requires i <= k <= |z|
    ensures i + n <= k && (forall j :: k - n <= j < k ==> z[j] == '\\') && (i < k - n ==> z[k - n - 1] != '\\')
  {
    if i < k && z[k - 1] == '\\' then Backslashes(z, i, k - 1) + 1 else 0
  }

  predicate Escaped(z: string, i: nat, k: nat)
    requires i <= k <= |z|
  {
    Backslashes(z, i, k) % 2 == 1
  }

  /** The first character `c` from `i` on that is not escaped stands at `k`; none does when `k` is the end. */
  ghost predicate FirstPlain(z: string, i: nat, k: nat, c: char) {
    && i <= k <= |z| && (forall j :: i <= j < k && z[j] == c ==> Escaped(z, i, j))
    && (k < |z| ==> z[k] == c && !Escaped(z, i, k))
  }

  // Tokens.

  /** From `i` on a directive goes to the first plain line feed; a backslash at the end of the text takes the NUL with
      it. */
  ghost predicate IsDirective(z: string, i: nat, end: nat) {
    exists k: nat :: FirstPlain(z, i, k, '\n') && end == if k == |z| && Escaped(z, i, k) then k + 1 else k
  }

  /** Where a literal ends whose first plain quote from `i` on is at `k`; without one it ends with the text, in error
      unless the end is escaped. */
  ghost predicate LiteralTo(z: string, i: nat, k: nat, quote: char, end: nat, errors: nat) {
    && FirstPlain(z, i, k, quote)
    && if k < |z| then end == k + 1 && errors == 0 else end == k && errors == if Escaped(z, i, k) then 0 else 1
  }

  ghost predicate IsLiteral(z: string, i: nat, quote: char, end: nat, errors: nat) {
    exists k: nat :: LiteralTo(z, i, k, quote, end, errors)
  }

  predicate Closing(z: string, k: nat) {
    k + 1 < |z| && z[k] == '*' && z[k + 1] == '/'
  }

  /** A comment goes on to the first closing mark. */
  ghost predicate IsComment(z: string, i: nat, end: nat, errors: nat) {
    if errors == 0 then
      && i + 4 <= end <= |z| && Closing(z, end - 2) && forall k :: i + 2 <= k < end - 2 ==> !Closing(z, k)
    else
      errors == 1 && end == |z| && forall k :: i + 2 <= k ==> !Closing(z, k)
  }

  predicate StarFollows(z: string, k: nat) {
    Next(z, k + 1, "*") || Next(z, k + 2, "*")
  }

  /** A line feed stands in the stretch. */
  ghost predicate Feeds(z: string, i: nat, e: nat) {
    e <= |z| && exists k :: i <= k < e && z[k] == '\n'
  }

  /** A star begins each line that follows. */
  ghost predicate Starry(z: string, i: nat, e: nat) {
    e <= |z| && forall k :: i <= k < e && z[k] == '\n' ==> StarFollows(z, k)
  }

  /** A closed comment documents something when it starts its line, has several lines, and a star begins each of
      them, after one more character at most. */
  ghost predicate Documents(z: string, i: nat, end: nat) {
    (i == 0 || Next(z, i - 1, "\n")) && i + 2 <= end - 2 && Feeds(z, i + 2, end - 2) && Starry(z, i + 2, end - 2)
  }

  /** The digits behind an exponent's letter at `i`; they may be missing, but not behind a sign. */
  ghost predicate IsExponent(z: string, i: nat, end: nat) {
    var signed := Next(z, i + 1, "+-") && Next(z, i + 2, "0123456789");
    Run(z, if signed then i + 2 else i + 1, end, IsDecimal)
  }

  /** What follows the digits of a decimal number: a fraction, an exponent, or suffixes. */
  ghost predicate IsNumberTail(z: string, i: nat, end: nat) {
    if Next(z, i, ".") then
      exists j: nat, k: nat ::
        && Run(z, i + 1, j, IsDecimal)
        && (if Next(z, j, "eE") then IsExponent(z, j, k) else k == j)
        && end == if Next(z, k, "fFlL") then k + 1 else k
    else if Next(z, i, "eE") then IsExponent(z, i, end)
    else if Next(z, i, "lL") then end == if Next(z, i + 1, "uU") then i + 2 else i + 1
    else if Next(z, i, "uU") then end == if Next(z, i + 1, "lL") then i + 2 else i + 1
    else end == i
  }

  ghost predicate IsNumber(z: string, i: nat, end: nat)
    requires i < |z|
  {
    if z[i] == '0' then
      if Next(z, i + 1, "xX") then Run(z, i + 2, end, IsHex) else Run(z, i, end, IsDecimal)
    else
      exists j: nat :: Run(z, i, j, IsDecimal) && IsNumberTail(z, j, end)
  }

  predicate StartsLine(z: string, i: nat)
    requires i <= |z|
  {
    i == 0 || z[i - 1] == '\n' || (i > 1 && z[i - 1] == '\r' && z[i - 2] == '\n')
  }

  /** Two characters that make one operator. */
  predicate IsPair(z: string, i: nat)
    requires i < |z|
  {
    || (z[i] == '/' && Next(z, i + 1, "+")) || (z[i] == ':' && Next(z, i + 1, ":"))
    || (z[i] in "=<>+-*%^&|" && Next(z, i + 1, "="))
    || (z[i] == '\\' && i + 1 < |z| && z[i + 1] != '\n')
  }

  /** The token at `i`, by its first characters. */
  ghost predicate IsLexeme(z: string, i: nat, c: Cut)
    requires i < |z|
  {
    if z[i] == '#' && StartsLine(z, i) then
      c.kind == Preprocessor && IsDirective(z, i + 1, c.end) && c.errors == 0
    else if z[i] in " \t\n\r\U{C}" then
      c.kind == Space && Run(z, i, c.end, IsWhite) && c.errors == 0
    else if z[i] == '\\' && Next(z, i + 1, "\n") then
      c == Cut(Space, i + 2, 0)
    else if z[i] == '\'' || z[i] == '"' then
      c.kind == String && IsLiteral(z, i + 1, z[i], c.end, c.errors)
    else if z[i] == '/' && Next(z, i + 1, "/") then
      c.kind == Comment && Run(z, i, c.end, (x: char) => x != '\n') && c.errors == 0
    else if z[i] == '/' && Next(z, i + 1, "*") then
      && IsComment(z, i, c.end, c.errors)
      && c.kind == if c.errors == 0 && Documents(z, i, c.end) then BlockComment else Comment
    else if IsDecimal(z[i]) then
      c.kind == Number && IsNumber(z, i, c.end) && c.errors == 0
    else if IsWordChar(z[i]) then
      c.kind == Id && Run(z, i, c.end, IsWordChar) && c.errors == 0
    else
      c == Cut(Other, if IsPair(z, i) then i + 2 else i + 1, 0)
  }

  // Each scan ends where the grammar says, and nowhere else.

  lemma RunExactly(z: string, i: nat, end: nat, p: char -> bool, q: char -> bool)
    requires i <= |z| && forall c :: p(c) <==> q(c)
    ensures Run(z, i, end, q) <==> end == Skip(z, i, p)
  {
  }

  lemma ClassesAgree()
    ensures forall c :: IsSpace(c) <==> IsWhite(c)
    ensures forall c :: IsDigit(c) <==> IsDecimal(c)
    ensures forall c :: IsHexDigit(c) <==> IsHex(c)
    ensures forall c :: IsIdChar(c) <==> IsWordChar(c)
  {
    hide *;
    forall c: char
      ensures (IsSpace(c) <==> IsWhite(c)) && (IsDigit(c) <==> IsDecimal(c))
      ensures (IsHexDigit(c) <==> IsHex(c)) && (IsIdChar(c) <==> IsWordChar(c))
    {
      Classes(c);
    }
  }

  lemma PlainUnique(z: string, i: nat, k: nat, k': nat, c: char)
    requires FirstPlain(z, i, k, c) && FirstPlain(z, i, k', c)
    ensures k == k'
  {
  }

  lemma EscapeStep(z: string, i: nat, k: nat)
    requires i <= k < |z|
    ensures Escaped(z, i, k + 1) <==> z[k] == '\\' && !Escaped(z, i, k)
    ensures !Escaped(z, i, i)
  {
    var n := Backslashes(z, i, k);
    assert Backslashes(z, i, k + 1) == if z[k] == '\\' then n + 1 else 0;
  }

  /** None of these characters is plain in `z[i..j]`, and `j` is not escaped. */
  ghost predicate NonePlain(z: string, i: nat, j: nat, c: char) {
    i <= j <= |z| && !Escaped(z, i, j) && forall l :: i <= l < j && z[l] == c ==> Escaped(z, i, l)
  }

  lemma OneOn(z: string, i: nat, j: nat, c: char)
    requires NonePlain(z, i, j, c) && j < |z| && z[j] != c && z[j] != '\\'
    ensures NonePlain(z, i, j + 1, c)
  {
    hide Escaped;
    EscapeStep(z, i, j);
  }

  lemma TwoOn(z: string, i: nat, j: nat, c: char)
    requires NonePlain(z, i, j, c) && j < |z| && c != '\\' && z[j] == '\\'
    ensures Escaped(z, i, j + 1)
    ensures if j + 1 < |z| then NonePlain(z, i, j + 2, c) else FirstPlain(z, i, j + 1, c)
  {
    hide Escaped;
    EscapeStep(z, i, j);
    if j + 1 < |z| {
      EscapeStep(z, i, j + 1);
    }
  }

  lemma {:induction false} DirectivePlain(z: string, i: nat, j: nat) returns (k: nat)
    requires NonePlain(z, i, j, '\n')
    ensures FirstPlain(z, i, k, '\n')
    ensures DirectiveEnd(z, j) == if k == |z| && Escaped(z, i, k) then k + 1 else k
    decreases |z| - j
  {
    hide Escaped;
    k := j;
    if j < |z| && z[j] != '\n' {
      if z[j] != '\\' {
        OneOn(z, i, j, '\n');
        k := DirectivePlain(z, i, j + 1);
      } else {
        TwoOn(z, i, j, '\n');
        if j + 1 == |z| {
          k := |z|;
        } else {
          k := DirectivePlain(z, i, j + 2);
        }
      }
    }
  }

  lemma DirectiveExactly(z: string, i: nat, end: nat)
    requires i <= |z|
    ensures IsDirective(z, i, end) <==> end == DirectiveEnd(z, i)
  {
    var k := DirectivePlain(z, i, i);
    hide FirstPlain;
    hide Escaped;
    if IsDirective(z, i, end) {
      var k': nat :| FirstPlain(z, i, k', '\n') && end == if k' == |z| && Escaped(z, i, k') then k' + 1 else k';
      PlainUnique(z, i, k, k', '\n');
    }
  }

  lemma {:induction false} LiteralPlain(z: string, i: nat, j: nat, q: char) returns (k: nat)
    requires q != '\\' && NonePlain(z, i, j, q)
    ensures LiteralTo(z, i, k, q, LiteralEnd(z, j, q).0, LiteralEnd(z, j, q).1)
    decreases |z| - j
  {
    hide Escaped;
    k := j;
    if j < |z| && z[j] != q {
      if z[j] != '\\' {
        OneOn(z, i, j, q);
        k := LiteralPlain(z, i, j + 1, q);
      } else {
        TwoOn(z, i, j, q);
        if j + 1 == |z| {
          k := |z|;
        } else {
          k := LiteralPlain(z, i, j + 2, q);
        }
      }
    }
  }

  lemma LiteralExactly(z: string, i: nat, q: char, end: nat, errors: nat)
    requires i <= |z| && q != '\\'
    ensures IsLiteral(z, i, q, end, errors) <==> (end, errors) == LiteralEnd(z, i, q)
  {
    var k := LiteralPlain(z, i, i, q);
    hide FirstPlain;
    hide Escaped;
    if IsLiteral(z, i, q, end, errors) {
      var k': nat :| LiteralTo(z, i, k', q, end, errors);
      PlainUnique(z, i, k, k', q);
    }
  }

  lemma {:induction false} CommentCloses(z: string, i: nat)
    requires i <= |z|
    ensures var (end, errors) := CommentEnd(z, i);
            if errors == 0
            then i + 2 <= end <= |z| && Closing(z, end - 2) && forall k :: i <= k < end - 2 ==> !Closing(z, k)
            else errors == 1 && end == |z| && forall k :: i <= k ==> !Closing(z, k)
    decreases |z| - i
  {
    if i < |z| && !Closing(z, i) {
      CommentCloses(z, i + 1);
    }
  }

  lemma CommentExactly(z: string, i: nat, end: nat, errors: nat)
    requires i + 2 <= |z|
    ensures IsComment(z, i, end, errors) <==> (end, errors) == CommentEnd(z, i + 2)
  {
    hide Closing;
    CommentCloses(z, i + 2);
  }

  lemma FeedsStep(z: string, i: nat, e: nat)
    requires i < e <= |z|
    ensures Feeds(z, i, e) <==> z[i] == '\n' || Feeds(z, i + 1, e)
    ensures Starry(z, i, e) <==> (z[i] == '\n' ==> StarFollows(z, i)) && Starry(z, i + 1, e)
    ensures !Feeds(z, i + 1, e) ==> Starry(z, i + 1, e)
  {
    hide StarFollows;
  }

  /** What the comment's state says, in terms of the line feeds up to the closing mark at `e`. */
  lemma {:induction false} BlockMeaning(z: string, i: nat, e: nat, b: Block)
    requires i <= e && Closing(z, e) && forall k :: i <= k < e ==> !Closing(z, k)
    ensures BlockState(z, i, b) ==
            if !Feeds(z, i, e) then b else if b != NotBlock && Starry(z, i, e) then Starred else NotBlock
    decreases e - i
  {
    if i < e {
      FeedsStep(z, i, e);
      hide Feeds;
      hide Starry;
      var b' := if z[i] == '\n' && b != NotBlock then if StarFollows(z, i) then Starred else NotBlock else b;
      assert !Closing(z, i);
      assert BlockState(z, i, b) == BlockState(z, i + 1, b');
      BlockMeaning(z, i + 1, e, b');
    }
  }

  lemma {:induction false} OpenIsNoBlock(z: string, i: nat, b: Block)
    requires i <= |z| && forall k :: i <= k ==> !Closing(z, k)
    ensures BlockState(z, i, b) == NotBlock
    decreases |z| - i
  {
    if i < |z| {
      assert !Closing(z, i);
      OpenIsNoBlock(z, i + 1,
        if z[i] == '\n' && b != NotBlock then
          if At(z, i + 1) == '*' || At(z, i + 2) == '*' then Starred else NotBlock
        else b);
    }
  }

  lemma CommentKind(z: string, i: nat)
    requires i + 2 <= |z| && z[i] == '/' && z[i + 1] == '*'
    ensures var (end, errors) := CommentEnd(z, i + 2);
            CutAt(z, i) == Cut(if errors == 0 && Documents(z, i, end) then BlockComment else Comment, end, errors)
  {
    hide Closing;
    hide Feeds;
    hide Starry;
    CommentCloses(z, i + 2);
    var (end, errors) := CommentEnd(z, i + 2);
    var b := if i == 0 || z[i - 1] == '\n' then MayBe else NotBlock;
    if errors == 0 {
      BlockMeaning(z, i + 2, end - 2, b);
    } else {
      OpenIsNoBlock(z, i + 2, b);
    }
  }

  lemma ExponentExactly(z: string, i: nat, end: nat)
    requires i < |z|
    ensures IsExponent(z, i, end) <==> end == ExponentEnd(z, i)
  {
    var signed := Next(z, i + 1, "+-") && Next(z, i + 2, "0123456789");
    assert Next(z, i + 2, "0123456789") == IsDigit(At(z, i + 2)) by {
      Classes(At(z, i + 2));
    }
    ClassesAgree();
    hide IsDigit;
    hide IsDecimal;
    assert Next(z, i + 1, "+-") == Either(At(z, i + 1), '+', '-');
    RunExactly(z, if signed then i + 2 else i + 1, end, IsDigit, IsDecimal);
  }

  lemma FractionExactly(z: string, i: nat, end: nat)
    requires i < |z| && z[i] == '.'
    ensures IsNumberTail(z, i, end) <==> end == NumberTail(z, i)
  {
    ClassesAgree();
    hide IsDigit;
    hide IsDecimal;
    hide IsExponent;
    var j := Skip(z, i + 1, IsDigit);
    RunExactly(z, i + 1, j, IsDigit, IsDecimal);
    hide Skip;
    var k := if Next(z, j, "eE") then ExponentEnd(z, j) else j;
    if j < |z| {
      ExponentExactly(z, j, k);
    }
    hide ExponentEnd;
    assert NumberTail(z, i) == if Next(z, k, "fFlL") then k + 1 else k;
    if end == NumberTail(z, i) {
      assert Run(z, i + 1, j, IsDecimal) && (if Next(z, j, "eE") then IsExponent(z, j, k) else k == j);
    }
    hide NumberTail;
    if IsNumberTail(z, i, end) {
      var j': nat, k': nat :|
        && Run(z, i + 1, j', IsDecimal)
        && (if Next(z, j', "eE") then IsExponent(z, j', k') else k' == j')
        && end == if Next(z, k', "fFlL") then k' + 1 else k';
      RunExactly(z, i + 1, j', IsDigit, IsDecimal);
      if j < |z| {
        ExponentExactly(z, j, k');
      }
    }
  }

  lemma TailExactly(z: string, i: nat, end: nat)
    requires i <= |z|
    ensures IsNumberTail(z, i, end) <==> end == NumberTail(z, i)
  {
    if Next(z, i, ".") {
      FractionExactly(z, i, end);
    } else if Next(z, i, "eE") {
      ExponentExactly(z, i, end);
    }
  }

  lemma NumberCut(z: string, i: nat)
    requires i < |z| && IsDigit(z[i])
    ensures CutAt(z, i) ==
            Cut(Number,
                if z[i] != '0' then NumberTail(z, Skip(z, i, IsDigit))
                else if Next(z, i + 1, "xX") then Skip(z, i + 2, IsHexDigit)
                else Skip(z, i, IsDigit),
                0)
  {
    hide Skip;
    hide NumberTail;
    hide IsHexDigit;
    hide CutSlash;
  }

  lemma NumberExactly(z: string, i: nat, end: nat)
    requires i < |z| && IsDecimal(z[i])
    ensures IsNumber(z, i, end) <==> CutAt(z, i) == Cut(Number, end, 0)
  {
    ClassesAgree();
    Classes(z[i]);
    NumberCut(z, i);
    hide CutAt;
    hide IsDecimal;
    hide IsHex;
    hide IsNumberTail;
    hide NumberTail;
    if z[i] == '0' {
      if Next(z, i + 1, "xX") {
        RunExactly(z, i + 2, end, IsHexDigit, IsHex);
      } else {
        RunExactly(z, i, end, IsDigit, IsDecimal);
      }
    } else {
      var j := Skip(z, i, IsDigit);
      RunExactly(z, i, j, IsDigit, IsDecimal);
      TailExactly(z, j, end);
      if IsNumber(z, i, end) {
        var j': nat :| Run(z, i, j', IsDecimal) && IsNumberTail(z, j', end);
        RunExactly(z, i, j', IsDigit, IsDecimal);
      }
    }
  }

  /** The tokenizer cuts at `i` exactly what the grammar says. */
  lemma CutExactly(z: string, i: nat, c: Cut)
    requires i < |z|
    ensures IsLexeme(z, i, c) <==> c == CutAt(z, i)
  {
    ClassesAgree();
    Classes(z[i]);
    hide IsDirective;
    hide IsLiteral;
    hide IsComment;
    hide Documents;
    hide IsNumber;
    hide NumberTail;
    hide IsDecimal;
    hide IsWordChar;
    hide IsWhite;
    if z[i] == '#' && StartsLine(z, i) {
      DirectiveExactly(z, i + 1, c.end);
    } else if z[i] in " \t\n\r\U{C}" {
      RunExactly(z, i, c.end, IsSpace, IsWhite);
    } else if z[i] == '\'' || z[i] == '"' {
      LiteralExactly(z, i + 1, z[i], c.end, c.errors);
    } else if z[i] == '/' && Next(z, i + 1, "/") {
      RunExactly(z, i, c.end, IsLineChar, (x: char) => x != '\n');
    } else if z[i] == '/' && Next(z, i + 1, "*") {
      CommentExactly(z, i, c.end, c.errors);
      CommentKind(z, i);
    } else if IsDecimal(z[i]) {
      NumberExactly(z, i, c.end);
    } else if IsWordChar(z[i]) {
      RunExactly(z, i, c.end, IsIdChar, IsWordChar);
    }
  }

  /** The lines that a stretch of the text ends. */
  lemma {:induction false} LinesAreCounted(z: string, i: nat, j: nat)
    requires i <= j <= |z|
    ensures Newlines(z, i, j) == |set k | i <= k < j && z[k] == '\n'|
    decreases j - i
  {
    if i < j {
      LinesAreCounted(z, i + 1, j);
      var rest := set k | i + 1 <= k < j && z[k] == '\n';
      assert (set k | i <= k < j && z[k] == '\n') == if z[i] == '\n' then {i} + rest else rest;
    }
  }
}
