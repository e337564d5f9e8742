/** C tokens as makeheaders cuts them: where the token at a position ends, and of which kind it is. */
module TokenSpec {
  datatype Kind =
    | Space | Id | Preprocessor | Comment | Number | String | Braces | Eof | Error | BlockComment | Other

  /** A token of the text: its kind, its first position, and the position after it. */
  datatype Token = Token(kind: Kind, start: nat, end: nat)

  /** A token and the number of errors found in it. */
  datatype Cut = Cut(kind: Kind, end: nat, errors: nat)

  /** The text ends in a NUL and has none before. */
  predicate CText(z: string) {
    '\0' !in z
  }

  /** The character at a position; the model reads NUL past the text, too. */
  function At(z: string, i: nat): char {
    if i < |z| then z[i] else '\0'
  }

  predicate IsSpace(c: char) {
    c == ' ' || '\t' <= c <= '\r'
  }

  predicate IsLineChar(c: char) {
    c != '\n'
  }

  predicate IsBlank(c: char) {
    c == ' ' || c == '\t'
  }

  predicate IsDigit(c: char) {
    '0' <= c <= '9'
  }

  predicate IsHexDigit(c: char) {
    IsDigit(c) || 'a' <= c <= 'f' || 'A' <= c <= 'F'
  }

  predicate IsLetter(c: char) {
    'a' <= c <= 'z' || 'A' <= c <= 'Z' || c == '_'
  }

  predicate IsIdChar(c: char) {
    IsLetter(c) || IsDigit(c)
  }

  /** The first position from `i` on whose character is not in the class. */
  function Skip(z: string, i: nat, p: char -> bool): (r: nat)
    ensures i <= r && (i <= |z| ==> r <= |z|)
    ensures forall k :: i <= k < r ==> k < |z| && p(z[k])
    ensures r < |z| ==> !p(z[r])
    decreases |z| - i
  {
    if i < |z| && p(z[i]) then Skip(z, i + 1, p) else i
  }

  /** The end of a directive: the next line feed that no backslash precedes. A backslash takes the next character
      with it, even the NUL. */
  function DirectiveEnd(z: string, i: nat): (r: nat)
    ensures i <= r && (i <= |z| ==> r <= |z| + 1)
    decreases |z| - i
  {
    if i >= |z| || z[i] == '\n' then i
    else if z[i] == '\\' then DirectiveEnd(z, i + 2)
    else DirectiveEnd(z, i + 1)
  }

  /** The end of a literal, from a position inside it; an unterminated one ends with the text. */
  function LiteralEnd(z: string, i: nat, quote: char): (r: (nat, nat))
    requires i <= |z|
    ensures i <= r.0 <= |z|
    decreases |z| - i
  {
    if i == |z| then (i, 1)
    else if z[i] == '\\' then
      if i + 1 == |z| then (i + 1, 0) else LiteralEnd(z, i + 2, quote)
    else if z[i] == quote then (i + 1, 0)
    else LiteralEnd(z, i + 1, quote)
  }

  /** The end of a C comment, from a position inside it. */
  function CommentEnd(z: string, i: nat): (r: (nat, nat))
    requires i <= |z|
    ensures i <= r.0 <= |z|
    decreases |z| - i
  {
    if i == |z| then (i, 1)
    else if z[i] == '*' && At(z, i + 1) == '/' then (i + 2, 0)
    else CommentEnd(z, i + 1)
  }

  /** Whether a comment is still a block comment at position `i`: not one, maybe, or with a starred line seen. */
  datatype Block = NotBlock | MayBe | Starred

  function BlockState(z: string, i: nat, b: Block): Block
    requires i <= |z|
    decreases |z| - i
  {
    if i == |z| then NotBlock
    else if z[i] == '*' && At(z, i + 1) == '/' then b
    else
      BlockState(z, i + 1,
        if z[i] == '\n' && b != NotBlock then
          if At(z, i + 1) == '*' || At(z, i + 2) == '*' then Starred else NotBlock
        else b)
  }

  predicate Either(c: char, a: char, b: char) {
    c == a || c == b
  }

  /** One character more if it is `a` or `b`. */
  function Suffix(z: string, i: nat, a: char, b: char): (r: nat)
    ensures i <= r <= i + 1 && (r == i + 1 ==> i < |z|)
  {
    if i < |z| && Either(z[i], a, b) then i + 1 else i
  }

  /** Past the exponent whose letter is at `i`; a sign needs a digit after it. */
  function ExponentEnd(z: string, i: nat): (r: nat)
    requires i < |z|
    ensures i < r <= |z|
  {
    var j := if Either(At(z, i + 1), '+', '-') && IsDigit(At(z, i + 2)) then i + 2 else i + 1;
    Skip(z, j, IsDigit)
  }

  /** The end of a number that does not start with 0, from the first character that is not a digit. */
  function NumberTail(z: string, i: nat): (r: nat)
    requires i <= |z|
    ensures i <= r <= |z|
  {
    var c := At(z, i);
    if c == '.' then
      var j := Skip(z, i + 1, IsDigit);
      var k := if Either(At(z, j), 'e', 'E') then ExponentEnd(z, j) else j;
      if Either(At(z, k), 'f', 'F') || Either(At(z, k), 'l', 'L') then k + 1 else k
    else if Either(c, 'e', 'E') then ExponentEnd(z, i)
    else if Either(c, 'l', 'L') then Suffix(z, i + 1, 'u', 'U')
    else if Either(c, 'u', 'U') then Suffix(z, i + 1, 'l', 'L')
    else i
  }

  /** A directive starts at a `#` that starts a line. */
  predicate StartsDirective(z: string, i: nat) {
    At(z, i) == '#' && (i == 0 || At(z, i - 1) == '\n' || (i > 1 && At(z, i - 1) == '\r' && At(z, i - 2) == '\n'))
  }

  predicate IsDoubling(c: char) {
    c == '=' || c == '<' || c == '>' || c == '+' || c == '-' || c == '*' || c == '%' || c == '^' || c == '&' || c == '|'
  }

  function CutSlash(z: string, i: nat): Cut
    requires i < |z| && z[i] == '/'
  {
    if At(z, i + 1) == '/' then Cut(Comment, Skip(z, i, IsLineChar), 0)
    else if At(z, i + 1) == '*' then
      var (end, errors) := CommentEnd(z, i + 2);
      var b := BlockState(z, i + 2, if i == 0 || z[i - 1] == '\n' then MayBe else NotBlock);
      Cut(if b == Starred then BlockComment else Comment, end, errors)
    else Cut(Other, if At(z, i + 1) == '+' then i + 2 else i + 1, 0)
  }

  /** The token that starts at `i`. */
  function CutAt(z: string, i: nat): Cut {
    if i >= |z| then Cut(Eof, i, 0)
    else
      var c := z[i];
      if c == '#' then
        if StartsDirective(z, i) then Cut(Preprocessor, DirectiveEnd(z, i + 1), 0) else Cut(Other, i + 1, 0)
      else if c == ' ' || c == '\t' || c == '\r' || c == '\U{C}' || c == '\n' then Cut(Space, Skip(z, i, IsSpace), 0)
      else if c == '\\' then
        if i + 1 == |z| then Cut(Other, i + 1, 0)
        else Cut(if z[i + 1] == '\n' then Space else Other, i + 2, 0)
      else if c == '\'' || c == '"' then
        var (end, errors) := LiteralEnd(z, i + 1, c);
        Cut(String, end, errors)
      else if c == '/' then CutSlash(z, i)
      else if c == '0' then
        if Either(At(z, i + 1), 'x', 'X') then Cut(Number, Skip(z, i + 2, IsHexDigit), 0)
        else Cut(Number, Skip(z, i, IsDigit), 0)
      else if IsDigit(c) then Cut(Number, NumberTail(z, Skip(z, i, IsDigit)), 0)
      else if IsLetter(c) then Cut(Id, Skip(z, i, IsIdChar), 0)
      else if c == ':' then Cut(Other, if At(z, i + 1) == ':' then i + 2 else i + 1, 0)
      else if IsDoubling(c) then Cut(Other, if At(z, i + 1) == '=' then i + 2 else i + 1, 0)
      else Cut(Other, i + 1, 0)
  }

  /** The line feeds in z[i..j]. */
  function Newlines(z: string, i: nat, j: nat): (n: nat)
    decreases j - i
  {
    if i >= j then 0 else (if At(z, i) == '\n' then 1 else 0) + Newlines(z, i + 1, j)
  }
}
