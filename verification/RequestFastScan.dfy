/** The scans as the parser performs them: in blocks of 16 bytes where the processor compares ranges, by eight
    characters at a time where it does not. Each finds what the plain scan finds. */
module RequestFastScan {
  import opened Bytes
  import opened RequestSpec

  /** Inclusive ranges of byte values. */
  type Ranges = seq<(Byte, Byte)>

  predicate InRanges(ranges: Ranges, c: Byte) {
    exists k :: 0 <= k < |ranges| && ranges[k].0 <= c <= ranges[k].1
  }

  /** The block comparison works on byte values only. */
  ghost predicate IsBytes(b: seq<Byte>) {
    forall k :: 0 <= k < |b| ==> b[k] as int < 256
  }

  const MAX_BYTE: Byte := 255 as char

  /** Everything that is not a token character, and the two token characters `|` and `~`. */
  const TOKEN_RANGES: Ranges :=
    [('\0', ' '), ('"', '"'), ('(', ')'), (',', ','), ('/', '/'), (':', '@'), ('[', ']'), ('{', MAX_BYTE)]

  /** Control characters but the tab. */
  const TEXT_RANGES: Ranges := [('\0', '\U{8}'), ('\n', '\U{1F}'), (DEL, DEL)]

  /** Control characters and the space. */
  const PATH_RANGES: Ranges := [('\0', ' '), (DEL, DEL)]

  /** The block comparison: the least index of one of 16 bytes that lies in a range, or 16. */
  function CompareBlock(ranges: Ranges, block: seq<Byte>): (r: nat)
    requires |block| == 16
    ensures r <= 16
    ensures forall k :: 0 <= k < r ==> !InRanges(ranges, block[k])
    ensures r < 16 ==> InRanges(ranges, block[r])
  {
    LeastInRanges(ranges, block, 0)
  }

  function LeastInRanges(ranges: Ranges, block: seq<Byte>, i: nat): (r: nat)
    requires i <= |block|
    ensures i <= r <= |block|
    ensures forall k :: i <= k < r ==> !InRanges(ranges, block[k])
    ensures r < |block| ==> InRanges(ranges, block[r])
    decreases |block| - i
  {
    if i == |block| || InRanges(ranges, block[i]) then i else LeastInRanges(ranges, block, i + 1)
  }

  /** Skips whole blocks without a byte in the ranges; without the block comparison it skips nothing. */
  method FindCharFast(b: seq<Byte>, i: nat, ranges: Ranges, blocks: bool) returns (j: nat, found: bool)
    requires i <= |b|
    ensures i <= j <= |b|
    ensures forall k :: i <= k < j ==> !InRanges(ranges, b[k])
    ensures found ==> j < |b| && InRanges(ranges, b[j])
    ensures !blocks ==> j == i && !found
  {
    j, found := i, false;
    if blocks && |b| - i >= 16 {
      var left := (|b| - i) - (|b| - i) % 16;
      while true
        invariant i <= j && 0 < left <= |b| - j && left % 16 == 0
        invariant forall k :: i <= k < j ==> !InRanges(ranges, b[k])
        decreases left
      {
        var r := CompareBlock(ranges, b[j..j + 16]);
        forall k | j <= k < j + r
          ensures !InRanges(ranges, b[k])
        {
          assert b[j..j + 16][k - j] == b[k];
        }
        if r != 16 {
          return j + r, true;
        }
        j := j + 16;
        left := left - 16;
        if left == 0 { break; }
      }
    }
  }

  lemma TokenOutside(c: Byte)
    requires c as int < 256 && !InRanges(TOKEN_RANGES, c)
    ensures IsTokenChar(c) && c != ' ' && c != ':'
  {
    OutsideEach(TOKEN_RANGES, c);
    assert TOKEN_RANGES[0] == ('\0', ' ') && TOKEN_RANGES[1] == ('"', '"') && TOKEN_RANGES[2] == ('(', ')');
    assert TOKEN_RANGES[3] == (',', ',') && TOKEN_RANGES[4] == ('/', '/') && TOKEN_RANGES[5] == (':', '@');
    assert TOKEN_RANGES[6] == ('[', ']') && TOKEN_RANGES[7] == ('{', MAX_BYTE);
  }

  lemma TextOutside(c: Byte)
    ensures InRanges(TEXT_RANGES, c) <==> EndsText(c)
  {
    if !InRanges(TEXT_RANGES, c) {
      OutsideEach(TEXT_RANGES, c);
      assert TEXT_RANGES[0] == ('\0', '\U{8}') && TEXT_RANGES[1] == ('\n', '\U{1F}') && TEXT_RANGES[2] == (DEL, DEL);
    }
    if EndsText(c) {
      assert TEXT_RANGES[if c == DEL then 2 else if c < '\t' then 0 else 1].0 <= c;
    }
  }

  lemma PathOutside(c: Byte)
    ensures InRanges(PATH_RANGES, c) <==> IsControl(c) || c == ' '
  {
    if !InRanges(PATH_RANGES, c) {
      OutsideEach(PATH_RANGES, c);
      assert PATH_RANGES[0] == ('\0', ' ') && PATH_RANGES[1] == (DEL, DEL);
    }
    if IsControl(c) || c == ' ' {
      assert PATH_RANGES[if c == DEL then 1 else 0].0 <= c;
    }
  }

  lemma OutsideEach(ranges: Ranges, c: Byte)
    requires !InRanges(ranges, c)
    ensures forall k :: 0 <= k < |ranges| ==> c < ranges[k].0 || ranges[k].1 < c
  {
  }

  lemma {:induction false} SkipToken(b: seq<Byte>, i: nat, j: nat, next: Byte)
    requires i <= j <= |b| && forall k :: i <= k < j ==> IsTokenChar(b[k]) && b[k] != next
    ensures TokenEnd(b, i, next) == TokenEnd(b, j, next)
    decreases j - i
  {
    if i < j {
      SkipToken(b, i + 1, j, next);
    }
  }

  lemma {:induction false} SkipPath(b: seq<Byte>, i: nat, j: nat)
    requires i <= j <= |b| && forall k :: i <= k < j ==> !IsControl(b[k]) && b[k] != ' '
    ensures PathEnd(b, i) == PathEnd(b, j)
    decreases j - i
  {
    if i < j {
      SkipPath(b, i + 1, j);
    }
  }

  lemma {:induction false} SkipText(b: seq<Byte>, i: nat, j: nat)
    requires i <= j <= |b| && forall k :: i <= k < j ==> !EndsText(b[k])
    ensures TextEnd(b, i) == TextEnd(b, j)
    decreases j - i
  {
    if i < j {
      SkipText(b, i + 1, j);
    }
  }

  /** `parse_token`: both delimiters in use are in the ranges, so no block that is skipped hides one. */
  method ParseToken(b: seq<Byte>, start: nat, next: Byte, blocks: bool) returns (r: Scan)
    requires start <= |b| && IsBytes(b) && (next == ' ' || next == ':')
    ensures r == TokenEnd(b, start, next)
  {
    var i, found := FindCharFast(b, start, TOKEN_RANGES, blocks);
    forall k | start <= k < i
      ensures IsTokenChar(b[k]) && b[k] != next
    {
      TokenOutside(b[k]);
    }
    SkipToken(b, start, i, next);
    if !found && i == |b| { return More; }
    while true
      invariant start <= i < |b| && TokenEnd(b, start, next) == TokenEnd(b, i, next)
      decreases |b| - i
    {
      if b[i] == next {
        return Found(i);
      } else if !IsTokenChar(b[i]) {
        return Bad;
      }
      i := i + 1;
      if i == |b| { return More; }
    }
  }

  /** `ADVANCE_TOKEN`: up to a space; bytes from 0x80 on belong to the path. */
  method AdvancePath(b: seq<Byte>, start: nat, blocks: bool) returns (r: Scan)
    requires start <= |b|
    ensures r == PathEnd(b, start)
  {
    var i, found := FindCharFast(b, start, PATH_RANGES, blocks);
    forall k | start <= k < i
      ensures !IsControl(b[k]) && b[k] != ' '
    {
      PathOutside(b[k]);
    }
    SkipPath(b, start, i);
    if !found && i == |b| { return More; }
    while true
      invariant start <= i < |b| && PathEnd(b, start) == PathEnd(b, i)
      decreases |b| - i
    {
      if b[i] == ' ' {
        return Found(i);
      } else if !IsPrintableAscii(b[i]) {
        if b[i] < ' ' || b[i] == DEL { return Bad; }
      }
      i := i + 1;
      if i == |b| { return More; }
    }
  }

  /** The end of a text by blocks. */
  method FindTextEndByBlocks(b: seq<Byte>, start: nat) returns (r: Scan)
    requires start <= |b|
    ensures r == TextEnd(b, start)
  {
    var i, found := FindCharFast(b, start, TEXT_RANGES, true);
    forall k | start <= k < i
      ensures !EndsText(b[k])
    {
      TextOutside(b[k]);
    }
    SkipText(b, start, i);
    if found {
      TextOutside(b[i]);
      return Found(i);
    }
    r := FindTextEndSlowly(b, i);
  }

  /** The end of a text by eight characters at a time, while eight are left. */
  method FindTextEndByEights(b: seq<Byte>, start: nat) returns (r: Scan)
    requires start <= |b|
    ensures r == TextEnd(b, start)
  {
    var i := start;
    while |b| - i >= 8
      invariant start <= i <= |b| && TextEnd(b, start) == TextEnd(b, i)
      decreases |b| - i
    {
      var n := 0;
      ghost var from := i;
      while n < 8 && IsPrintableAscii(b[i])
        invariant 0 <= n <= 8 && i == from + n
        invariant TextEnd(b, start) == TextEnd(b, i)
      {
        i := i + 1;
        n := n + 1;
      }
      if n < 8 {
        if (b[i] < ' ' && b[i] != '\t') || b[i] == DEL { return Found(i); }
        i := i + 1;
      }
    }
    r := FindTextEndSlowly(b, i);
  }

  method FindTextEndSlowly(b: seq<Byte>, start: nat) returns (r: Scan)
    requires start <= |b|
    ensures r == TextEnd(b, start)
  {
    var i := start;
    while true
      invariant start <= i <= |b| && TextEnd(b, start) == TextEnd(b, i)
      decreases |b| - i
    {
      if i == |b| { return More; }
      if !IsPrintableAscii(b[i]) {
        if (b[i] < ' ' && b[i] != '\t') || b[i] == DEL { return Found(i); }
      }
      i := i + 1;
    }
  }
}
