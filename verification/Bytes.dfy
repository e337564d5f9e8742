/** Bytes, and the width of the C types that hold sizes. */
module Bytes {
  /** A C `char`; its code is the value of the byte read as unsigned. */
  type Byte = char

  const DEL: Byte := '\U{7F}'

  /** The number of values of the 64-bit unsigned types `size_t` and `uint64_t`. */
  const TWO_TO_THE_64: int := 0x1_0000_0000_0000_0000

  /** Unsigned 64-bit arithmetic keeps the low 64 bits of a result. */
  function Wrap64(n: int): (r: nat)
    ensures r < TWO_TO_THE_64
  {
    n % TWO_TO_THE_64
  }

  /** `piece` stands in `s` at position `i`. */
  ghost predicate At(s: seq<Byte>, i: nat, piece: seq<Byte>) {
    i + |piece| <= |s| && s[i..i + |piece|] == piece
  }

  lemma AtBoth(s: seq<Byte>, i: nat, a: seq<Byte>, b: seq<Byte>)
    ensures At(s, i, a + b) <==> At(s, i, a) && At(s, i + |a|, b)
  {
    if At(s, i, a + b) {
      assert a == (a + b)[..|a|] && b == (a + b)[|a|..];
    }
    if At(s, i, a) && At(s, i + |a|, b) {
      assert s[i..i + |a + b|] == a + b;
    }
  }

  lemma AtByte(s: seq<Byte>, i: nat, piece: seq<Byte>, k: nat)
    requires At(s, i, piece) && k < |piece|
    ensures i + |piece| <= |s| && s[i + k] == piece[k]
  {
  }

  lemma AtSlice(s: seq<Byte>, i: nat, piece: seq<Byte>)
    requires At(s, i, piece)
    ensures i + |piece| <= |s| && s[i..i + |piece|] == piece
  {
  }

  lemma SliceAt(s: seq<Byte>, i: nat, j: nat)
    requires i <= j <= |s|
    ensures At(s, i, s[i..j]) && |s[i..j]| == j - i
    ensures forall k :: 0 <= k < j - i ==> s[i..j][k] == s[i + k]
  {
  }
}
