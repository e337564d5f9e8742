/** A packed bitmap: eight bits to a byte; ranges are set and cleared with masks at their ends. */
module Bitmap {
  /** `BIT_GET` within a byte. */
  predicate BitOf(b: bv8, k: nat)
    requires k < 8
  {
    (b >> k) & 1 == 1
  }

  /** `BIT_GET`. */
  predicate Bit(map_: seq<bv8>, i: nat)
    requires i / 8 < |map_|
  {
    BitOf(map_[i / 8], i % 8)
  }

  /** `n` one bits, in a 32-bit word. */
  function Ones(n: nat): bv32
    requires n <= 8
  {
    ((1 as bv32) << n) - 1
  }

  function Byte(w: bv32): bv8 {
    (w & 0xFF) as bv8
  }

  function Or(a: bv8, b: bv8): bv8 { a | b }

  function And(a: bv8, b: bv8): bv8 { a & b }

  lemma OrBits(a: bv8, b: bv8, k: nat)
    requires k < 8
    ensures BitOf(Or(a, b), k) <==> BitOf(a, k) || BitOf(b, k)
  {
    if k < 4 {
      assert k == 0 || k == 1 || k == 2 || k == 3;
    } else {
      assert k == 4 || k == 5 || k == 6 || k == 7;
    }
  }

  lemma AndBits(a: bv8, b: bv8, k: nat)
    requires k < 8
    ensures BitOf(And(a, b), k) <==> BitOf(a, k) && BitOf(b, k)
  {
    if k < 4 {
      assert k == 0 || k == 1 || k == 2 || k == 3;
    } else {
      assert k == 4 || k == 5 || k == 6 || k == 7;
    }
  }

  // The masks the source builds: for a range inside one byte, for the first byte of a longer range, and for its
  // last byte; each to set bits with and to clear them with.

  function WithinMask(lo: nat, hi: nat, on: bool): bv8
    requires lo <= hi < 8
  {
    if on then Byte(Ones(hi - lo + 1) << lo) else Byte(!(Ones(hi - lo + 1) << lo))
  }

  function FromMask(lo: nat, on: bool): bv8
    requires lo < 8
  {
    if on then Byte(0xFF << lo) else Byte(Ones(lo))
  }

  function UpToMask(hi: nat, on: bool): bv8
    requires hi < 8
  {
    if on then Byte(Ones(hi + 1)) else Byte(!Ones(hi + 1))
  }

  lemma WithinMaskBits(lo: nat, hi: nat, on: bool, k: nat)
    requires lo <= hi < 8 && k < 8
    ensures BitOf(WithinMask(lo, hi, on), k) == ((lo <= k <= hi) == on)
  {
  }

  lemma FromMaskBits(lo: nat, on: bool, k: nat)
    requires lo < 8 && k < 8
    ensures BitOf(FromMask(lo, on), k) == ((lo <= k) == on)
  {
  }

  lemma UpToMaskBits(hi: nat, on: bool, k: nat)
    requires hi < 8 && k < 8
    ensures BitOf(UpToMask(hi, on), k) == ((k <= hi) == on)
  {
  }

  /** A byte with the bits of a mask set or, with the complementary mask, cleared. */
  function Apply(b: bv8, mask: bv8, on: bool): bv8 {
    if on then Or(b, mask) else And(b, mask)
  }

  lemma ApplyBits(b: bv8, mask: bv8, on: bool, k: nat)
    requires k < 8
    ensures BitOf(Apply(b, mask, on), k) == if BitOf(mask, k) == on then on else BitOf(b, k)
  {
    hide BitOf;
    hide Or;
    hide And;
    OrBits(b, mask, k);
    AndBits(b, mask, k);
  }

  lemma FullAndEmpty(k: nat)
    requires k < 8
    ensures BitOf(0xFF, k) && !BitOf(0, k)
  {
  }

  /** The bits of a range, and no others, become `value`. */
  ghost predicate RangeBecomes(before: seq<bv8>, after: seq<bv8>, start: nat, end: nat, value: bool) {
    && |after| == |before|
    && forall i :: 0 <= i < 8 * |before| ==> Bit(after, i) == if start <= i <= end then value else Bit(before, i)
  }

  /** What the two operations do to the bytes of the range. */
  ghost predicate BytesBecome(before: seq<bv8>, after: seq<bv8>, start: nat, end: nat, value: bool)
    requires start <= end && end / 8 < |before|
  {
    var s, e := start / 8, end / 8;
    && |after| == |before|
    && (forall k :: 0 <= k < |before| && (k < s || k > e) ==> after[k] == before[k])
    && (forall k :: s < k < e ==> after[k] == if value then 0xFF else 0)
    && if s == e then after[s] == Apply(before[s], WithinMask(start % 8, end % 8, value), value)
       else
         && after[s] == Apply(before[s], FromMask(start % 8, value), value)
         && after[e] == Apply(before[e], UpToMask(end % 8, value), value)
  }

  lemma BytesToBits(before: seq<bv8>, after: seq<bv8>, start: nat, end: nat, value: bool)
    requires start <= end && end / 8 < |before| && BytesBecome(before, after, start, end, value)
    ensures RangeBecomes(before, after, start, end, value)
  {
    hide BitOf;
    hide Apply;
    hide WithinMask;
    hide FromMask;
    hide UpToMask;
    forall i | 0 <= i < 8 * |before|
      ensures Bit(after, i) == if start <= i <= end then value else Bit(before, i)
    {
      var b, k := before[i / 8], i % 8;
      FullAndEmpty(k);
      if start / 8 == end / 8 == i / 8 {
        WithinMaskBits(start % 8, end % 8, value, k);
        ApplyBits(b, WithinMask(start % 8, end % 8, value), value, k);
      } else if start / 8 == i / 8 {
        FromMaskBits(start % 8, value, k);
        ApplyBits(b, FromMask(start % 8, value), value, k);
      } else if end / 8 == i / 8 {
        UpToMaskBits(end % 8, value, k);
        ApplyBits(b, UpToMask(end % 8, value), value, k);
      }
    }
  }

  /** Sets the bits start..end: masks at the ends, whole bytes between. */
  method SetRange(bits: array<bv8>, start: nat, end: nat)
    requires start <= end && end / 8 < bits.Length
    modifies bits
    ensures RangeBecomes(old(bits[..]), bits[..], start, end, true)
  {
    hide Apply;
    hide WithinMask;
    hide FromMask;
    hide UpToMask;
    hide RangeBecomes;
    var startByte, endByte := start / 8, end / 8;
    if startByte == endByte {
      bits[startByte] := Apply(bits[startByte], WithinMask(start % 8, end % 8, true), true);
    } else {
      bits[startByte] := Apply(bits[startByte], FromMask(start % 8, true), true);
      if endByte > startByte + 1 {
        forall k | startByte < k < endByte {
          bits[k] := 0xFF;
        }
      }
      bits[endByte] := Apply(bits[endByte], UpToMask(end % 8, true), true);
    }
    BytesToBits(old(bits[..]), bits[..], start, end, true);
  }

  /** Clears the bits start..end. */
  method UnsetRange(bits: array<bv8>, start: nat, end: nat)
    requires start <= end && end / 8 < bits.Length
    modifies bits
    ensures RangeBecomes(old(bits[..]), bits[..], start, end, false)
  {
    hide Apply;
    hide WithinMask;
    hide FromMask;
    hide UpToMask;
    hide RangeBecomes;
    var startByte, endByte := start / 8, end / 8;
    if startByte == endByte {
      bits[startByte] := Apply(bits[startByte], WithinMask(start % 8, end % 8, false), false);
    } else {
      bits[startByte] := Apply(bits[startByte], FromMask(start % 8, false), false);
      if endByte > startByte + 1 {
        forall k | startByte < k < endByte {
          bits[k] := 0;
        }
      }
      bits[endByte] := Apply(bits[endByte], UpToMask(end % 8, false), false);
    }
    BytesToBits(old(bits[..]), bits[..], start, end, false);
  }
}
