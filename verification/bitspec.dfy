/**
 * Reference definitions the branchless code is measured against.  They are
 * written the slow, obvious way -- one bit at a time -- and share nothing with
 * the cascades and mask tests of the generated functions.
 */
module BitSpec {
  import opened Word

  /** Number of significant bits of `x`: one more than the index of its
      highest set bit, and 0 for 0.  Counted one bit at a time. */
  function BitLength(x: bv64): bv64
    decreases x
  {
    if x == 0 then 0 else 1 + BitLength(x >> 1)
  }

  /** Index of the lowest set bit of a non-zero `x`, i.e. the number of clear
      bits below it.  Counted one bit at a time. */
  function TrailingZeros(x: bv64): bv64
    requires x != 0
    decreases x
  {
    if x & 1 == 1 then 0 else 1 + TrailingZeros(x >> 1)
  }

  /** `r` is the number of significant bits of `x`: nothing is set at or above
      bit `r`, and bit `r - 1` is set (so it is the highest set bit). */
  predicate IsBitLength(x: bv64, r: bv64)
  {
    && r <= 64
    && (r < 64 ==> x < 1 << r)
    && (r != 0 ==> 1 << (r - 1) <= x)
  }

  /** `r` is the index of the lowest set bit of `x`: bit `r` is set and every
      bit below it is clear. */
  predicate IsTrailingZeros(x: bv64, r: bv64)
  {
    && r < 64
    && x & (1 << r) != 0
    && x & LowOnes(r) == 0
  }

  lemma BitLengthStep(x: bv64, r: bv64)
    requires x != 0 && IsBitLength(x >> 1, r)
    ensures IsBitLength(x, 1 + r)
  {}

  lemma TrailingZerosBase(x: bv64)
    requires x & 1 == 1
    ensures IsTrailingZeros(x, TrailingZeros(x))
  {}

  lemma TrailingZerosShift(x: bv64, r: bv64)
    requires x & 1 == 0 && IsTrailingZeros(x >> 1, r)
    ensures IsTrailingZeros(x, 1 + r)
  {}

  lemma TrailingZerosStep(x: bv64, r: bv64)
    requires x & 1 == 0 && x != 0 && r == TrailingZeros(x >> 1)
    requires IsTrailingZeros(x >> 1, r)
    ensures IsTrailingZeros(x, TrailingZeros(x))
  {
    TrailingZerosShift(x, r);
  }

  /** The bit-by-bit count finds the highest set bit: `BitLength(x)` is 0
      exactly for 0, and otherwise bit `BitLength(x) - 1` is set with nothing
      above it. */
  lemma {:induction false} BitLengthIsHighestSet(x: bv64)
    ensures IsBitLength(x, BitLength(x))
    ensures BitLength(x) == 0 <==> x == 0
    decreases x
  {
    if x != 0 {
      BitLengthIsHighestSet(x >> 1);
      BitLengthStep(x, BitLength(x >> 1));
    }
  }

  /** The bit-by-bit count finds the lowest set bit of a non-zero word. */
  lemma {:induction false} TrailingZerosIsLowestSet(x: bv64)
    requires x != 0
    ensures IsTrailingZeros(x, TrailingZeros(x))
    decreases x
  {
    if x & 1 == 1 {
      TrailingZerosBase(x);
    } else {
      TrailingZerosIsLowestSet(x >> 1);
      TrailingZerosStep(x, TrailingZeros(x >> 1));
    }
  }

  lemma HighBitBelowWidth(w: Width, x: bv64, r: bv64)
    requires InRange(w, x) && IsBitLength(x, r)
    ensures r <= Bits(w)
  {
    match w
    case W8 =>
    case W16 =>
    case W32 =>
    case W64 =>
  }

  lemma SetBitBelowWidth(w: Width, x: bv64, r: bv64)
    requires InRange(w, x) && IsTrailingZeros(x, r)
    ensures r < Bits(w)
  {
    match w
    case W8 =>
    case W16 =>
    case W32 =>
    case W64 =>
  }

  /** A value of width `w` has at most `Bits(w)` significant bits. */
  lemma {:induction false} BitLengthBound(w: Width, x: bv64)
    requires InRange(w, x)
    ensures BitLength(x) <= Bits(w)
  {
    BitLengthIsHighestSet(x);
    HighBitBelowWidth(w, x, BitLength(x));
  }

  /** The lowest set bit of a non-zero value of width `w` lies below `Bits(w)`. */
  lemma {:induction false} TrailingZerosBound(w: Width, x: bv64)
    requires InRange(w, x) && x != 0
    ensures TrailingZeros(x) < Bits(w)
  {
    TrailingZerosIsLowestSet(x);
    SetBitBelowWidth(w, x, TrailingZeros(x));
  }

  /** `b` is the highest set bit of `x`: a power of two with
      `b <= x < 2 * b` (written `x >> 1 < b` so that it cannot wrap). */
  predicate IsHighestBit(x: bv64, b: bv64)
  {
    PowerOfTwo(b) && b <= x && x >> 1 < b
  }

  /** `b` is the lowest set bit of `x`: a power of two that is set in `x`
      with every bit below it clear. */
  predicate IsLowestBit(x: bv64, b: bv64)
  {
    PowerOfTwo(b) && x & b == b && x & (b - 1) == 0
  }

  /** A word has at most one lowest set bit. */
  lemma LowestBitUnique(x: bv64, b1: bv64, b2: bv64)
    requires IsLowestBit(x, b1) && IsLowestBit(x, b2)
    ensures b1 == b2
  {}

  lemma HighestBitFromLength(x: bv64, r: bv64)
    requires IsBitLength(x, r) && r != 0
    ensures 0 < r <= 64 && IsHighestBit(x, 1 << (r - 1))
  {}

  lemma LowestBitFromCount(x: bv64, r: bv64)
    requires IsTrailingZeros(x, r)
    ensures r < 64 && IsLowestBit(x, 1 << r)
  {}

  /** The highest set bit of a non-zero `x` is `1 << (r - 1)` for
      `r == BitLength(x)`. */
  lemma {:induction false} HighestBitOfLength(x: bv64, r: bv64)
    requires x != 0 && r == BitLength(x)
    ensures 0 < r <= 64 && IsHighestBit(x, 1 << (r - 1))
  {
    BitLengthIsHighestSet(x);
    HighestBitFromLength(x, r);
  }

  /** The lowest set bit of a non-zero `x` is `1 << r` for
      `r == TrailingZeros(x)`. */
  lemma {:induction false} LowestBitOfCount(x: bv64, r: bv64)
    requires x != 0 && r == TrailingZeros(x)
    ensures r < 64 && IsLowestBit(x, 1 << r)
  {
    TrailingZerosIsLowestSet(x);
    LowestBitFromCount(x, r);
  }

  lemma BitLengthDecodeUnique(x: bv64, r1: bv64, r2: bv64)
    requires IsBitLength(x, r1) && IsBitLength(x, r2)
    ensures r1 == r2
  {}

  /** `IsBitLength` pins `BitLength` down: any `r` it accepts is the count. */
  lemma {:induction false} BitLengthIs(x: bv64, r: bv64)
    requires IsBitLength(x, r)
    ensures BitLength(x) == r
  {
    BitLengthIsHighestSet(x);
    BitLengthDecodeUnique(x, BitLength(x), r);
  }

  lemma TrailingZerosDecodeUnique(x: bv64, r1: bv64, r2: bv64)
    requires IsTrailingZeros(x, r1) && IsTrailingZeros(x, r2)
    ensures r1 == r2
  {}

  /** `IsTrailingZeros` pins `TrailingZeros` down. */
  lemma {:induction false} TrailingZerosIs(x: bv64, r: bv64)
    requires x != 0 && IsTrailingZeros(x, r)
    ensures TrailingZeros(x) == r
  {
    TrailingZerosIsLowestSet(x);
    TrailingZerosDecodeUnique(x, TrailingZeros(x), r);
  }
}
