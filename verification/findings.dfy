/**
 * Configurations in which a generated function does not do what its comment
 * promises, each next to a corrected definition with the promised property.
 *
 * - fls and ffs with `start_from = 0`: the return statement subtracts
 *   `!start_from` only when the preserved bit is zero, i.e. for the input 0,
 *   so 0 wraps to the all-ones value and 1 is still reported at index 1.
 *   Subtracting it when the bit is non-zero (`!!x` for `!x`) gives the
 *   documented 0-based index and 0 for 0.
 * - clz with `nonzero_exception = 0`: the width is multiplied by
 *   `!!nonzero_exception`, so every non-zero input is counted from 0 instead
 *   of from the width.  Selecting the width when the exception is on OR the
 *   input is non-zero gives the documented count.
 * - ctz with `nonzero_exception != 0`: the correction `(!nonzero_exception)
 *   && x` vanishes, so the 1-based ffs result comes back unchanged: 0 for 0
 *   and one too many otherwise.  Subtracting `!!x` always and adding the
 *   width for an exceptional 0 gives the documented count.
 */
module Findings {
  import opened Word
  import opened BitSpec
  import opened Msb
  import opened Lsb
  import opened Locate
  import opened Scan

  // fls and ffs with start_from = 0

  /** The fls return statement with `!!x` where the source has `!x`. */
  function FlsFixedReturn(ow: Width, startFrom: bv64, pos: bv64, msb: bv64): (r: bv64)
    ensures InRange(ow, r)
  {
    Store(ow, pos - (Not(startFrom) & Flag(msb)))
  }

  /** Corrected `gen_fls_branchless`. */
  function FlsFixed(w: Width, ow: Width, startFrom: bv64, x: bv64): (r: bv64)
    requires InRange(w, x)
    ensures InRange(ow, r)
  {
    var msb := PreserveMSB(w, x);
    FlsFixedReturn(ow, startFrom, LocateBit(w, ow, msb), msb)
  }

  /** The ffs return statement with `!!x` where the source has `!x`. */
  function FfsFixedReturn(ow: Width, startFrom: bv64, pos: bv64, lsb: bv64): (r: bv64)
    ensures InRange(ow, r)
  {
    Store(ow, pos - LogicalAnd(Not(startFrom), Flag(lsb)))
  }

  /** Corrected `gen_ffs_branchless`. */
  function FfsFixed(w: Width, ow: Width, startFrom: bv64, x: bv64): (r: bv64)
    requires InRange(w, x)
    ensures InRange(ow, r)
  {
    var lsb := PreserveLSB(w, x);
    FfsFixedReturn(ow, startFrom, LocateBit(w, ow, lsb), lsb)
  }

  /** As written, fls with `start_from = 0` returns the all-ones value for
      0, and still reports bit 0 at index 1. */
  lemma {:induction false} FlsStartFromZeroAsWritten(w: Width, ow: Width)
    ensures Fls(w, ow, 0, 0) == Mask(ow) && Fls(w, ow, 0, 1) == 1
  {
    FlsOfZero(w, ow, 0);
    SmallValuesInRange(w);
    BitLengthOfOne();
    FlsOfLength(w, ow, 0, 1, 1);
  }

  /** As written, ffs with `start_from = 0` does the same. */
  lemma {:induction false} FfsStartFromZeroAsWritten(w: Width, ow: Width)
    ensures Ffs(w, ow, 0, 0) == Mask(ow) && Ffs(w, ow, 0, 1) == 1
  {
    FfsOfZero(w, ow, 0);
    SmallValuesInRange(w);
    TrailingZerosOfOne();
    FfsOfCount(w, ow, 0, 1, 0);
  }

  lemma TrailingZerosOfOne()
    ensures TrailingZeros(1) == 0
  {}

  /** On a set bit, the corrected return statements subtract `!start_from`
      from the located position. */
  lemma FlsFixedReturnAt(ow: Width, startFrom: bv64, pos: bv64, msb: bv64)
    requires msb != 0 && 0 < pos <= 64
    ensures FlsFixedReturn(ow, startFrom, pos, msb) == pos - Not(startFrom)
  {
    SmallFits(ow, pos - Not(startFrom));
  }

  lemma FfsFixedReturnOfIndex(ow: Width, startFrom: bv64, k: bv64, lsb: bv64)
    requires lsb != 0 && k < 64
    ensures FfsFixedReturn(ow, startFrom, k + 1, lsb) == k + 1 - Not(startFrom)
  {
    SmallFits(ow, k + 1 - Not(startFrom));
  }

  lemma FlsFixedAt(w: Width, ow: Width, startFrom: bv64, x: bv64, b: bv64, v: bv64, c: bv64)
    requires InRange(w, x) && PreserveMSB(w, x) == b
    requires LocateBit(w, ow, b) == v && FlsFixedReturn(ow, startFrom, v, b) == c
    ensures FlsFixed(w, ow, startFrom, x) == c
  {}

  lemma FfsFixedAt(w: Width, ow: Width, startFrom: bv64, x: bv64, b: bv64, v: bv64, c: bv64)
    requires InRange(w, x) && PreserveLSB(w, x) == b
    requires LocateBit(w, ow, b) == v && FfsFixedReturn(ow, startFrom, v, b) == c
    ensures FfsFixed(w, ow, startFrom, x) == c
  {}

  lemma {:induction false} FlsFixedOfLength(w: Width, ow: Width, startFrom: bv64, x: bv64, r: bv64)
    requires InRange(w, x) && x != 0 && r == BitLength(x)
    ensures FlsFixed(w, ow, startFrom, x) == r - Not(startFrom)
  {
    MsbOfLength(w, x, r);
    LocateBitOfLength(w, ow, r);
    FlsFixedReturnAt(ow, startFrom, r, 1 << (r - 1));
    FlsFixedAt(w, ow, startFrom, x, 1 << (r - 1), r, r - Not(startFrom));
  }

  lemma {:induction false} FfsFixedOfCount(w: Width, ow: Width, startFrom: bv64, x: bv64, r: bv64)
    requires InRange(w, x) && x != 0 && r == TrailingZeros(x)
    ensures FfsFixed(w, ow, startFrom, x) == r + 1 - Not(startFrom)
  {
    LsbOfCount(w, x, r);
    LocateBitOfSingle(w, ow, r);
    FfsFixedReturnOfIndex(ow, startFrom, r, 1 << r);
    FfsFixedAt(w, ow, startFrom, x, 1 << r, r + 1, r + 1 - Not(startFrom));
  }

  lemma FlsFixedOfZero(w: Width, ow: Width, startFrom: bv64)
    ensures FlsFixed(w, ow, startFrom, 0) == 0
  {
    PreserveMsbZero(w);
    LocateBitZero(w, ow);
    FlsFixedAt(w, ow, startFrom, 0, 0, 0, 0);
  }

  lemma FfsFixedOfZero(w: Width, ow: Width, startFrom: bv64)
    ensures FfsFixed(w, ow, startFrom, 0) == 0
  {
    PreserveLsbZero(w);
    LocateBitZero(w, ow);
    FfsFixedAt(w, ow, startFrom, 0, 0, 0, 0);
  }

  /** Corrected fls returns 0 for 0, and otherwise the index of the highest
      set bit counted from `start_from`. */
  lemma {:induction false} FlsFixedIndexesHighestBit(w: Width, ow: Width, startFrom: bv64, x: bv64, r: bv64)
    requires InRange(w, x) && r == BitLength(x)
    ensures FlsFixed(w, ow, startFrom, x) == if x == 0 then 0 else r - Not(startFrom)
  {
    if x == 0 {
      FlsFixedOfZero(w, ow, startFrom);
    } else {
      FlsFixedOfLength(w, ow, startFrom, x, r);
    }
  }

  /** Corrected ffs returns 0 for 0, and otherwise the index of the lowest
      set bit counted from `start_from`. */
  lemma {:induction false} FfsFixedIndexesLowestBit(w: Width, ow: Width, startFrom: bv64, x: bv64)
    requires InRange(w, x)
    ensures FfsFixed(w, ow, startFrom, x) == if x == 0 then 0 else TrailingZeros(x) + 1 - Not(startFrom)
  {
    if x == 0 {
      FfsFixedOfZero(w, ow, startFrom);
    } else {
      FfsFixedOfCount(w, ow, startFrom, x, TrailingZeros(x));
    }
  }

  /** With `start_from = 0`, corrected fls gives 0 for both 0 and 1. */
  lemma {:induction false} FlsFixedStartFromZero(w: Width, ow: Width)
    ensures FlsFixed(w, ow, 0, 0) == 0 && FlsFixed(w, ow, 0, 1) == 0
  {
    FlsFixedOfZero(w, ow, 0);
    SmallValuesInRange(w);
    BitLengthOfOne();
    FlsFixedOfLength(w, ow, 0, 1, 1);
  }

  /** With `start_from = 0`, corrected fls gives the top bit's index, one
      less than the width, for all ones. */
  lemma {:induction false} FlsFixedOfAllOnes(w: Width, ow: Width)
    ensures FlsFixed(w, ow, 0, Mask(w)) == Bits(w) - 1
  {
    MaskInRange(w);
    BitLengthOfMask(w);
    FlsFixedOfLength(w, ow, 0, Mask(w), Bits(w));
  }

  /** With `start_from = 0`, corrected ffs gives 0 for both 0 and 1. */
  lemma {:induction false} FfsFixedStartFromZero(w: Width, ow: Width)
    ensures FfsFixed(w, ow, 0, 0) == 0 && FfsFixed(w, ow, 0, 1) == 0
  {
    FfsFixedOfZero(w, ow, 0);
    SmallValuesInRange(w);
    TrailingZerosOfOne();
    FfsFixedOfCount(w, ow, 0, 1, 0);
  }

  /** The correction changes nothing for `start_from = 1`. */
  lemma {:induction false} FlsFixedAgrees(w: Width, ow: Width, startFrom: bv64, x: bv64)
    requires InRange(w, x) && startFrom != 0
    ensures FlsFixed(w, ow, startFrom, x) == Fls(w, ow, startFrom, x)
  {
    if x == 0 {
      FlsFixedOfZero(w, ow, startFrom);
      FlsOfZero(w, ow, startFrom);
    } else {
      FlsFixedAgreesOfLength(w, ow, startFrom, x, BitLength(x));
    }
  }

  lemma {:induction false} FlsFixedAgreesOfLength(w: Width, ow: Width, startFrom: bv64, x: bv64, r: bv64)
    requires InRange(w, x) && x != 0 && startFrom != 0 && r == BitLength(x)
    ensures FlsFixed(w, ow, startFrom, x) == Fls(w, ow, startFrom, x)
  {
    FlsFixedOfLength(w, ow, startFrom, x, r);
    FlsOfLength(w, ow, startFrom, x, r);
  }

  lemma {:induction false} FfsFixedAgrees(w: Width, ow: Width, startFrom: bv64, x: bv64)
    requires InRange(w, x) && startFrom != 0
    ensures FfsFixed(w, ow, startFrom, x) == Ffs(w, ow, startFrom, x)
  {
    if x == 0 {
      FfsFixedOfZero(w, ow, startFrom);
      FfsOfZero(w, ow, startFrom);
    } else {
      FfsFixedAgreesOfCount(w, ow, startFrom, x, TrailingZeros(x));
    }
  }

  lemma {:induction false} FfsFixedAgreesOfCount(w: Width, ow: Width, startFrom: bv64, x: bv64, r: bv64)
    requires InRange(w, x) && x != 0 && startFrom != 0 && r == TrailingZeros(x)
    ensures FfsFixed(w, ow, startFrom, x) == Ffs(w, ow, startFrom, x)
  {
    FfsFixedOfCount(w, ow, startFrom, x, r);
    FfsOfCount(w, ow, startFrom, x, r);
  }

  // clz with nonzero_exception = 0

  /** The clz return statement with `!!nonzero_exception | !!x` where the
      source has `!!nonzero_exception`: the width is counted from whenever
      the exception is on or the input is non-zero. */
  function ClzFixedReturn(w: Width, ow: Width, nonzeroException: bv64, x: bv64, fls: bv64): (r: bv64)
    ensures InRange(ow, r)
  {
    ClzReturn(w, ow, Flag(nonzeroException) | Flag(x), fls)
  }

  /** Corrected `gen_clz_branchless`. */
  function ClzFixed(w: Width, ow: Width, nonzeroException: bv64, x: bv64): (r: bv64)
    requires InRange(w, x)
    ensures InRange(ow, r)
  {
    ClzFixedReturn(w, ow, nonzeroException, x, Fls(w, ow, 1, x))
  }

  /** As written, clz without the exception returns 0 - 1, the all-ones
      value, for 1. */
  lemma {:induction false} ClzWithoutExceptionOfOne(w: Width, ow: Width)
    ensures Clz(w, ow, 0, 1) == Mask(ow)
  {
    SmallValuesInRange(w);
    BitLengthOfOne();
    ClzWithoutExceptionAsWritten(w, ow, 1, 1);
    MinusOneIsMask(ow);
  }

  lemma MinusOneIsMask(ow: Width)
    ensures Store(ow, 0 - 1) == Mask(ow)
  {}

  lemma ClzFixedReturnOfLength(w: Width, ow: Width, nonzeroException: bv64, x: bv64, v: bv64)
    requires x != 0 && v <= Bits(w)
    ensures ClzFixedReturn(w, ow, nonzeroException, x, v) == Bits(w) - v
  {
    FlagOr(nonzeroException, x);
    ClzReturnOfLength(w, ow, Flag(nonzeroException) | Flag(x), v);
  }

  lemma ClzFixedReturnOfZero(w: Width, ow: Width, nonzeroException: bv64)
    ensures ClzFixedReturn(w, ow, nonzeroException, 0, 0) == if nonzeroException == 0 then 0 else Bits(w)
  {
    FlagOr(nonzeroException, 0);
    if nonzeroException == 0 {
      ClzReturnWithoutException(w, ow, 0);
    } else {
      ClzReturnOfZero(w, ow, Flag(nonzeroException) | Flag(0));
    }
  }

  lemma ClzFixedAt(w: Width, ow: Width, nonzeroException: bv64, x: bv64, v: bv64, c: bv64)
    requires InRange(w, x) && Fls(w, ow, 1, x) == v && ClzFixedReturn(w, ow, nonzeroException, x, v) == c
    ensures ClzFixed(w, ow, nonzeroException, x) == c
  {}

  lemma {:induction false} ClzFixedOfLength(w: Width, ow: Width, nonzeroException: bv64, x: bv64, r: bv64)
    requires InRange(w, x) && x != 0 && r == BitLength(x)
    ensures ClzFixed(w, ow, nonzeroException, x) == Bits(w) - r
  {
    MsbOfLength(w, x, r);
    FlsOfLength(w, ow, 1, x, r);
    ClzFixedReturnOfLength(w, ow, nonzeroException, x, r);
    ClzFixedAt(w, ow, nonzeroException, x, r, Bits(w) - r);
  }

  lemma ClzFixedOfZero(w: Width, ow: Width, nonzeroException: bv64)
    ensures ClzFixed(w, ow, nonzeroException, 0) == if nonzeroException == 0 then 0 else Bits(w)
  {
    FlsOfZero(w, ow, 1);
    ClzFixedReturnOfZero(w, ow, nonzeroException);
    ClzFixedAt(w, ow, nonzeroException, 0, 0, ClzFixedReturn(w, ow, nonzeroException, 0, 0));
  }

  /** Corrected clz counts the clear bits above the highest set bit of a
      non-zero input, whatever `nonzero_exception` is; for 0 it returns 0
      or the width as the exception selects. */
  lemma {:induction false} ClzFixedCountsLeadingZeros(w: Width, ow: Width, nonzeroException: bv64, x: bv64, r: bv64)
    requires InRange(w, x) && r == BitLength(x)
    ensures ClzFixed(w, ow, nonzeroException, x)
      == if x != 0 then Bits(w) - r else if nonzeroException == 0 then 0 else Bits(w)
  {
    if x == 0 {
      ClzFixedOfZero(w, ow, nonzeroException);
    } else {
      ClzFixedOfLength(w, ow, nonzeroException, x, r);
    }
  }

  /** C's `!!a | !!b` is 1 exactly when either is non-zero. */
  lemma FlagOr(a: bv64, b: bv64)
    ensures Flag(a) | Flag(b) == 1 <==> a != 0 || b != 0
  {}

  /** The correction changes nothing with the exception on. */
  lemma {:induction false} ClzFixedAgrees(w: Width, ow: Width, nonzeroException: bv64, x: bv64)
    requires InRange(w, x) && nonzeroException != 0
    ensures ClzFixed(w, ow, nonzeroException, x) == Clz(w, ow, nonzeroException, x)
  {
    if x == 0 {
      ClzFixedOfZero(w, ow, nonzeroException);
      ClzOfZero(w, ow, nonzeroException);
    } else {
      ClzFixedAgreesOfLength(w, ow, nonzeroException, x, BitLength(x));
    }
  }

  lemma {:induction false} ClzFixedAgreesOfLength(w: Width, ow: Width, nonzeroException: bv64, x: bv64, r: bv64)
    requires InRange(w, x) && x != 0 && nonzeroException != 0 && r == BitLength(x)
    ensures ClzFixed(w, ow, nonzeroException, x) == Clz(w, ow, nonzeroException, x)
  {
    ClzFixedOfLength(w, ow, nonzeroException, x, r);
    ClzOfLength(w, ow, nonzeroException, x, r);
  }

  // ctz with nonzero_exception != 0

  /** The ctz return statement subtracting `!!x` and adding the width for an
      exceptional 0, `(!!nonzero_exception && !x) * sizeof(in_type) * 8`. */
  function CtzFixedReturn(w: Width, ow: Width, nonzeroException: bv64, ffs: bv64, x: bv64): (r: bv64)
    ensures InRange(ow, r)
  {
    var exceptional := if LogicalAnd(Flag(nonzeroException), Not(x)) == 1 then Bits(w) else 0;
    Store(ow, ffs - Flag(x) + exceptional)
  }

  /** Corrected `gen_ctz_branchless`. */
  function CtzFixed(w: Width, ow: Width, nonzeroException: bv64, x: bv64): (r: bv64)
    requires InRange(w, x)
    ensures InRange(ow, r)
  {
    CtzFixedReturn(w, ow, nonzeroException, Ffs(w, ow, 1, x), x)
  }

  /** As written, ctz with the exception returns 0 for 0 and 4 for 0b1000. */
  lemma {:induction false} CtzWithExceptionOfZeroAndEight(w: Width, ow: Width, nonzeroException: bv64)
    requires nonzeroException != 0
    ensures Ctz(w, ow, nonzeroException, 0) == 0
    ensures Ctz(w, ow, nonzeroException, 8) == 4
  {
    CtzOfZero(w, ow, nonzeroException);
    SmallValuesInRange(w);
    FfsOfEightAndAllOnes(w, ow);
    CtzWithExceptionAsWritten(w, ow, nonzeroException, 8);
  }

  lemma CtzFixedReturnOfPosition(w: Width, ow: Width, nonzeroException: bv64, k: bv64, x: bv64)
    requires x != 0 && k < 64
    ensures CtzFixedReturn(w, ow, nonzeroException, k + 1, x) == k
  {
    SmallFits(ow, k);
  }

  lemma CtzFixedReturnOfZero(w: Width, ow: Width, nonzeroException: bv64)
    ensures CtzFixedReturn(w, ow, nonzeroException, 0, 0) == if nonzeroException == 0 then 0 else Bits(w)
  {
    BitsAtMost64(w);
    SmallFits(ow, Bits(w));
  }

  lemma CtzFixedAt(w: Width, ow: Width, nonzeroException: bv64, x: bv64, v: bv64, c: bv64)
    requires InRange(w, x) && Ffs(w, ow, 1, x) == v && CtzFixedReturn(w, ow, nonzeroException, v, x) == c
    ensures CtzFixed(w, ow, nonzeroException, x) == c
  {}

  lemma {:induction false} CtzFixedOfCount(w: Width, ow: Width, nonzeroException: bv64, x: bv64, r: bv64)
    requires InRange(w, x) && x != 0 && r == TrailingZeros(x)
    ensures CtzFixed(w, ow, nonzeroException, x) == r
  {
    LsbOfCount(w, x, r);
    FfsOfCount(w, ow, 1, x, r);
    CtzFixedReturnOfPosition(w, ow, nonzeroException, r, x);
    CtzFixedAt(w, ow, nonzeroException, x, r + 1, r);
  }

  lemma CtzFixedOfZero(w: Width, ow: Width, nonzeroException: bv64)
    ensures CtzFixed(w, ow, nonzeroException, 0) == if nonzeroException == 0 then 0 else Bits(w)
  {
    FfsOfZero(w, ow, 1);
    CtzFixedReturnOfZero(w, ow, nonzeroException);
    CtzFixedAt(w, ow, nonzeroException, 0, 0, CtzFixedReturn(w, ow, nonzeroException, 0, 0));
  }

  /** Corrected ctz counts the clear bits below the lowest set bit of a
      non-zero input, whatever `nonzero_exception` is; for 0 it returns 0 or
      the width as the exception selects. */
  lemma {:induction false} CtzFixedCountsTrailingZeros(w: Width, ow: Width, nonzeroException: bv64, x: bv64)
    requires InRange(w, x)
    ensures CtzFixed(w, ow, nonzeroException, x)
      == if x != 0 then TrailingZeros(x) else if nonzeroException == 0 then 0 else Bits(w)
  {
    if x == 0 {
      CtzFixedOfZero(w, ow, nonzeroException);
    } else {
      CtzFixedOfCount(w, ow, nonzeroException, x, TrailingZeros(x));
    }
  }

  /** The correction changes nothing with the exception off. */
  lemma {:induction false} CtzFixedAgrees(w: Width, ow: Width, x: bv64)
    requires InRange(w, x)
    ensures CtzFixed(w, ow, 0, x) == Ctz(w, ow, 0, x)
  {
    if x == 0 {
      CtzFixedOfZero(w, ow, 0);
      CtzOfZero(w, ow, 0);
    } else {
      CtzFixedAgreesOfCount(w, ow, x, TrailingZeros(x));
    }
  }

  lemma {:induction false} CtzFixedAgreesOfCount(w: Width, ow: Width, x: bv64, r: bv64)
    requires InRange(w, x) && x != 0 && r == TrailingZeros(x)
    ensures CtzFixed(w, ow, 0, x) == Ctz(w, ow, 0, x)
  {
    CtzFixedOfCount(w, ow, 0, x, r);
    CtzOfCount(w, ow, x, r);
  }
}
