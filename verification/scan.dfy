/**
 * The six generated functions: `gen_fls_branchless`, `gen_ffs_branchless`,
 * `gen_flz_branchless`, `gen_ffz_branchless`, `gen_clz_branchless` and
 * `gen_ctz_branchless`.
 *
 * Each generator is a function of its macro parameters: the width `w` of
 * `in_type`, the width `ow` of an unsigned `out_type`, and `start_from` or
 * `nonzero_exception`, which the C code reads as an integer.
 */
module Scan {
  import opened Word
  import opened BitSpec
  import opened Msb
  import opened Lsb
  import opened Locate

  /** The `return` statement of a generated fls, once `x` has been reduced
      to its highest set bit `msb` and `pos` is the position located. */
  function FlsReturn(ow: Width, startFrom: bv64, pos: bv64, msb: bv64): (r: bv64)
    ensures InRange(ow, r)
  {
    Store(ow, pos - (Not(startFrom) & Not(msb)))
  }

  /** `gen_fls_branchless(fn, in_type, out_type, start_from)` applied to `x`. */
  function Fls(w: Width, ow: Width, startFrom: bv64, x: bv64): (r: bv64)
    requires InRange(w, x)
    ensures InRange(ow, r)
  {
    var msb := PreserveMSB(w, x);
    FlsReturn(ow, startFrom, LocateBit(w, ow, msb), msb)
  }

  /** The `return` statement of a generated ffs, once `x` has been reduced
      to its lowest set bit `lsb` and `pos` is the position located. */
  function FfsReturn(ow: Width, startFrom: bv64, pos: bv64, lsb: bv64): (r: bv64)
    ensures InRange(ow, r)
  {
    Store(ow, pos - LogicalAnd(Not(startFrom), Not(lsb)))
  }

  /** `gen_ffs_branchless(fn, in_type, out_type, start_from)` applied to `x`. */
  function Ffs(w: Width, ow: Width, startFrom: bv64, x: bv64): (r: bv64)
    requires InRange(w, x)
    ensures InRange(ow, r)
  {
    var lsb := PreserveLSB(w, x);
    FfsReturn(ow, startFrom, LocateBit(w, ow, lsb), lsb)
  }

  /** `gen_flz_branchless`: the private fls instance, with the same
      `start_from`, applied to `~x` converted back to `in_type`. */
  function Flz(w: Width, ow: Width, startFrom: bv64, x: bv64): (r: bv64)
    requires InRange(w, x)
    ensures InRange(ow, r)
  {
    Fls(w, ow, startFrom, Store(w, !x))
  }

  /** `gen_ffz_branchless`: the private ffs instance applied to `~x`. */
  function Ffz(w: Width, ow: Width, startFrom: bv64, x: bv64): (r: bv64)
    requires InRange(w, x)
    ensures InRange(ow, r)
  {
    Ffs(w, ow, startFrom, Store(w, !x))
  }

  /** The `return` statement of a generated clz, given the result `fls` of
      its private 1-based fls instance.  The factor `!!nonzero_exception * 8`
      is 0 or 8, so `sizeof(in_type)` times it is 0 or the width. */
  function ClzReturn(w: Width, ow: Width, nonzeroException: bv64, fls: bv64): (r: bv64)
    ensures InRange(ow, r)
  {
    var exceptional := if Flag(nonzeroException) == 1 then Bits(w) else 0;
    Store(ow, exceptional - fls)
  }

  /** `gen_clz_branchless(fn, in_type, out_type, nonzero_exception)`:
      `sizeof(in_type) * (!!nonzero_exception * 8)` minus a 1-based fls. */
  function Clz(w: Width, ow: Width, nonzeroException: bv64, x: bv64): (r: bv64)
    requires InRange(w, x)
    ensures InRange(ow, r)
  {
    ClzReturn(w, ow, nonzeroException, Fls(w, ow, 1, x))
  }

  /** The `return` statement of a generated ctz, given the result `ffs` of
      its private 1-based ffs instance. */
  function CtzReturn(ow: Width, nonzeroException: bv64, ffs: bv64, x: bv64): (r: bv64)
    ensures InRange(ow, r)
  {
    Store(ow, ffs - LogicalAnd(Not(nonzeroException), x))
  }

  /** `gen_ctz_branchless(fn, in_type, out_type, nonzero_exception)`: a
      1-based ffs minus `(!nonzero_exception) && x`. */
  function Ctz(w: Width, ow: Width, nonzeroException: bv64, x: bv64): (r: bv64)
    requires InRange(w, x)
    ensures InRange(ow, r)
  {
    CtzReturn(ow, nonzeroException, Ffs(w, ow, 1, x), x)
  }

  // The return statements, on a located bit

  /** On a non-zero bit, fls returns the located position whatever
      `start_from` is. */
  lemma FlsReturnAt(ow: Width, startFrom: bv64, pos: bv64, msb: bv64)
    requires msb != 0 && pos <= 64
    ensures FlsReturn(ow, startFrom, pos, msb) == pos
  {
    SmallFits(ow, pos);
  }

  lemma FfsReturnAt(ow: Width, startFrom: bv64, pos: bv64, lsb: bv64)
    requires lsb != 0 && pos <= 64
    ensures FfsReturn(ow, startFrom, pos, lsb) == pos
  {
    SmallFits(ow, pos);
  }

  /** On 0, with nothing located, the return statements subtract
      `!start_from`. */
  lemma FlsReturnOfZero(ow: Width, startFrom: bv64)
    ensures FlsReturn(ow, startFrom, 0, 0) == if startFrom == 0 then Mask(ow) else 0
  {}

  lemma FfsReturnOfZero(ow: Width, startFrom: bv64)
    ensures FfsReturn(ow, startFrom, 0, 0) == if startFrom == 0 then Mask(ow) else 0
  {}

  // fls

  /** The highest set bit of a non-zero `x` is bit `BitLength(x) - 1`, a
      bit of the type. */
  lemma {:induction false} MsbOfLength(w: Width, x: bv64, r: bv64)
    requires InRange(w, x) && x != 0 && r == BitLength(x)
    ensures 0 < r <= Bits(w) && PreserveMSB(w, x) == 1 << (r - 1)
  {
    PreserveMsbIsLengthBit(w, x, r);
    BitLengthBound(w, x);
  }

  /** Bit `r - 1` of the type is located at `r`, and fls returns `r`. */
  lemma FlsReturnOfLength(w: Width, ow: Width, startFrom: bv64, r: bv64)
    requires 0 < r <= Bits(w)
    ensures InRange(w, 1 << (r - 1)) && LocateBit(w, ow, 1 << (r - 1)) == r
    ensures FlsReturn(ow, startFrom, r, 1 << (r - 1)) == r
  {
    LocateBitOfLength(w, ow, r);
    FlsReturnAt(ow, startFrom, r, 1 << (r - 1));
  }

  /** For a non-zero `x`, fls is the number of significant bits of `x`, with
      either `start_from`. */
  lemma {:induction false} FlsOfNonzero(w: Width, ow: Width, startFrom: bv64, x: bv64)
    requires InRange(w, x) && x != 0
    ensures Fls(w, ow, startFrom, x) == BitLength(x)
  {
    FlsOfLength(w, ow, startFrom, x, BitLength(x));
  }

  lemma {:induction false} FlsOfLength(w: Width, ow: Width, startFrom: bv64, x: bv64, r: bv64)
    requires InRange(w, x) && x != 0 && r == BitLength(x)
    ensures Fls(w, ow, startFrom, x) == r
  {
    MsbOfLength(w, x, r);
    FlsReturnOfLength(w, ow, startFrom, r);
    FlsAt(w, ow, startFrom, x, 1 << (r - 1), r);
  }

  /** Fls puts together the preserved bit, its position and the return
      statement. */
  lemma FlsAt(w: Width, ow: Width, startFrom: bv64, x: bv64, b: bv64, v: bv64)
    requires InRange(w, x) && InRange(w, b) && PreserveMSB(w, x) == b
    requires LocateBit(w, ow, b) == v && FlsReturn(ow, startFrom, v, b) == v
    ensures Fls(w, ow, startFrom, x) == v
  {}

  lemma FlsOfZero(w: Width, ow: Width, startFrom: bv64)
    ensures Fls(w, ow, startFrom, 0) == if startFrom == 0 then Mask(ow) else 0
  {
    PreserveMsbZero(w);
    LocateBitZero(w, ow);
    FlsReturnOfZero(ow, startFrom);
  }

  /** With `start_from = 1`, fls is the number of significant bits: 0 for 0,
      and otherwise one more than the index of the highest set bit. */
  lemma {:induction false} FlsIsBitLength(w: Width, ow: Width, x: bv64)
    requires InRange(w, x)
    ensures Fls(w, ow, 1, x) == BitLength(x)
  {
    if x == 0 {
      FlsOfZero(w, ow, 1);
    } else {
      FlsOfNonzero(w, ow, 1, x);
    }
  }

  /** With `start_from = 1`, fls never exceeds the width. */
  lemma {:induction false} FlsAtMostWidth(w: Width, ow: Width, x: bv64)
    requires InRange(w, x)
    ensures Fls(w, ow, 1, x) <= Bits(w)
  {
    FlsIsBitLength(w, ow, x);
    BitLengthBound(w, x);
  }

  // ffs

  /** The lowest set bit of a non-zero `x` is bit `TrailingZeros(x)`, a bit
      of the type. */
  lemma {:induction false} LsbOfCount(w: Width, x: bv64, r: bv64)
    requires InRange(w, x) && x != 0 && r == TrailingZeros(x)
    ensures r < Bits(w) && PreserveLSB(w, x) == 1 << r
  {
    PreserveLsbIsCountBit(w, x, r);
    TrailingZerosBound(w, x);
  }

  /** Bit `k` of the type is located at `k + 1`, and ffs returns `k + 1`. */
  lemma FfsReturnOfIndex(w: Width, ow: Width, startFrom: bv64, k: bv64)
    requires k < Bits(w)
    ensures InRange(w, 1 << k) && LocateBit(w, ow, 1 << k) == k + 1
    ensures FfsReturn(ow, startFrom, k + 1, 1 << k) == k + 1
  {
    LocateBitOfSingle(w, ow, k);
    FfsReturnAt(ow, startFrom, k + 1, 1 << k);
  }

  /** For a non-zero `x`, ffs is one more than the index of the lowest set
      bit, with either `start_from`. */
  lemma {:induction false} FfsOfNonzero(w: Width, ow: Width, startFrom: bv64, x: bv64)
    requires InRange(w, x) && x != 0
    ensures Ffs(w, ow, startFrom, x) == TrailingZeros(x) + 1
  {
    FfsOfCount(w, ow, startFrom, x, TrailingZeros(x));
  }

  lemma {:induction false} FfsOfCount(w: Width, ow: Width, startFrom: bv64, x: bv64, r: bv64)
    requires InRange(w, x) && x != 0 && r == TrailingZeros(x)
    ensures Ffs(w, ow, startFrom, x) == r + 1
  {
    LsbOfCount(w, x, r);
    FfsReturnOfIndex(w, ow, startFrom, r);
    FfsAt(w, ow, startFrom, x, 1 << r, r + 1);
  }

  lemma FfsAt(w: Width, ow: Width, startFrom: bv64, x: bv64, b: bv64, v: bv64)
    requires InRange(w, x) && InRange(w, b) && PreserveLSB(w, x) == b
    requires LocateBit(w, ow, b) == v && FfsReturn(ow, startFrom, v, b) == v
    ensures Ffs(w, ow, startFrom, x) == v
  {}

  lemma FfsOfZero(w: Width, ow: Width, startFrom: bv64)
    ensures Ffs(w, ow, startFrom, 0) == if startFrom == 0 then Mask(ow) else 0
  {
    PreserveLsbZero(w);
    LocateBitZero(w, ow);
    FfsReturnOfZero(ow, startFrom);
  }

  /** With `start_from = 1`, ffs is 0 for 0 and otherwise one more than the
      index of the lowest set bit. */
  lemma {:induction false} FfsIsTrailingZerosPlusOne(w: Width, ow: Width, x: bv64)
    requires InRange(w, x)
    ensures Ffs(w, ow, 1, x) == if x == 0 then 0 else TrailingZeros(x) + 1
  {
    if x == 0 {
      FfsOfZero(w, ow, 1);
    } else {
      FfsOfNonzero(w, ow, 1, x);
    }
  }

  /** With `start_from = 1`, ffs never exceeds the width. */
  lemma {:induction false} FfsAtMostWidth(w: Width, ow: Width, x: bv64)
    requires InRange(w, x)
    ensures Ffs(w, ow, 1, x) <= Bits(w)
  {
    FfsIsTrailingZerosPlusOne(w, ow, x);
    if x != 0 {
      TrailingZerosBound(w, x);
    }
  }

  // flz and ffz

  /** `b` is the highest clear bit of `x` in the type of width `w`: a clear
      power of two of the type with every bit of the type above it set. */
  predicate IsHighestClearBit(w: Width, x: bv64, b: bv64)
  {
    PowerOfTwo(b) && InRange(w, b) && x & b == 0 && x | (b + b - 1) == Mask(w)
  }

  /** `b` is the lowest clear bit of `x`: a clear power of two of the type
      with every bit below it set. */
  predicate IsLowestClearBit(w: Width, x: bv64, b: bv64)
  {
    PowerOfTwo(b) && InRange(w, b) && x & b == 0 && x & (b - 1) == b - 1
  }

  /** `r` is the 1-based position of the highest clear bit of `x`. */
  predicate IsHighestClearPosition(w: Width, x: bv64, r: bv64)
  {
    0 < r <= Bits(w) && IsHighestClearBit(w, x, 1 << (r - 1))
  }

  /** `r` is the 1-based position of the lowest clear bit of `x`. */
  predicate IsLowestClearPosition(w: Width, x: bv64, r: bv64)
  {
    0 < r <= Bits(w) && IsLowestClearBit(w, x, 1 << (r - 1))
  }

  lemma ComplementNonzero(w: Width, x: bv64)
    requires InRange(w, x) && x != Mask(w)
    ensures Store(w, !x) != 0
  {}

  lemma ComplementHighestOfMask(m: bv64, x: bv64, b: bv64)
    requires WordMask(m) && x & m == x && IsHighestBit(!x & m, b)
    ensures b & m == b && x & b == 0 && x | (b + b - 1) == m
  {}

  /** The highest set bit of `~x` is the highest clear bit of `x`. */
  lemma ComplementHighestBit(w: Width, x: bv64, b: bv64)
    requires InRange(w, x) && IsHighestBit(Store(w, !x), b)
    ensures IsHighestClearBit(w, x, b)
  {
    ComplementHighestOfMask(Mask(w), x, b);
  }

  /** The lowest set bit of `~x` is the lowest clear bit of `x`. */
  lemma ComplementLowestBit(w: Width, x: bv64, b: bv64)
    requires InRange(w, x) && IsLowestBit(Store(w, !x), b)
    ensures IsLowestClearBit(w, x, b)
  {
    match w
    case W8 =>
    case W16 =>
    case W32 =>
    case W64 =>
  }

  /** The significant bits of `~x` end at the highest clear bit of `x`. */
  lemma {:induction false} ComplementLengthIsHighestClear(w: Width, x: bv64, r: bv64)
    requires InRange(w, x) && x != Mask(w) && r == BitLength(Store(w, !x))
    ensures IsHighestClearPosition(w, x, r)
  {
    ComplementNonzero(w, x);
    HighestBitOfLength(Store(w, !x), r);
    BitLengthBound(w, Store(w, !x));
    ComplementHighestBit(w, x, 1 << (r - 1));
  }

  /** Position arithmetic kept apart from the bit predicates, where the
      solver handles it cheaply. */
  lemma NextPosition(k: bv64, r: bv64, n: bv64)
    requires k < n <= 64 && r == k + 1
    ensures 0 < r <= n && r - 1 == k
  {}

  lemma LowestClearPositionAt(w: Width, x: bv64, k: bv64, r: bv64)
    requires k < Bits(w) && r == k + 1 && IsLowestClearBit(w, x, 1 << k)
    ensures IsLowestClearPosition(w, x, r)
  {
    NextPosition(k, r, Bits(w));
  }

  /** One more than the trailing zeros of `~x` is the position of the lowest
      clear bit of `x`. */
  lemma {:induction false} ComplementCountIsLowestClear(w: Width, x: bv64, r: bv64)
    requires InRange(w, x) && x != Mask(w) && r == TrailingZeros(Store(w, !x)) + 1
    ensures IsLowestClearPosition(w, x, r)
  {
    var k := TrailingZeros(Store(w, !x));
    ComplementNonzero(w, x);
    LowestBitOfCount(Store(w, !x), k);
    TrailingZerosBound(w, Store(w, !x));
    ComplementLowestBit(w, x, 1 << k);
    LowestClearPositionAt(w, x, k, r);
  }

  lemma FlzAt(w: Width, ow: Width, startFrom: bv64, x: bv64, y: bv64, v: bv64)
    requires InRange(w, x) && Store(w, !x) == y && InRange(w, y) && Fls(w, ow, startFrom, y) == v
    ensures Flz(w, ow, startFrom, x) == v
  {}

  lemma FfzAt(w: Width, ow: Width, startFrom: bv64, x: bv64, y: bv64, v: bv64)
    requires InRange(w, x) && Store(w, !x) == y && InRange(w, y) && Ffs(w, ow, startFrom, y) == v
    ensures Ffz(w, ow, startFrom, x) == v
  {}

  /** Unless every bit is set, flz counts the significant bits of `~x`. */
  lemma {:induction false} FlzOfNotAllOnes(w: Width, ow: Width, startFrom: bv64, x: bv64)
    requires InRange(w, x) && x != Mask(w)
    ensures Flz(w, ow, startFrom, x) == BitLength(Store(w, !x))
  {
    var y := Store(w, !x);
    ComplementNonzero(w, x);
    FlsOfNonzero(w, ow, startFrom, y);
    FlzAt(w, ow, startFrom, x, y, BitLength(y));
  }

  lemma {:induction false} FfsOfComplement(w: Width, ow: Width, startFrom: bv64, x: bv64)
    requires InRange(w, x) && x != Mask(w)
    ensures Ffs(w, ow, startFrom, Store(w, !x)) == TrailingZeros(Store(w, !x)) + 1
  {
    ComplementNonzero(w, x);
    FfsOfNonzero(w, ow, startFrom, Store(w, !x));
  }

  /** Unless every bit is set, ffz is one more than the trailing zeros of
      `~x`. */
  lemma {:induction false} FfzOfNotAllOnes(w: Width, ow: Width, startFrom: bv64, x: bv64)
    requires InRange(w, x) && x != Mask(w)
    ensures Ffz(w, ow, startFrom, x) == TrailingZeros(Store(w, !x)) + 1
  {
    FfsOfComplement(w, ow, startFrom, x);
    FfzAt(w, ow, startFrom, x, Store(w, !x), TrailingZeros(Store(w, !x)) + 1);
  }

  /** Unless every bit is set, flz is the 1-based position of the highest
      clear bit. */
  lemma {:induction false} FlzFindsHighestClearBit(w: Width, ow: Width, startFrom: bv64, x: bv64)
    requires InRange(w, x) && x != Mask(w)
    ensures IsHighestClearPosition(w, x, Flz(w, ow, startFrom, x))
  {
    FlzOfNotAllOnes(w, ow, startFrom, x);
    ComplementLengthIsHighestClear(w, x, Flz(w, ow, startFrom, x));
  }

  /** Unless every bit is set, ffz is the 1-based position of the lowest
      clear bit. */
  lemma {:induction false} FfzFindsLowestClearBit(w: Width, ow: Width, startFrom: bv64, x: bv64)
    requires InRange(w, x) && x != Mask(w)
    ensures IsLowestClearPosition(w, x, Ffz(w, ow, startFrom, x))
  {
    FfzOfNotAllOnes(w, ow, startFrom, x);
    ComplementCountIsLowestClear(w, x, Ffz(w, ow, startFrom, x));
  }

  lemma ComplementOfAllOnes(w: Width)
    ensures Store(w, !Mask(w)) == 0
  {}

  lemma ComplementOfZero(w: Width)
    ensures Store(w, !0) == Mask(w)
  {}

  lemma MaskInRange(w: Width)
    ensures InRange(w, Mask(w))
  {}

  /** With every bit set there is no clear bit: flz and ffz return what fls
      and ffs return for 0. */
  lemma FlzOfAllOnes(w: Width, ow: Width, startFrom: bv64)
    ensures Flz(w, ow, startFrom, Mask(w)) == if startFrom == 0 then Mask(ow) else 0
  {
    MaskInRange(w);
    ComplementOfAllOnes(w);
    FlsOfZero(w, ow, startFrom);
    FlzAt(w, ow, startFrom, Mask(w), 0, if startFrom == 0 then Mask(ow) else 0);
  }

  lemma FfzOfAllOnes(w: Width, ow: Width, startFrom: bv64)
    ensures Ffz(w, ow, startFrom, Mask(w)) == if startFrom == 0 then Mask(ow) else 0
  {
    MaskInRange(w);
    ComplementOfAllOnes(w);
    FfsOfZero(w, ow, startFrom);
    FfzAt(w, ow, startFrom, Mask(w), 0, if startFrom == 0 then Mask(ow) else 0);
  }

  /** The all-ones value of the type has `Bits(w)` significant bits. */
  lemma MaskIsBitLength(w: Width)
    ensures IsBitLength(Mask(w), Bits(w))
  {}

  lemma {:induction false} BitLengthOfMask(w: Width)
    ensures BitLength(Mask(w)) == Bits(w)
  {
    MaskIsBitLength(w);
    BitLengthIs(Mask(w), Bits(w));
  }

  /** On 0 every bit is clear: flz returns the position of the top bit,
      `Bits(w)`, and ffz returns 1, whatever `start_from` is. */
  lemma {:induction false} FlzOfZero(w: Width, ow: Width, startFrom: bv64)
    ensures Flz(w, ow, startFrom, 0) == Bits(w)
  {
    MaskInRange(w);
    ComplementOfZero(w);
    FlsOfNonzero(w, ow, startFrom, Mask(w));
    BitLengthOfMask(w);
    FlzAt(w, ow, startFrom, 0, Mask(w), Bits(w));
  }

  lemma MaskLowBit(w: Width)
    ensures Mask(w) & 1 == 1
  {}

  lemma {:induction false} TrailingZerosOfMask(w: Width)
    ensures TrailingZeros(Mask(w)) == 0
  {
    MaskLowBit(w);
  }

  lemma {:induction false} FfzOfZero(w: Width, ow: Width, startFrom: bv64)
    ensures Ffz(w, ow, startFrom, 0) == 1
  {
    MaskInRange(w);
    ComplementOfZero(w);
    FfsOfNonzero(w, ow, startFrom, Mask(w));
    TrailingZerosOfMask(w);
    FfzAt(w, ow, startFrom, 0, Mask(w), 1);
  }

  // clz

  /** With the exception on, clz returns the width minus the fls result. */
  lemma ClzReturnOfLength(w: Width, ow: Width, nonzeroException: bv64, v: bv64)
    requires nonzeroException != 0 && v <= Bits(w)
    ensures ClzReturn(w, ow, nonzeroException, v) == Bits(w) - v
  {
    BitsAtMost64(w);
    SmallFits(ow, Bits(w) - v);
  }

  /** With the exception off, clz returns the fls result negated. */
  lemma ClzReturnWithoutException(w: Width, ow: Width, v: bv64)
    ensures ClzReturn(w, ow, 0, v) == Store(ow, 0 - v)
  {}

  /** Clz puts together the preserved bit, its position, the return of the
      private fls instance and its own return statement. */
  lemma ClzAt(w: Width, ow: Width, nonzeroException: bv64, x: bv64, b: bv64, v: bv64, c: bv64)
    requires InRange(w, x) && InRange(w, b) && PreserveMSB(w, x) == b
    requires LocateBit(w, ow, b) == v && FlsReturn(ow, 1, v, b) == v
    requires ClzReturn(w, ow, nonzeroException, v) == c
    ensures Clz(w, ow, nonzeroException, x) == c
  {}

  lemma {:induction false} ClzOfLength(w: Width, ow: Width, nonzeroException: bv64, x: bv64, r: bv64)
    requires InRange(w, x) && x != 0 && nonzeroException != 0 && r == BitLength(x)
    ensures Clz(w, ow, nonzeroException, x) == Bits(w) - r
  {
    MsbOfLength(w, x, r);
    FlsReturnOfLength(w, ow, 1, r);
    ClzReturnOfLength(w, ow, nonzeroException, r);
    ClzAt(w, ow, nonzeroException, x, 1 << (r - 1), r, Bits(w) - r);
  }

  lemma ClzReturnOfZero(w: Width, ow: Width, nonzeroException: bv64)
    requires nonzeroException != 0
    ensures ClzReturn(w, ow, nonzeroException, 0) == Bits(w)
  {
    SmallFits(ow, Bits(w));
  }

  lemma ClzOfZero(w: Width, ow: Width, nonzeroException: bv64)
    requires nonzeroException != 0
    ensures Clz(w, ow, nonzeroException, 0) == Bits(w)
  {
    PreserveMsbZero(w);
    LocateBitZero(w, ow);
    FlsReturnOfZero(ow, 1);
    ClzReturnOfZero(w, ow, nonzeroException);
    ClzAt(w, ow, nonzeroException, 0, 0, 0, Bits(w));
  }

  /** With `nonzero_exception` set, clz counts the clear bits above the
      highest set bit: the width minus the number of significant bits, so
      the width itself for 0. */
  lemma {:induction false} ClzCountsLeadingZeros(w: Width, ow: Width, nonzeroException: bv64, x: bv64, r: bv64)
    requires InRange(w, x) && nonzeroException != 0 && r == BitLength(x)
    ensures Clz(w, ow, nonzeroException, x) == Bits(w) - r
  {
    if x == 0 {
      ClzOfZero(w, ow, nonzeroException);
    } else {
      ClzOfLength(w, ow, nonzeroException, x, r);
    }
  }

  /** `r` leading zeros of a non-zero `x`: the highest set bit is bit
      `Bits(w) - 1 - r`. */
  predicate IsLeadingZeros(w: Width, x: bv64, r: bv64)
  {
    r < Bits(w) && IsHighestBit(x, 1 << (Bits(w) - 1 - r))
  }

  /** `n` significant bits of a `b`-bit word leave `b - n` leading zeros. */
  lemma Complementary(b: bv64, n: bv64, r: bv64)
    requires 0 < n <= b <= 64 && r == b - n
    ensures r < b && b - 1 - r == n - 1
  {}

  lemma LeadingZerosAt(w: Width, x: bv64, n: bv64, r: bv64)
    requires 0 < n <= Bits(w) && r == Bits(w) - n && IsHighestBit(x, 1 << (n - 1))
    ensures IsLeadingZeros(w, x, r)
  {
    Complementary(Bits(w), n, r);
  }

  lemma {:induction false} LengthGivesLeadingZeros(w: Width, x: bv64, n: bv64, r: bv64)
    requires InRange(w, x) && x != 0 && n == BitLength(x) && r == Bits(w) - n
    ensures IsLeadingZeros(w, x, r)
  {
    HighestBitOfLength(x, n);
    BitLengthBound(w, x);
    LeadingZerosAt(w, x, n, r);
  }

  /** With `nonzero_exception` set and `x` non-zero, clz is the number of
      clear bits above the highest set bit. */
  lemma {:induction false} ClzFindsHighestBit(w: Width, ow: Width, nonzeroException: bv64, x: bv64)
    requires InRange(w, x) && x != 0 && nonzeroException != 0
    ensures IsLeadingZeros(w, x, Clz(w, ow, nonzeroException, x))
  {
    ClzLeadingZeros(w, ow, nonzeroException, x, BitLength(x));
  }

  lemma {:induction false} ClzLeadingZeros(w: Width, ow: Width, nonzeroException: bv64, x: bv64, n: bv64)
    requires InRange(w, x) && x != 0 && nonzeroException != 0 && n == BitLength(x)
    ensures IsLeadingZeros(w, x, Clz(w, ow, nonzeroException, x))
  {
    ClzOfLength(w, ow, nonzeroException, x, n);
    LengthGivesLeadingZeros(w, x, n, Clz(w, ow, nonzeroException, x));
  }

  /** With `nonzero_exception` clear, clz subtracts the fls result from 0:
      0 for 0, and the wrapped negation of the bit count otherwise. */
  lemma {:induction false} ClzWithoutExceptionOfLength(w: Width, ow: Width, x: bv64, r: bv64)
    requires InRange(w, x) && x != 0 && r == BitLength(x)
    ensures Clz(w, ow, 0, x) == Store(ow, 0 - r)
  {
    MsbOfLength(w, x, r);
    FlsReturnOfLength(w, ow, 1, r);
    ClzReturnWithoutException(w, ow, r);
    ClzAt(w, ow, 0, x, 1 << (r - 1), r, Store(ow, 0 - r));
  }

  lemma ClzWithoutExceptionOfZero(w: Width, ow: Width)
    ensures Clz(w, ow, 0, 0) == 0
  {
    PreserveMsbZero(w);
    LocateBitZero(w, ow);
    FlsReturnOfZero(ow, 1);
    ClzReturnWithoutException(w, ow, 0);
    ClzAt(w, ow, 0, 0, 0, 0, 0);
  }

  lemma {:induction false} ClzWithoutExceptionAsWritten(w: Width, ow: Width, x: bv64, r: bv64)
    requires InRange(w, x) && r == BitLength(x)
    ensures Clz(w, ow, 0, x) == Store(ow, 0 - r)
  {
    if x == 0 {
      ClzWithoutExceptionOfZero(w, ow);
    } else {
      ClzWithoutExceptionOfLength(w, ow, x, r);
    }
  }

  // ctz

  lemma CtzOfFfsAt(w: Width, ow: Width, nonzeroException: bv64, x: bv64, v: bv64, c: bv64)
    requires InRange(w, x) && Ffs(w, ow, 1, x) == v && CtzReturn(ow, nonzeroException, v, x) == c
    ensures Ctz(w, ow, nonzeroException, x) == c
  {}

  /** With the exception off and `x` non-zero, ctz returns one less than the
      ffs result. */
  lemma CtzReturnOfPosition(ow: Width, nonzeroException: bv64, k: bv64, x: bv64)
    requires nonzeroException == 0 && x != 0 && k < 64
    ensures CtzReturn(ow, nonzeroException, k + 1, x) == k
  {
    SmallFits(ow, k);
  }

  /** With the exception on, ctz returns the ffs result unchanged. */
  lemma CtzReturnWithException(ow: Width, nonzeroException: bv64, v: bv64, x: bv64)
    requires nonzeroException != 0 && InRange(ow, v)
    ensures CtzReturn(ow, nonzeroException, v, x) == v
  {}

  lemma CtzReturnOfZero(ow: Width, nonzeroException: bv64)
    ensures CtzReturn(ow, nonzeroException, 0, 0) == 0
  {}

  /** Ctz puts together the preserved bit, its position, the return of the
      private ffs instance and its own return statement. */
  lemma CtzAt(w: Width, ow: Width, nonzeroException: bv64, x: bv64, b: bv64, v: bv64, c: bv64)
    requires InRange(w, x) && InRange(w, b) && PreserveLSB(w, x) == b
    requires LocateBit(w, ow, b) == v && FfsReturn(ow, 1, v, b) == v
    requires CtzReturn(ow, nonzeroException, v, x) == c
    ensures Ctz(w, ow, nonzeroException, x) == c
  {}

  /** With `nonzero_exception` clear, ctz of a non-zero `x` counts the clear
      bits below its lowest set bit. */
  lemma {:induction false} CtzCountsTrailingZeros(w: Width, ow: Width, x: bv64)
    requires InRange(w, x) && x != 0
    ensures Ctz(w, ow, 0, x) == TrailingZeros(x)
  {
    CtzOfCount(w, ow, x, TrailingZeros(x));
  }

  lemma {:induction false} CtzOfCount(w: Width, ow: Width, x: bv64, r: bv64)
    requires InRange(w, x) && x != 0 && r == TrailingZeros(x)
    ensures Ctz(w, ow, 0, x) == r
  {
    LsbOfCount(w, x, r);
    FfsReturnOfIndex(w, ow, 1, r);
    CtzReturnOfPosition(ow, 0, r, x);
    CtzAt(w, ow, 0, x, 1 << r, r + 1, r);
  }

  /** Whatever `nonzero_exception` is, ctz returns 0 for 0. */
  lemma CtzOfZero(w: Width, ow: Width, nonzeroException: bv64)
    ensures Ctz(w, ow, nonzeroException, 0) == 0
  {
    PreserveLsbZero(w);
    LocateBitZero(w, ow);
    FfsReturnOfZero(ow, 1);
    CtzReturnOfZero(ow, nonzeroException);
    CtzAt(w, ow, nonzeroException, 0, 0, 0, 0);
  }

  /** With `nonzero_exception` set, ctz is the 1-based ffs unchanged. */
  lemma CtzWithExceptionAsWritten(w: Width, ow: Width, nonzeroException: bv64, x: bv64)
    requires InRange(w, x) && nonzeroException != 0
    ensures Ctz(w, ow, nonzeroException, x) == Ffs(w, ow, 1, x)
  {
    CtzReturnWithException(ow, nonzeroException, Ffs(w, ow, 1, x), x);
    CtzOfFfsAt(w, ow, nonzeroException, x, Ffs(w, ow, 1, x), Ffs(w, ow, 1, x));
  }

  // Particular values

  lemma BitLengthOfOne()
    ensures BitLength(1) == 1
  {}

  lemma TrailingZerosOfEight()
    ensures TrailingZeros(8) == 3
  {
    TrailingZerosIs(8, 3);
  }

  lemma SmallValuesInRange(w: Width)
    ensures InRange(w, 1) && InRange(w, 8)
  {}

  /** fls(1) = 1 with `start_from = 1`. */
  lemma {:induction false} FlsOfOne(w: Width, ow: Width)
    ensures Fls(w, ow, 1, 1) == 1
  {
    SmallValuesInRange(w);
    BitLengthOfOne();
    FlsOfLength(w, ow, 1, 1, 1);
  }

  /** fls of all ones is the width, whatever `start_from` is. */
  lemma {:induction false} FlsOfAllOnes(w: Width, ow: Width, startFrom: bv64)
    ensures Fls(w, ow, startFrom, Mask(w)) == Bits(w)
  {
    MaskInRange(w);
    BitLengthOfMask(w);
    FlsOfLength(w, ow, startFrom, Mask(w), Bits(w));
  }

  /** ffs(0b1000) = 4 and ffs of all ones is 1, with `start_from = 1`. */
  lemma {:induction false} FfsOfEightAndAllOnes(w: Width, ow: Width)
    ensures Ffs(w, ow, 1, 8) == 4
    ensures Ffs(w, ow, 1, Mask(w)) == 1
  {
    SmallValuesInRange(w);
    TrailingZerosOfEight();
    FfsOfCount(w, ow, 1, 8, 3);
    MaskInRange(w);
    TrailingZerosOfMask(w);
    FfsOfCount(w, ow, 1, Mask(w), 0);
  }

  /** A 32-bit clz with the exception reports 31 leading zeros for 1. */
  lemma {:induction false} ClzOfOne(ow: Width, nonzeroException: bv64)
    requires nonzeroException != 0
    ensures Clz(W32, ow, nonzeroException, 1) == 31
  {
    BitLengthOfOne();
    ClzOfLength(W32, ow, nonzeroException, 1, 1);
  }

  /** A ctz without the exception reports 3 trailing zeros for 0b1000. */
  lemma {:induction false} CtzOfEight(w: Width, ow: Width)
    ensures Ctz(w, ow, 0, 8) == 3
  {
    SmallValuesInRange(w);
    TrailingZerosOfEight();
    CtzOfCount(w, ow, 8, 3);
  }
}
