/**
 * `__preserve_msb_branchless` and `rounddown_pow_of_two_inplace_branchless`.
 *
 * The macro keeps the highest set bit of `X`: it shifts `X` right by one,
 * smears the bits of the result into every lower position, giving all ones
 * below the highest set bit of `X`, and adds one back when `X` was non-zero.
 */
module Msb {
  import opened Word
  import opened BitSpec
  import opened Cascade

  /** `__preserve_msb_branchless(X, type)` on a value `x` of width `w`. */
  function PreserveMSB(w: Width, x: bv64): (r: bv64)
    requires InRange(w, x)
    ensures InRange(w, r)
  {
    var isNonzero := Flag(x);
    var shifted := Store(w, x >> 1);
    Store(w, RightCascade(w, shifted) + isNonzero)
  }

  /** `rounddown_pow_of_two_inplace_branchless(x)`: the same macro with the
      type of `x` itself. */
  function RoundDownPowOfTwo(w: Width, x: bv64): (r: bv64)
    requires InRange(w, x)
    ensures InRange(w, r)
  {
    PreserveMSB(w, x)
  }

  /** The top `c` bits of the ones below the power of two `b` (all of them
      once `c` reaches the position of `b`). */
  function Below(b: bv64, c: bv64): bv64
    requires c <= 64
  {
    (b - 1) & !((b - 1) >> c)
  }

  /** Progress of the right cascade towards `b - 1`: the value lies below the
      power of two `b`, and the `c` bits just below `b` are all set. */
  predicate RightRun(y: bv64, b: bv64, c: bv64)
    requires c <= 64
  {
    PowerOfTwo(b) && y < b && y & Below(b, c) == Below(b, c)
  }

  lemma RightRunOr1(y: bv64, b: bv64)
    requires RightRun(y, b, 1)
    ensures RightRun(y | (y >> 1), b, 2)
  {}

  lemma RightRunOr2(y: bv64, b: bv64)
    requires RightRun(y, b, 2)
    ensures RightRun(y | (y >> 2), b, 4)
  {}

  lemma RightRunOr4(y: bv64, b: bv64)
    requires RightRun(y, b, 4)
    ensures RightRun(y | (y >> 4), b, 8)
  {}

  lemma RightRunOr8(y: bv64, b: bv64)
    requires RightRun(y, b, 8)
    ensures RightRun(y | (y >> 8), b, 16)
  {}

  lemma RightRunOr16(y: bv64, b: bv64)
    requires RightRun(y, b, 16)
    ensures RightRun(y | (y >> 16), b, 32)
  {}

  lemma RightRunOr32(y: bv64, b: bv64)
    requires RightRun(y, b, 32)
    ensures RightRun(y | (y >> 32), b, 64)
  {}

  lemma RightRunStep1(w: Width, y: bv64, b: bv64)
    requires InRange(w, b) && RightRun(y, b, 1)
    ensures RightRun(SmearRight(w, y, 1), b, 2)
  {
    RightRunOr1(y, b);
    AtMostInRange(w, y | (y >> 1), b);
  }

  lemma RightRunStep2(w: Width, y: bv64, b: bv64)
    requires InRange(w, b) && RightRun(y, b, 2)
    ensures RightRun(SmearRight(w, y, 2), b, 4)
  {
    RightRunOr2(y, b);
    AtMostInRange(w, y | (y >> 2), b);
  }

  lemma RightRunStep4(w: Width, y: bv64, b: bv64)
    requires InRange(w, b) && RightRun(y, b, 4)
    ensures RightRun(SmearRight(w, y, 4), b, 8)
  {
    RightRunOr4(y, b);
    AtMostInRange(w, y | (y >> 4), b);
  }

  lemma RightRunStep8(w: Width, y: bv64, b: bv64)
    requires InRange(w, b) && RightRun(y, b, 8)
    ensures RightRun(SmearRight(w, y, 8), b, 16)
  {
    RightRunOr8(y, b);
    AtMostInRange(w, y | (y >> 8), b);
  }

  lemma RightRunStep16(w: Width, y: bv64, b: bv64)
    requires InRange(w, b) && RightRun(y, b, 16)
    ensures RightRun(SmearRight(w, y, 16), b, 32)
  {
    RightRunOr16(y, b);
    AtMostInRange(w, y | (y >> 16), b);
  }

  lemma RightRunStep32(w: Width, y: bv64, b: bv64)
    requires InRange(w, b) && RightRun(y, b, 32)
    ensures RightRun(SmearRight(w, y, 32), b, 64)
  {
    RightRunOr32(y, b);
    AtMostInRange(w, y | (y >> 32), b);
  }

  /** Once the run covers the whole width, the value is exactly `b - 1`. */
  lemma RightRunDone(w: Width, y: bv64, b: bv64, c: bv64)
    requires InRange(w, b) && Bits(w) <= c <= 64 && RightRun(y, b, c)
    ensures y == b - 1
  {
    match w
    case W8 =>
    case W16 =>
    case W32 =>
    case W64 =>
  }

  /** On a narrow type the guarded steps find the run already complete. */
  lemma RightRunFinish(w: Width, y: bv64, b: bv64, c: bv64)
    requires InRange(w, b) && Bits(w) <= c <= 64 && RightRun(y, b, c)
    ensures SmearRight(w, y, 0) == b - 1
  {
    RightRunDone(w, y, b, c);
    AtMostInRange(w, y, b);
    SmearRightIdle(w, y);
  }

  lemma RightCascade8(y: bv64, b: bv64)
    requires InRange(W8, b) && RightRun(y, b, 1)
    ensures RightCascade(W8, y) == b - 1
  {
    Guards8();
    var y1 := SmearRight(W8, y, 1);
    RightRunStep1(W8, y, b);
    var y2 := SmearRight(W8, y1, 2);
    RightRunStep2(W8, y1, b);
    var y3 := SmearRight(W8, y2, 4);
    RightRunStep4(W8, y2, b);
    RightRunFinish(W8, y3, b, 8);
  }

  lemma RightCascade16(y: bv64, b: bv64)
    requires InRange(W16, b) && RightRun(y, b, 1)
    ensures RightCascade(W16, y) == b - 1
  {
    Guards16();
    var y1 := SmearRight(W16, y, 1);
    RightRunStep1(W16, y, b);
    var y2 := SmearRight(W16, y1, 2);
    RightRunStep2(W16, y1, b);
    var y3 := SmearRight(W16, y2, 4);
    RightRunStep4(W16, y2, b);
    var y4 := SmearRight(W16, y3, 8);
    RightRunStep8(W16, y3, b);
    RightRunFinish(W16, y4, b, 16);
  }

  lemma RightCascade32(y: bv64, b: bv64)
    requires InRange(W32, b) && RightRun(y, b, 1)
    ensures RightCascade(W32, y) == b - 1
  {
    Guards32();
    var y1 := SmearRight(W32, y, 1);
    RightRunStep1(W32, y, b);
    var y2 := SmearRight(W32, y1, 2);
    RightRunStep2(W32, y1, b);
    var y3 := SmearRight(W32, y2, 4);
    RightRunStep4(W32, y2, b);
    var y4 := SmearRight(W32, y3, 8);
    RightRunStep8(W32, y3, b);
    var y5 := SmearRight(W32, y4, 16);
    RightRunStep16(W32, y4, b);
    RightRunFinish(W32, y5, b, 32);
  }

  lemma RightCascade64(y: bv64, b: bv64)
    requires InRange(W64, b) && RightRun(y, b, 1)
    ensures RightCascade(W64, y) == b - 1
  {
    Guards64();
    var y1 := SmearRight(W64, y, 1);
    RightRunStep1(W64, y, b);
    var y2 := SmearRight(W64, y1, 2);
    RightRunStep2(W64, y1, b);
    var y3 := SmearRight(W64, y2, 4);
    RightRunStep4(W64, y2, b);
    var y4 := SmearRight(W64, y3, 8);
    RightRunStep8(W64, y3, b);
    var y5 := SmearRight(W64, y4, 16);
    RightRunStep16(W64, y4, b);
    var y6 := SmearRight(W64, y5, 32);
    RightRunStep32(W64, y5, b);
    RightRunDone(W64, y6, b, 64);
  }

  /** `y` is an operand from which the right cascade reaches `b - 1`. */
  predicate CascadeStart(w: Width, y: bv64, b: bv64)
  {
    InRange(w, b) && RightRun(y, b, 1)
  }

  /** On every width the right cascade turns a value whose highest set bit is
      just below `b` into the run of ones `b - 1`. */
  lemma RightCascadeFills(w: Width, y: bv64, b: bv64)
    requires CascadeStart(w, y, b)
    ensures RightCascade(w, y) == b - 1
  {
    match w
    case W8 => RightCascade8(y, b);
    case W16 => RightCascade16(y, b);
    case W32 => RightCascade32(y, b);
    case W64 => RightCascade64(y, b);
  }

  lemma RightRunStart(x: bv64, b: bv64)
    requires IsHighestBit(x, b)
    ensures RightRun(x >> 1, b, 1)
  {}

  lemma ShiftedInRange(w: Width, x: bv64)
    requires InRange(w, x)
    ensures InRange(w, x >> 1)
  {}

  /** The operand of the cascade, `x >> 1`, starts the run below the highest
      set bit `b` of `x`. */
  lemma CascadeOperand(w: Width, x: bv64, b: bv64)
    requires InRange(w, x) && IsHighestBit(x, b)
    ensures CascadeStart(w, Store(w, x >> 1), b)
  {
    ShiftedInRange(w, x);
    RightRunStart(x, b);
    AtMostInRange(w, b, x);
  }

  /** The cascade inside the macro fills every bit below the highest set bit
      `b` of `x`. */
  lemma CascadeBelowHighestBit(w: Width, x: bv64, b: bv64)
    requires InRange(w, x) && IsHighestBit(x, b)
    ensures InRange(w, b) && x != 0
    ensures RightCascade(w, Store(w, x >> 1)) == b - 1
  {
    CascadeOperand(w, x, b);
    RightCascadeFills(w, Store(w, x >> 1), b);
  }

  /** Adding the non-zero flag of `x` to the ones below `b` gives `b`. */
  lemma AddFlagToRun(w: Width, a: bv64, x: bv64, b: bv64)
    requires InRange(w, b) && a == b - 1 && x != 0
    ensures Store(w, a + Flag(x)) == b
  {}

  /** The last statement of the macro, given the filled run below `b`. */
  lemma MsbLastStatement(w: Width, x: bv64, b: bv64)
    requires InRange(w, b) && x != 0 && RightCascade(w, Store(w, x >> 1)) == b - 1
    ensures Store(w, RightCascade(w, Store(w, x >> 1)) + Flag(x)) == b
  {
    AddFlagToRun(w, RightCascade(w, Store(w, x >> 1)), x, b);
  }

  /** `PreserveMSB` maps a value whose highest set bit is `b` to `b`. */
  lemma PreserveMsbAt(w: Width, x: bv64, b: bv64)
    requires InRange(w, x) && IsHighestBit(x, b)
    ensures PreserveMSB(w, x) == b
  {
    CascadeBelowHighestBit(w, x, b);
    MsbLastStatement(w, x, b);
  }

  /** For a non-zero `x`, `PreserveMSB` keeps exactly its highest set bit. */
  lemma {:induction false} PreserveMsbKeepsHighestBit(w: Width, x: bv64)
    requires InRange(w, x) && x != 0
    ensures IsHighestBit(x, PreserveMSB(w, x))
  {
    var r := BitLength(x);
    HighestBitOfLength(x, r);
    PreserveMsbAt(w, x, 1 << (r - 1));
  }

  /** Both directions: for a non-zero `x`, `b` is what `PreserveMSB` returns
      exactly when `b` is the highest set bit of `x`. */
  lemma PreserveMsbIsHighestBit(w: Width, x: bv64, b: bv64)
    requires InRange(w, x) && x != 0
    ensures PreserveMSB(w, x) == b <==> IsHighestBit(x, b)
  {
    if IsHighestBit(x, b) {
      PreserveMsbAt(w, x, b);
    } else {
      PreserveMsbKeepsHighestBit(w, x);
    }
  }

  /** The result is bit `BitLength(x) - 1`, the bit the one-at-a-time count
      stops at. */
  lemma {:induction false} PreserveMsbIsLengthBit(w: Width, x: bv64, r: bv64)
    requires InRange(w, x) && x != 0 && r == BitLength(x)
    ensures 0 < r <= 64 && PreserveMSB(w, x) == 1 << (r - 1)
  {
    HighestBitOfLength(x, r);
    PreserveMsbAt(w, x, 1 << (r - 1));
  }

  /** A word has at most one highest set bit: both candidates are what
      `PreserveMSB` returns on the full 64-bit width. */
  lemma HighestBitUnique(x: bv64, b1: bv64, b2: bv64)
    requires IsHighestBit(x, b1) && IsHighestBit(x, b2)
    ensures b1 == b2
  {
    PreserveMsbAt(W64, x, b1);
    PreserveMsbAt(W64, x, b2);
  }

  /** Rounding down a non-zero `x` gives a power of two `r` with
      `r <= x < 2 * r`. */
  lemma RoundDownIsPowerOfTwo(w: Width, x: bv64)
    requires InRange(w, x) && x != 0
    ensures IsHighestBit(x, RoundDownPowOfTwo(w, x))
  {
    PreserveMsbKeepsHighestBit(w, x);
  }

  lemma PowerBelowHighestBit(x: bv64, b: bv64, p: bv64)
    requires IsHighestBit(x, b) && PowerOfTwo(p) && p <= x
    ensures p <= b
  {}

  /** It is the nearest power of two: none at or below `x` exceeds it. */
  lemma RoundDownIsGreatest(w: Width, x: bv64, p: bv64)
    requires InRange(w, x) && PowerOfTwo(p) && p <= x
    ensures p <= RoundDownPowOfTwo(w, x)
  {
    PowerBelowNonzero(x, p);
    PreserveMsbKeepsHighestBit(w, x);
    PowerBelowHighestBit(x, PreserveMSB(w, x), p);
  }

  lemma PowerBelowNonzero(x: bv64, p: bv64)
    requires PowerOfTwo(p) && p <= x
    ensures x != 0
  {}

  /** A power of two is already rounded, so rounding is idempotent. */
  lemma RoundDownKeepsPowers(w: Width, p: bv64)
    requires InRange(w, p) && PowerOfTwo(p)
    ensures RoundDownPowOfTwo(w, p) == p
  {
    PreserveMsbAt(w, p, p);
  }

  lemma RightCascadeZero(w: Width)
    ensures RightCascade(w, 0) == 0
  {
    SmearRightIdle(w, 0);
  }

  lemma PreserveMsbZero(w: Width)
    ensures PreserveMSB(w, 0) == 0
  {
    RightCascadeZero(w);
  }

  lemma RoundDownIdempotent(w: Width, x: bv64)
    requires InRange(w, x)
    ensures RoundDownPowOfTwo(w, RoundDownPowOfTwo(w, x)) == RoundDownPowOfTwo(w, x)
  {
    if x == 0 {
      PreserveMsbZero(w);
    } else {
      PreserveMsbKeepsHighestBit(w, x);
      RoundDownKeepsPowers(w, PreserveMSB(w, x));
    }
  }
}
