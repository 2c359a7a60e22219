/**
 * `__preserve_lsb_branchless`.
 *
 * The macro keeps the lowest set bit of `X`: it smears the bits of `X` into
 * every higher position of the type, giving ones from the lowest set bit up,
 * and then turns that run into the single bit at its bottom with
 * `~filled + 1` masked by `filled`.
 */
module Lsb {
  import opened Word
  import opened BitSpec
  import opened Cascade

  /** `__preserve_lsb_branchless(X, type)` on a value `x` of width `w`. */
  function PreserveLSB(w: Width, x: bv64): (r: bv64)
    requires InRange(w, x)
    ensures InRange(w, r)
  {
    var upperFilled := LeftCascade(w, x);
    var negated := Store(w, !upperFilled + Flag(upperFilled));
    Store(w, negated & upperFilled)
  }

  /** The `c` bits starting at the power of two `b`; the run reaches the top
      of the word when `b << c` overflows. */
  function Above(b: bv64, c: bv64): bv64
    requires c <= 64
  {
    (b << c) - b
  }

  /** Progress of the left cascade on a word masked by `m`: nothing is set
      below the power of two `b`, and the `c` bits from `b` up (as far as
      `m` reaches) are all set. */
  predicate LeftRun(y: bv64, b: bv64, c: bv64, m: bv64)
    requires c <= 64
  {
    && PowerOfTwo(b)
    && y & (b - 1) == 0
    && y & Above(b, c) & m == Above(b, c) & m
  }

  lemma LeftRunOr1(w: Width, y: bv64, b: bv64)
    requires LeftRun(y, b, 1, Mask(w))
    ensures LeftRun(SmearLeft(w, y, 1), b, 2, Mask(w))
  {
    var m := Mask(w);
    MaskIsWordMask(w);
    if m == 0xFF {
    } else if m == 0xFFFF {
    } else if m == 0xFFFF_FFFF {
    } else {
    }
  }

  lemma LeftRunOr2(w: Width, y: bv64, b: bv64)
    requires LeftRun(y, b, 2, Mask(w))
    ensures LeftRun(SmearLeft(w, y, 2), b, 4, Mask(w))
  {
    var m := Mask(w);
    MaskIsWordMask(w);
    if m == 0xFF {
    } else if m == 0xFFFF {
    } else if m == 0xFFFF_FFFF {
    } else {
    }
  }

  lemma LeftRunOr4(w: Width, y: bv64, b: bv64)
    requires LeftRun(y, b, 4, Mask(w))
    ensures LeftRun(SmearLeft(w, y, 4), b, 8, Mask(w))
  {
    var m := Mask(w);
    MaskIsWordMask(w);
    if m == 0xFF {
    } else if m == 0xFFFF {
    } else if m == 0xFFFF_FFFF {
    } else {
    }
  }

  lemma LeftRunOr8(w: Width, y: bv64, b: bv64)
    requires LeftRun(y, b, 8, Mask(w))
    ensures LeftRun(SmearLeft(w, y, 8), b, 16, Mask(w))
  {
    var m := Mask(w);
    MaskIsWordMask(w);
    if m == 0xFF {
    } else if m == 0xFFFF {
    } else if m == 0xFFFF_FFFF {
    } else {
    }
  }

  lemma LeftRunOr16(w: Width, y: bv64, b: bv64)
    requires LeftRun(y, b, 16, Mask(w))
    ensures LeftRun(SmearLeft(w, y, 16), b, 32, Mask(w))
  {
    var m := Mask(w);
    MaskIsWordMask(w);
    if m == 0xFF {
    } else if m == 0xFFFF {
    } else if m == 0xFFFF_FFFF {
    } else {
    }
  }

  /** The last step runs only on the 64-bit type. */
  lemma LeftRunOr32(y: bv64, b: bv64)
    requires LeftRun(y, b, 32, Mask(W64))
    ensures LeftRun(SmearLeft(W64, y, 32), b, 64, Mask(W64))
  {}

  /** Once the run covers the whole width, the value is every bit of the type
      from `b` up. */
  lemma LeftRunDone(w: Width, y: bv64, b: bv64)
    requires InRange(w, y) && InRange(w, b) && LeftRun(y, b, Bits(w), Mask(w))
    ensures y == Mask(w) & !(b - 1)
  {
    match w
    case W8 =>
    case W16 =>
    case W32 =>
    case W64 =>
  }

  /** On a narrow type the guarded steps find the run already complete. */
  lemma LeftRunFinish(w: Width, y: bv64, b: bv64)
    requires InRange(w, y) && InRange(w, b) && LeftRun(y, b, Bits(w), Mask(w))
    ensures SmearLeft(w, y, 0) == Mask(w) & !(b - 1)
  {
    LeftRunDone(w, y, b);
    SmearLeftIdle(w, y);
  }

  lemma LeftCascade8(y: bv64, b: bv64)
    requires InRange(W8, b) && LeftRun(y, b, 1, Mask(W8))
    ensures LeftCascade(W8, y) == Mask(W8) & !(b - 1)
  {
    Guards8();
    var y1 := SmearLeft(W8, y, 1);
    LeftRunOr1(W8, y, b);
    var y2 := SmearLeft(W8, y1, 2);
    LeftRunOr2(W8, y1, b);
    var y3 := SmearLeft(W8, y2, 4);
    LeftRunOr4(W8, y2, b);
    LeftRunFinish(W8, y3, b);
  }

  lemma LeftCascade16(y: bv64, b: bv64)
    requires InRange(W16, b) && LeftRun(y, b, 1, Mask(W16))
    ensures LeftCascade(W16, y) == Mask(W16) & !(b - 1)
  {
    Guards16();
    var y1 := SmearLeft(W16, y, 1);
    LeftRunOr1(W16, y, b);
    var y2 := SmearLeft(W16, y1, 2);
    LeftRunOr2(W16, y1, b);
    var y3 := SmearLeft(W16, y2, 4);
    LeftRunOr4(W16, y2, b);
    var y4 := SmearLeft(W16, y3, 8);
    LeftRunOr8(W16, y3, b);
    LeftRunFinish(W16, y4, b);
  }

  lemma LeftCascade32(y: bv64, b: bv64)
    requires InRange(W32, b) && LeftRun(y, b, 1, Mask(W32))
    ensures LeftCascade(W32, y) == Mask(W32) & !(b - 1)
  {
    Guards32();
    var y1 := SmearLeft(W32, y, 1);
    LeftRunOr1(W32, y, b);
    var y2 := SmearLeft(W32, y1, 2);
    LeftRunOr2(W32, y1, b);
    var y3 := SmearLeft(W32, y2, 4);
    LeftRunOr4(W32, y2, b);
    var y4 := SmearLeft(W32, y3, 8);
    LeftRunOr8(W32, y3, b);
    var y5 := SmearLeft(W32, y4, 16);
    LeftRunOr16(W32, y4, b);
    LeftRunFinish(W32, y5, b);
  }

  lemma LeftCascade64(y: bv64, b: bv64)
    requires InRange(W64, b) && LeftRun(y, b, 1, Mask(W64))
    ensures LeftCascade(W64, y) == Mask(W64) & !(b - 1)
  {
    Guards64();
    var y1 := SmearLeft(W64, y, 1);
    LeftRunOr1(W64, y, b);
    var y2 := SmearLeft(W64, y1, 2);
    LeftRunOr2(W64, y1, b);
    var y3 := SmearLeft(W64, y2, 4);
    LeftRunOr4(W64, y2, b);
    var y4 := SmearLeft(W64, y3, 8);
    LeftRunOr8(W64, y3, b);
    var y5 := SmearLeft(W64, y4, 16);
    LeftRunOr16(W64, y4, b);
    var y6 := SmearLeft(W64, y5, 32);
    LeftRunOr32(y5, b);
    LeftRunDone(W64, y6, b);
  }

  /** On every width the left cascade turns a value whose lowest set bit is
      `b` into all the bits of the type from `b` up. */
  lemma LeftCascadeFills(w: Width, y: bv64, b: bv64)
    requires InRange(w, b) && LeftRun(y, b, 1, Mask(w))
    ensures LeftCascade(w, y) == Mask(w) & !(b - 1)
  {
    match w
    case W8 => LeftCascade8(y, b);
    case W16 => LeftCascade16(y, b);
    case W32 => LeftCascade32(y, b);
    case W64 => LeftCascade64(y, b);
  }

  /** The operand itself starts the run at its lowest set bit. */
  lemma LeftRunStart(w: Width, x: bv64, b: bv64)
    requires InRange(w, x) && IsLowestBit(x, b)
    ensures InRange(w, b) && LeftRun(x, b, 1, Mask(w))
  {}

  /** `~filled + !!filled`, masked by `filled`, isolates the bottom of the
      run. */
  lemma IsolateRunBottom(w: Width, b: bv64)
    requires InRange(w, b) && PowerOfTwo(b)
    ensures var f := Mask(w) & !(b - 1); Store(w, Store(w, !f + Flag(f)) & f) == b
  {
    match w
    case W8 =>
    case W16 =>
    case W32 =>
    case W64 =>
  }

  /** `PreserveLSB` maps a value whose lowest set bit is `b` to `b`. */
  lemma PreserveLsbAt(w: Width, x: bv64, b: bv64)
    requires InRange(w, x) && IsLowestBit(x, b)
    ensures PreserveLSB(w, x) == b
  {
    LeftRunStart(w, x, b);
    LeftCascadeFills(w, x, b);
    IsolateRunBottom(w, b);
  }

  lemma LeftCascadeZero(w: Width)
    ensures LeftCascade(w, 0) == 0
  {
    SmearLeftIdle(w, 0);
  }

  lemma PreserveLsbZero(w: Width)
    ensures PreserveLSB(w, 0) == 0
  {
    LeftCascadeZero(w);
  }

  /** For a non-zero `x`, `PreserveLSB` keeps exactly its lowest set bit. */
  lemma {:induction false} PreserveLsbKeepsLowestBit(w: Width, x: bv64)
    requires InRange(w, x) && x != 0
    ensures IsLowestBit(x, PreserveLSB(w, x))
  {
    var r := TrailingZeros(x);
    LowestBitOfCount(x, r);
    PreserveLsbAt(w, x, 1 << r);
  }

  /** Both directions: for a non-zero `x`, `b` is what `PreserveLSB` returns
      exactly when `b` is the lowest set bit of `x`. */
  lemma PreserveLsbIsLowestBit(w: Width, x: bv64, b: bv64)
    requires InRange(w, x) && x != 0
    ensures PreserveLSB(w, x) == b <==> IsLowestBit(x, b)
  {
    if IsLowestBit(x, b) {
      PreserveLsbAt(w, x, b);
    } else {
      PreserveLsbKeepsLowestBit(w, x);
    }
  }

  /** The result is bit `TrailingZeros(x)`, the bit the one-at-a-time count
      stops at. */
  lemma {:induction false} PreserveLsbIsCountBit(w: Width, x: bv64, r: bv64)
    requires InRange(w, x) && x != 0 && r == TrailingZeros(x)
    ensures r < 64 && PreserveLSB(w, x) == 1 << r
  {
    LowestBitOfCount(x, r);
    PreserveLsbAt(w, x, 1 << r);
  }

  lemma LowestBitIsNegAnd(x: bv64, b: bv64)
    requires IsLowestBit(x, b)
    ensures x & (0 - x) == b
  {}

  /** The result agrees with the two's-complement idiom `x & -x`. */
  lemma PreserveLsbIsNegAnd(w: Width, x: bv64)
    requires InRange(w, x)
    ensures PreserveLSB(w, x) == x & (0 - x)
  {
    if x == 0 {
      PreserveLsbZero(w);
    } else {
      PreserveLsbKeepsLowestBit(w, x);
      LowestBitIsNegAnd(x, PreserveLSB(w, x));
    }
  }
}
