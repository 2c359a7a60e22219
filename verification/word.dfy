/**
 * Unsigned machine words of the widths the bit-scan generators accept.
 *
 * Every value is carried as a `bv64`.  A C object of an unsigned type that is
 * `w` bits wide holds exactly the `bv64` values whose bits at and above `w`
 * are clear (`InRange`), and storing an integer into such an object keeps its
 * low `w` bits (`Store`).  Integer promotion of the narrow types to `int`
 * never changes a result once it is stored back, so it is not modelled
 * separately.
 */
module Word {

  /** The unsigned in_type / out_type of a generated function. */
  datatype Width = W8 | W16 | W32 | W64

  /** `sizeof(type)` in bytes. */
  function Size(w: Width): bv64
  {
    match w
    case W8 => 1
    case W16 => 2
    case W32 => 4
    case W64 => 8
  }

  /** Number of value bits, `sizeof(type) * 8`. */
  function Bits(w: Width): bv64
  {
    match w
    case W8 => 8
    case W16 => 16
    case W32 => 32
    case W64 => 64
  }

  lemma BitsAtMost64(w: Width)
    ensures 0 < Bits(w) <= 64
  {}

  /** The value with the `k` low bits set, `(1 << k) - 1`. */
  function LowOnes(k: bv64): bv64
    requires k <= 64
  {
    (1 << k) - 1
  }

  /** The all-ones value of the type, `(type) ~(type) 0`. */
  function Mask(w: Width): (m: bv64)
  {
    match w
    case W8 => 0xFF
    case W16 => 0xFFFF
    case W32 => 0xFFFF_FFFF
    case W64 => 0xFFFF_FFFF_FFFF_FFFF
  }

  /** `x` is a value of the unsigned type of width `w`. */
  predicate InRange(w: Width, x: bv64)
  {
    x & Mask(w) == x
  }

  /** Conversion of a (possibly wrapped) integer to the unsigned type of width
      `w`: reduction modulo 2^Bits(w), i.e. keeping the low bits. */
  function Store(w: Width, v: bv64): (r: bv64)
    ensures InRange(w, r)
  {
    v & Mask(w)
  }

  /** Storing a value that already fits changes nothing. */
  lemma StoreFits(w: Width, v: bv64)
    requires InRange(w, v)
    ensures Store(w, v) == v
  {}

  /** C's `!!v`: 1 when `v` is non-zero, else 0. */
  function Flag(v: bv64): (r: bv64)
    ensures r == 0 <==> v == 0
    ensures r <= 1
  {
    if v != 0 then 1 else 0
  }

  /** C's `!v`: 1 when `v` is zero, else 0. */
  function Not(v: bv64): (r: bv64)
    ensures r == 0 <==> v != 0
    ensures r <= 1
  {
    if v == 0 then 1 else 0
  }

  /** C's `a && b` on integers: 1 when both are non-zero, else 0. */
  function LogicalAnd(a: bv64, b: bv64): (r: bv64)
    ensures r == 1 <==> a != 0 && b != 0
    ensures r <= 1
  {
    if a != 0 && b != 0 then 1 else 0
  }

  /** `b` has exactly one bit set. */
  predicate PowerOfTwo(b: bv64)
  {
    b != 0 && b & (b - 1) == 0
  }

  /** The masks of the four widths, as literals. */
  predicate WordMask(m: bv64)
  {
    m == 0xFF || m == 0xFFFF || m == 0xFFFF_FFFF || m == 0xFFFF_FFFF_FFFF_FFFF
  }

  lemma MaskIsWordMask(w: Width)
    ensures WordMask(Mask(w))
  {}
}
