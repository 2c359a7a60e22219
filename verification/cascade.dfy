/**
 * The OR-shift cascades shared by `__preserve_msb_branchless` and
 * `__preserve_lsb_branchless`.  Each macro updates its variable in place, one
 * statement at a time; here every statement is one `var`, and every
 * assignment to the variable is a `Store` into its type.
 */
module Cascade {
  import opened Word

  /** Shift amount `((size > k) << n)`: `1 << n` when the guard holds, and a
      shift by 0 (a step that changes nothing) on types too narrow for it. */
  function GuardedShift(guard: bool, n: bv64): (s: bv64)
    requires n <= 5
    ensures s <= 32
    ensures s == 0 || guard
  {
    (if guard then 1 else 0) << n
  }

  /** One statement `X |= X >> s`. */
  function SmearRight(w: Width, y: bv64, s: bv64): (r: bv64)
    requires s <= 32
    ensures InRange(w, r)
  {
    Store(w, y | (y >> s))
  }

  /** One statement `X |= X << s`. */
  function SmearLeft(w: Width, y: bv64, s: bv64): (r: bv64)
    requires s <= 32
    ensures InRange(w, r)
  {
    Store(w, y | (y << s))
  }

  /** The six `X |= X >> ...` statements of `__preserve_msb_branchless`; the
      last three shift amounts are guarded by the size of the type.  Every
      step stores back into the type. */
  function RightCascade(w: Width, y: bv64): (r: bv64)
    ensures InRange(w, r)
  {
    var y1 := SmearRight(w, y, 1);
    var y2 := SmearRight(w, y1, 2);
    var y3 := SmearRight(w, y2, 4);
    var y4 := SmearRight(w, y3, GuardedShift(Size(w) > 1, 3));
    var y5 := SmearRight(w, y4, GuardedShift(Size(w) > 2, 4));
    SmearRight(w, y5, GuardedShift(Size(w) > 4, 5))
  }

  /** The six `X |= X << ...` statements of `__preserve_lsb_branchless`,
      each stored back into the type. */
  function LeftCascade(w: Width, y: bv64): (r: bv64)
    ensures InRange(w, r)
  {
    var y1 := SmearLeft(w, y, 1);
    var y2 := SmearLeft(w, y1, 2);
    var y3 := SmearLeft(w, y2, 4);
    var y4 := SmearLeft(w, y3, GuardedShift(Size(w) > 1, 3));
    var y5 := SmearLeft(w, y4, GuardedShift(Size(w) > 2, 4));
    SmearLeft(w, y5, GuardedShift(Size(w) > 4, 5))
  }

  /** The three guarded shift amounts on each width: a step is switched off
      exactly when the type is too narrow for its shift. */
  lemma Guards8()
    ensures GuardedShift(Size(W8) > 1, 3) == 0
    ensures GuardedShift(Size(W8) > 2, 4) == 0
    ensures GuardedShift(Size(W8) > 4, 5) == 0
  {}

  lemma Guards16()
    ensures GuardedShift(Size(W16) > 1, 3) == 8
    ensures GuardedShift(Size(W16) > 2, 4) == 0
    ensures GuardedShift(Size(W16) > 4, 5) == 0
  {}

  lemma Guards32()
    ensures GuardedShift(Size(W32) > 1, 3) == 8
    ensures GuardedShift(Size(W32) > 2, 4) == 16
    ensures GuardedShift(Size(W32) > 4, 5) == 0
  {}

  lemma Guards64()
    ensures GuardedShift(Size(W64) > 1, 3) == 8
    ensures GuardedShift(Size(W64) > 2, 4) == 16
    ensures GuardedShift(Size(W64) > 4, 5) == 32
  {}

  /** A step switched off by its guard leaves the value alone. */
  lemma SmearRightIdle(w: Width, y: bv64)
    requires InRange(w, y)
    ensures SmearRight(w, y, 0) == y
  {}

  lemma SmearLeftIdle(w: Width, y: bv64)
    requires InRange(w, y)
    ensures SmearLeft(w, y, 0) == y
  {}

  /** Every value up to a value of the type is itself a value of the type. */
  lemma AtMostInRange(w: Width, y: bv64, z: bv64)
    requires InRange(w, z) && y <= z
    ensures InRange(w, y)
  {
    match w
    case W8 =>
    case W16 =>
    case W32 =>
    case W64 =>
  }
}
