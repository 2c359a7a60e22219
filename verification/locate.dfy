/**
 * `__locate_bit_branchless`: the 1-based position of the single set bit of a
 * word, found by seven mask tests whose results are the seven bits of the
 * answer.
 */
module Locate {
  import opened Word

  /** `!!(x & (Tin)(in_111 & mask))`: one binary digit of the answer. */
  function Test(w: Width, x: bv64, mask: bv64): bv64
  {
    Flag(x & Store(w, Mask(w) & mask))
  }

  /** `__locate_bit_branchless(x, Tin, Tout)` for `x` of width `w` and an
      unsigned `Tout` of width `ow`. */
  function LocateBit(w: Width, ow: Width, x: bv64): (r: bv64)
    requires InRange(w, x)
    ensures InRange(ow, r)
  {
    Store(ow,
      (Test(w, x, 0x5555_5555_5555_5555) << 0)
      + (Test(w, x, 0x6666_6666_6666_6666) << 1)
      + (Test(w, x, 0x7878_7878_7878_7878) << 2)
      + (Test(w, x, 0x7f80_7f80_7f80_7f80) << 3)
      + (Test(w, x, 0x7fff_8000_7fff_8000) << 4)
      + (Test(w, x, 0x7fff_ffff_8000_0000) << 5)
      + (Test(w, x, 0x8000_0000_0000_0000) << 6))
  }

  lemma LocateBitZero(w: Width, ow: Width)
    ensures LocateBit(w, ow, 0) == 0
  {}

  /** A value of the type never meets the mask bits that `in_111` cuts off,
      so those bits never affect a test. */
  lemma AndWithin(x: bv64, m: bv64, mask: bv64)
    requires x & m == x
    ensures x & ((m & mask) & m) == x & mask
  {}

  lemma MaskedTest(w: Width, x: bv64, mask: bv64)
    requires InRange(w, x)
    ensures x & Store(w, Mask(w) & mask) == x & mask
  {
    AndWithin(x, Mask(w), mask);
  }

  /** Each test asks whether `x` meets the untruncated mask. */
  lemma TestIsMaskTest(w: Width, x: bv64, mask: bv64)
    requires InRange(w, x)
    ensures Test(w, x, mask) == Flag(x & mask)
  {
    MaskedTest(w, x, mask);
  }

  lemma TestWidthIndependent(w: Width, x: bv64, mask: bv64)
    requires InRange(w, x)
    ensures Test(w, x, mask) == Test(W64, x, mask)
  {
    TestIsMaskTest(w, x, mask);
    TestIsMaskTest(W64, x, mask);
  }

  /** Truncating the masks to the input width does not change the answer:
      it is the one the full 64-bit masks give. */
  lemma LocateBitWidthIndependent(w: Width, ow: Width, x: bv64)
    requires InRange(w, x)
    ensures LocateBit(w, ow, x) == LocateBit(W64, ow, x)
  {
    TestWidthIndependent(w, x, 0x5555_5555_5555_5555);
    TestWidthIndependent(w, x, 0x6666_6666_6666_6666);
    TestWidthIndependent(w, x, 0x7878_7878_7878_7878);
    TestWidthIndependent(w, x, 0x7f80_7f80_7f80_7f80);
    TestWidthIndependent(w, x, 0x7fff_8000_7fff_8000);
    TestWidthIndependent(w, x, 0x7fff_ffff_8000_0000);
    TestWidthIndependent(w, x, 0x8000_0000_0000_0000);
  }

  /** A position fits every output type, even an 8-bit one. */
  lemma SmallFits(ow: Width, v: bv64)
    requires v <= 64
    ensures Store(ow, v) == v
  {}

  /** On the full width, bit `k` is reported at position `k + 1`. */
  lemma LocateBitOfSingle64(ow: Width, k: bv64)
    requires k < 64
    ensures LocateBit(W64, ow, 1 << k) == k + 1
  {
    SmallFits(ow, k + 1);
  }

  lemma SingleBitInRange(w: Width, k: bv64)
    requires k < Bits(w)
    ensures InRange(w, 1 << k)
  {
    match w
    case W8 =>
    case W16 =>
    case W32 =>
    case W64 =>
  }

  /** `LocateBit(1 << k) == k + 1` for every bit `k` of the type: the
      position it reports is 1-based, and it undoes the shift. */
  lemma LocateBitOfSingle(w: Width, ow: Width, k: bv64)
    requires k < Bits(w)
    ensures (1 as bv64) << k != 0 && k + 1 <= 64
    ensures InRange(w, 1 << k) && LocateBit(w, ow, 1 << k) == k + 1
  {
    BitsAtMost64(w);
    SingleBitInRange(w, k);
    LocateBitWidthIndependent(w, ow, 1 << k);
    LocateBitOfSingle64(ow, k);
  }

  lemma LocateBitOfLength64(ow: Width, r: bv64)
    requires 0 < r <= 64
    ensures LocateBit(W64, ow, 1 << (r - 1)) == r
  {
    SmallFits(ow, r);
  }

  /** The same fact by position: bit `r - 1` is reported as `r`. */
  lemma LocateBitOfLength(w: Width, ow: Width, r: bv64)
    requires 0 < r <= Bits(w)
    ensures (1 as bv64) << (r - 1) != 0 && r <= 64
    ensures InRange(w, 1 << (r - 1)) && LocateBit(w, ow, 1 << (r - 1)) == r
  {
    BitsAtMost64(w);
    SingleBitInRange(w, r - 1);
    LocateBitWidthIndependent(w, ow, 1 << (r - 1));
    LocateBitOfLength64(ow, r);
  }
}
