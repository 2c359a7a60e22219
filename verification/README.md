# Branchless bit scans, modelled in Dafny

This project models the macros in `include/asm-generic/bitops/gen_ffls_branchless.h`. They generate branchless bit-scan functions for unsigned words of 8, 16, 32 and 64 bits:

- two bit-isolation primitives:
  - `__preserve_msb_branchless` keeps only the highest set bit.
  - `__preserve_lsb_branchless` keeps only the lowest set bit.
- the position decoder `__locate_bit_branchless`.
- `rounddown_pow_of_two_inplace_branchless`.
- six function generators:
  - `gen_fls_branchless`, `gen_ffs_branchless`
  - `gen_flz_branchless`, `gen_ffz_branchless`
  - `gen_clz_branchless`, `gen_ctz_branchless`

Every value is a `bv64`. The `in_type` and `out_type` of a generated function are a `Width`:

- A value of width `w` is a `bv64` whose bits at and above `w` are clear (`InRange`).
- Every C conversion or assignment into such a type keeps the low bits (`Store`).

Each macro statement appears as one step of the model, including the guarded shift amounts `((size > k) << n)`. On narrow types those guards become shifts by 0. The C operators `!`, `!!` and `&&` on integers are `Not`, `Flag` and `LogicalAnd`.

Modules:

| module | models |
|---|---|
| `Word` | widths, masks, stores and the C truth-value operators |
| `Cascade` | the OR-shift cascades shared by both isolation macros, with their guards |
| `Msb` | `__preserve_msb_branchless` and `rounddown_pow_of_two_inplace_branchless` |
| `Lsb` | `__preserve_lsb_branchless` |
| `Locate` | `__locate_bit_branchless` |
| `Scan` | the six generated functions, with their macro parameters as arguments |
| `Findings` | configurations whose code misses its comment, each with a corrected definition |

`BitSpec` holds the reference definitions the branchless code is measured against:

- `BitLength` counts significant bits one bit at a time.
- `TrailingZeros` counts trailing zero bits one bit at a time.
- `IsBitLength`, `IsTrailingZeros`, `IsHighestBit` and `IsLowestBit` characterise these by inequalities.

The proofs connect every macro to these definitions.

How the model reads the code:

- **Positions are 1-based.** `__locate_bit_branchless` returns the 1-based position of the single set bit: bit `k` gives `k + 1`, as its comment at lines 53-54 says.
- **flz/ffz pass `start_from` through.** `gen_flz_branchless` and `gen_ffz_branchless` build their private fls/ffs with the caller's `start_from` (lines 167-168 and 197-198); only clz and ctz fix it at 1 (lines 227-228 and 258-259). So flz is the private fls applied to `~x` converted back to `in_type`, and ffz is the private ffs applied to it; `Scan.Flz` and `Scan.Ffz` are defined that way.
- **The clz width term.** `sizeof(in_type) * ((!!nonzero_exception) * 8)` is modelled as `if Flag(nonzero_exception) == 1 then Bits(w) else 0`. The factor `!!nonzero_exception * 8` is only ever 0 or 8.
- **flz(0) and ffz(0).** Lines 157 and 187 say these functions return 0 when they take 0, a line copied from fls/ffs. In the code:
  - `flz(0)` is fls of all ones, the width (`Scan.FlzOfZero`).
  - `ffz(0)` is 1 (`Scan.FfzOfZero`).
  - The all-ones input is the one with no clear bit. There flz and ffz return what fls and ffs return for 0 (`Scan.FlzOfAllOnes`, `Scan.FfzOfAllOnes`).

## Model

All paths are in `include/asm-generic/bitops/gen_ffls_branchless.h`.

| member | source | states |
|---|---|---|
| `Cascade.RightCascade` | include/asm-generic/bitops/gen_ffls_branchless.h:25-30 | the six `X \|= X >> ...` statements of the msb macro, each stored back into the type, with the last three amounts guarded by `sizeof(type)`; the result is a value of the type |
| `Cascade.LeftCascade` | include/asm-generic/bitops/gen_ffls_branchless.h:42-47 | the six `X \|= X << ...` statements of the lsb macro, each stored back into the type, guarded the same way; the result is a value of the type |
| `Cascade.GuardedShift` | include/asm-generic/bitops/gen_ffls_branchless.h:28-30 | the shift amount `((size > k) << n)` is at most 32 and is 0 unless the size guard holds |
| `Cascade.Guards8` | include/asm-generic/bitops/gen_ffls_branchless.h:28-30 | on an 8-bit type all three guarded steps shift by 0 |
| `Cascade.Guards16` | include/asm-generic/bitops/gen_ffls_branchless.h:28-30 | on a 16-bit type only the shift by 8 remains |
| `Cascade.Guards32` | include/asm-generic/bitops/gen_ffls_branchless.h:28-30 | on a 32-bit type the shifts by 8 and 16 remain |
| `Cascade.Guards64` | include/asm-generic/bitops/gen_ffls_branchless.h:28-30 | on a 64-bit type all three guarded shifts (8, 16, 32) take effect |
| `Cascade.SmearRightIdle` | include/asm-generic/bitops/gen_ffls_branchless.h:28-30 | a right step switched off by its guard leaves the variable unchanged |
| `Cascade.SmearLeftIdle` | include/asm-generic/bitops/gen_ffls_branchless.h:45-47 | a left step switched off by its guard leaves the variable unchanged |
| `Msb.PreserveMSB` | include/asm-generic/bitops/gen_ffls_branchless.h:18-32 | `__preserve_msb_branchless`: capture `!!X`, shift right once, run the right cascade, add the captured flag; the result is a value of the type |
| `Msb.RightCascadeFills` | include/asm-generic/bitops/gen_ffls_branchless.h:25-30 | on every width, the right cascade turns an operand whose top bit is just below the power of two `b` into all the ones below `b` |
| `Msb.PreserveMsbAt` | include/asm-generic/bitops/gen_ffls_branchless.h:15-32 | if `b` is the highest set bit of `x`, the macro leaves exactly `b` |
| `Msb.PreserveMsbKeepsHighestBit` | include/asm-generic/bitops/gen_ffls_branchless.h:15-32 | for a non-zero `x`, the result is a power of two `p` with `p <= x < 2p` |
| `Msb.PreserveMsbIsHighestBit` | include/asm-generic/bitops/gen_ffls_branchless.h:15-32 | for a non-zero `x`, `b` is the result exactly when `b` is the highest set bit of `x` |
| `Msb.PreserveMsbIsLengthBit` | include/asm-generic/bitops/gen_ffls_branchless.h:18-32 | the result is bit `BitLength(x) - 1`, the bit the one-at-a-time count stops at |
| `Msb.PreserveMsbZero` | include/asm-generic/bitops/gen_ffls_branchless.h:15-32 | 0 is left as 0 |
| `Msb.HighestBitUnique` | include/asm-generic/bitops/gen_ffls_branchless.h:15-32 | a word has at most one highest set bit, so the bit the macro keeps is determined by `x` (it exists for every non-zero `x`, by `Msb.PreserveMsbKeepsHighestBit`) |
| `Msb.RoundDownPowOfTwo` | include/asm-generic/bitops/gen_ffls_branchless.h:89-90 | `rounddown_pow_of_two_inplace_branchless` is the msb macro on the variable's own type; the result is a value of that type |
| `Msb.RoundDownIsPowerOfTwo` | include/asm-generic/bitops/gen_ffls_branchless.h:84-90 | rounding a non-zero `x` down gives a power of two `p` with `p <= x < 2p` |
| `Msb.RoundDownIsGreatest` | include/asm-generic/bitops/gen_ffls_branchless.h:84-90 | no power of two at or below `x` exceeds the rounded value |
| `Msb.RoundDownKeepsPowers` | include/asm-generic/bitops/gen_ffls_branchless.h:84-90 | a power of two is left unchanged |
| `Msb.RoundDownIdempotent` | include/asm-generic/bitops/gen_ffls_branchless.h:84-90 | rounding twice gives the same value as rounding once |
| `Lsb.PreserveLSB` | include/asm-generic/bitops/gen_ffls_branchless.h:37-51 | `__preserve_lsb_branchless`: run the left cascade, then `~filled + !!filled` masked with `filled`; the result is a value of the type |
| `Lsb.LeftCascadeFills` | include/asm-generic/bitops/gen_ffls_branchless.h:42-47 | on every width, the left cascade fills every bit of the type from the lowest set bit `b` upwards |
| `Lsb.IsolateRunBottom` | include/asm-generic/bitops/gen_ffls_branchless.h:48-50 | `~filled + !!filled`, masked with `filled`, leaves only the bottom bit `b` of the filled run |
| `Lsb.PreserveLsbAt` | include/asm-generic/bitops/gen_ffls_branchless.h:34-51 | if `b` is the lowest set bit of `x`, the macro leaves exactly `b` |
| `Lsb.PreserveLsbKeepsLowestBit` | include/asm-generic/bitops/gen_ffls_branchless.h:34-51 | for a non-zero `x`, the result is a power of two that is set in `x` and has every bit of `x` below it clear |
| `Lsb.PreserveLsbIsLowestBit` | include/asm-generic/bitops/gen_ffls_branchless.h:34-51 | for a non-zero `x`, `b` is the result exactly when `b` is the lowest set bit of `x` |
| `Lsb.PreserveLsbIsCountBit` | include/asm-generic/bitops/gen_ffls_branchless.h:37-51 | the result is bit `TrailingZeros(x)` |
| `Lsb.PreserveLsbZero` | include/asm-generic/bitops/gen_ffls_branchless.h:34-51 | 0 is left as 0 |
| `Lsb.PreserveLsbIsNegAnd` | include/asm-generic/bitops/gen_ffls_branchless.h:34-51 | on every input, the result agrees with the two's-complement idiom `x & -x` |
| `Locate.LocateBit` | include/asm-generic/bitops/gen_ffls_branchless.h:73-82 | `__locate_bit_branchless`: the sum of the seven `!!(x & (Tin)(in_111 & mask)) << k` tests, converted to `out_type`; the result is a value of `out_type` |
| `Locate.LocateBitZero` | include/asm-generic/bitops/gen_ffls_branchless.h:53-54 | 0 is located at position 0 |
| `Locate.TestIsMaskTest` | include/asm-generic/bitops/gen_ffls_branchless.h:73-82 | truncating a mask to the input type by `in_111` does not change the test on a value of that type |
| `Locate.LocateBitWidthIndependent` | include/asm-generic/bitops/gen_ffls_branchless.h:73-82 | the truncated masks locate every value of the type exactly as the full 64-bit masks do |
| `Locate.LocateBitOfSingle64` | include/asm-generic/bitops/gen_ffls_branchless.h:58-82 | with the full masks, bit `k` is located at `k + 1` for every `k < 64` |
| `Locate.LocateBitOfSingle` | include/asm-generic/bitops/gen_ffls_branchless.h:53-54 | for every bit `k` of the type, `1 << k` is located at the 1-based position `k + 1`, which fits every `out_type` |
| `Locate.LocateBitOfLength` | include/asm-generic/bitops/gen_ffls_branchless.h:53-54 | bit `r - 1` of the type is located at `r` |
| `BitSpec.BitLengthIsHighestSet` | include/asm-generic/bitops/gen_ffls_branchless.h:102-103 | the reference count is 0 exactly for 0; otherwise bit `BitLength(x) - 1` is set and nothing above it is |
| `BitSpec.TrailingZerosIsLowestSet` | include/asm-generic/bitops/gen_ffls_branchless.h:128-129 | in a non-zero word, bit `TrailingZeros(x)` is set and every bit below it is clear |
| `BitSpec.BitLengthIs` | include/asm-generic/bitops/gen_ffls_branchless.h:102-103 | any `r` that satisfies the inequalities of `IsBitLength` is the count |
| `BitSpec.TrailingZerosIs` | include/asm-generic/bitops/gen_ffls_branchless.h:128-129 | any `r` that satisfies `IsTrailingZeros` is the count |
| `Scan.Fls` | include/asm-generic/bitops/gen_ffls_branchless.h:110-116 | `gen_fls_branchless` on `x`: the preserved msb, its located position, minus `(!start_from) & (!x)`, stored into `out_type` |
| `Scan.FlsOfNonzero` | include/asm-generic/bitops/gen_ffls_branchless.h:110-116 | for a non-zero `x`, fls returns `BitLength(x)`, the 1-based position of the highest set bit, whatever `start_from` is |
| `Scan.FlsOfZero` | include/asm-generic/bitops/gen_ffls_branchless.h:110-116 | fls(0) is 0 when `start_from` is non-zero, and the all-ones `out_type` value when it is 0 |
| `Scan.FlsIsBitLength` | include/asm-generic/bitops/gen_ffls_branchless.h:93-116 | with `start_from = 1`, on every input fls equals the reference count of significant bits, so 0 for 0 |
| `Scan.FlsAtMostWidth` | include/asm-generic/bitops/gen_ffls_branchless.h:93-116 | with `start_from = 1`, fls never exceeds the width |
| `Scan.FlsOfOne` | include/asm-generic/bitops/gen_ffls_branchless.h:97-98 | with `start_from = 1`, fls(1) is 1 |
| `Scan.FlsOfAllOnes` | include/asm-generic/bitops/gen_ffls_branchless.h:110-116 | fls of the all-ones value is the width |
| `Scan.Ffs` | include/asm-generic/bitops/gen_ffls_branchless.h:136-142 | `gen_ffs_branchless` on `x`: the preserved lsb, its located position, minus `(!start_from) && (!x)`, stored into `out_type` |
| `Scan.FfsOfNonzero` | include/asm-generic/bitops/gen_ffls_branchless.h:136-142 | for a non-zero `x`, ffs returns `TrailingZeros(x) + 1`, the 1-based position of the lowest set bit, whatever `start_from` is |
| `Scan.FfsOfZero` | include/asm-generic/bitops/gen_ffls_branchless.h:136-142 | ffs(0) is 0 when `start_from` is non-zero, and the all-ones `out_type` value when it is 0 |
| `Scan.FfsIsTrailingZerosPlusOne` | include/asm-generic/bitops/gen_ffls_branchless.h:119-142 | with `start_from = 1`, ffs is 0 for 0 and one more than the index of the lowest set bit otherwise |
| `Scan.FfsAtMostWidth` | include/asm-generic/bitops/gen_ffls_branchless.h:119-142 | with `start_from = 1`, ffs never exceeds the width |
| `Scan.FfsOfEightAndAllOnes` | include/asm-generic/bitops/gen_ffls_branchless.h:136-142 | with `start_from = 1`, ffs(0b1000) is 4 and ffs of all ones is 1 |
| `Scan.Flz` | include/asm-generic/bitops/gen_ffls_branchless.h:162-172 | `gen_flz_branchless` on `x`: the private fls with the caller's `start_from` applied to `~x` converted to `in_type`; the result fits `out_type` |
| `Scan.Ffz` | include/asm-generic/bitops/gen_ffls_branchless.h:192-202 | `gen_ffz_branchless` on `x`: the private ffs with the caller's `start_from` applied to `~x` converted to `in_type`; the result fits `out_type` |
| `Scan.FlzOfNotAllOnes` | include/asm-generic/bitops/gen_ffls_branchless.h:162-172 | unless every bit is set, flz is the number of significant bits of `~x` in the type |
| `Scan.FfzOfNotAllOnes` | include/asm-generic/bitops/gen_ffls_branchless.h:192-202 | unless every bit is set, ffz is one more than the trailing zeros of `~x` |
| `Scan.FlzFindsHighestClearBit` | include/asm-generic/bitops/gen_ffls_branchless.h:154-172 | unless every bit is set, flz is the 1-based position of the highest clear bit: that bit is clear and every bit of the type above it is set |
| `Scan.FfzFindsLowestClearBit` | include/asm-generic/bitops/gen_ffls_branchless.h:184-202 | unless every bit is set, ffz is the 1-based position of the lowest clear bit: that bit is clear and every bit below it is set |
| `Scan.FlzOfAllOnes` | include/asm-generic/bitops/gen_ffls_branchless.h:162-172 | on all ones flz returns what fls returns for 0: 0 with `start_from = 1` |
| `Scan.FfzOfAllOnes` | include/asm-generic/bitops/gen_ffls_branchless.h:192-202 | on all ones ffz returns what ffs returns for 0: 0 with `start_from = 1` |
| `Scan.FlzOfZero` | include/asm-generic/bitops/gen_ffls_branchless.h:157-172 | flz(0) is the width, not the 0 the comment gives, whatever `start_from` is |
| `Scan.FfzOfZero` | include/asm-generic/bitops/gen_ffls_branchless.h:187-202 | ffz(0) is 1, not the 0 the comment gives, whatever `start_from` is |
| `Scan.Clz` | include/asm-generic/bitops/gen_ffls_branchless.h:222-233 | `gen_clz_branchless` on `x`: `sizeof(in_type) * (!!nonzero_exception * 8)` minus the private 1-based fls, stored into `out_type` |
| `Scan.ClzCountsLeadingZeros` | include/asm-generic/bitops/gen_ffls_branchless.h:205-233 | with the exception on, clz is the width minus the number of significant bits, so the width for 0 |
| `Scan.ClzOfZero` | include/asm-generic/bitops/gen_ffls_branchless.h:215-217 | with the exception on, clz(0) is `sizeof(in_type) * 8` |
| `Scan.ClzFindsHighestBit` | include/asm-generic/bitops/gen_ffls_branchless.h:211-213 | with the exception on and `x` non-zero, clz is a count below the width of the clear bits above the highest set bit |
| `Scan.ClzOfOne` | include/asm-generic/bitops/gen_ffls_branchless.h:222-233 | a 32-bit clz with the exception reports 31 leading zeros for 1 |
| `Scan.ClzWithoutExceptionAsWritten` | include/asm-generic/bitops/gen_ffls_branchless.h:222-233 | with the exception off, clz is `0 - BitLength(x)` stored into `out_type`: 0 for 0, and a wrapped negative count otherwise |
| `Scan.Ctz` | include/asm-generic/bitops/gen_ffls_branchless.h:253-263 | `gen_ctz_branchless` on `x`: the private 1-based ffs minus `(!nonzero_exception) && x`, stored into `out_type` |
| `Scan.CtzCountsTrailingZeros` | include/asm-generic/bitops/gen_ffls_branchless.h:242-244 | with the exception off, ctz of a non-zero `x` is the number of clear bits below its lowest set bit |
| `Scan.CtzOfZero` | include/asm-generic/bitops/gen_ffls_branchless.h:253-263 | ctz(0) is 0 whatever `nonzero_exception` is |
| `Scan.CtzOfEight` | include/asm-generic/bitops/gen_ffls_branchless.h:253-263 | with the exception off, ctz(0b1000) is 3 |
| `Scan.CtzWithExceptionAsWritten` | include/asm-generic/bitops/gen_ffls_branchless.h:253-263 | with the exception on, ctz returns the private 1-based ffs unchanged |
| `Findings.FlsFixed` | include/asm-generic/bitops/gen_ffls_branchless.h:110-116 | fls with `!!x` in place of `!x` in the return statement; the result fits `out_type` |
| `Findings.FfsFixed` | include/asm-generic/bitops/gen_ffls_branchless.h:136-142 | ffs with `!!x` in place of `!x` in the return statement; the result fits `out_type` |
| `Findings.FlsStartFromZeroAsWritten` | include/asm-generic/bitops/gen_ffls_branchless.h:110-116 | as written with `start_from = 0`, fls(0) is the all-ones `out_type` value and fls(1) is 1 |
| `Findings.FfsStartFromZeroAsWritten` | include/asm-generic/bitops/gen_ffls_branchless.h:136-142 | as written with `start_from = 0`, ffs(0) is the all-ones `out_type` value and ffs(1) is 1 |
| `Findings.FlsFixedIndexesHighestBit` | include/asm-generic/bitops/gen_ffls_branchless.h:97-105 | corrected fls is 0 for 0, and otherwise the index of the highest set bit counted from `start_from` |
| `Findings.FfsFixedIndexesLowestBit` | include/asm-generic/bitops/gen_ffls_branchless.h:123-131 | corrected ffs is 0 for 0, and otherwise the index of the lowest set bit counted from `start_from` |
| `Findings.FlsFixedStartFromZero` | include/asm-generic/bitops/gen_ffls_branchless.h:97-105 | corrected fls with `start_from = 0` maps both 0 and 1 to 0 |
| `Findings.FlsFixedOfAllOnes` | include/asm-generic/bitops/gen_ffls_branchless.h:97-103 | corrected fls with `start_from = 0` maps all ones to the top bit's index, one less than the width |
| `Findings.FfsFixedStartFromZero` | include/asm-generic/bitops/gen_ffls_branchless.h:123-131 | corrected ffs with `start_from = 0` maps both 0 and 1 to 0 |
| `Findings.FlsFixedAgrees` | include/asm-generic/bitops/gen_ffls_branchless.h:110-116 | for a non-zero `start_from` the corrected fls equals the code on every input |
| `Findings.FfsFixedAgrees` | include/asm-generic/bitops/gen_ffls_branchless.h:136-142 | for a non-zero `start_from` the corrected ffs equals the code on every input |
| `Findings.ClzFixed` | include/asm-generic/bitops/gen_ffls_branchless.h:222-233 | clz counting from the width when the exception is on or `x` is non-zero; the result fits `out_type` |
| `Findings.ClzWithoutExceptionOfOne` | include/asm-generic/bitops/gen_ffls_branchless.h:222-233 | as written with the exception off, clz(1) is the all-ones `out_type` value |
| `Findings.ClzFixedCountsLeadingZeros` | include/asm-generic/bitops/gen_ffls_branchless.h:211-217 | corrected clz is `Bits(w) - BitLength(x)` for a non-zero `x`, and 0 or the width for 0 as the exception selects |
| `Findings.ClzFixedAgrees` | include/asm-generic/bitops/gen_ffls_branchless.h:222-233 | with the exception on, the corrected clz equals the code on every input |
| `Findings.CtzFixed` | include/asm-generic/bitops/gen_ffls_branchless.h:253-263 | ctz subtracting `!!x` always and adding the width for an exceptional 0; the result fits `out_type` |
| `Findings.CtzWithExceptionOfZeroAndEight` | include/asm-generic/bitops/gen_ffls_branchless.h:253-263 | as written with the exception on, ctz(0) is 0 and ctz(0b1000) is 4 |
| `Findings.CtzFixedCountsTrailingZeros` | include/asm-generic/bitops/gen_ffls_branchless.h:242-248 | corrected ctz is `TrailingZeros(x)` for a non-zero `x`, and 0 or the width for 0 as the exception selects |
| `Findings.CtzFixedAgrees` | include/asm-generic/bitops/gen_ffls_branchless.h:253-263 | with the exception off, the corrected ctz equals the code on every input |

## Left out

- `include/linux/macro_paste.h` is not part of this model. It is preprocessor token pasting with no run-time behaviour.
- `__UNIQUE_ID`, `static`, `__always_inline`, `__attribute_const__` and `<linux/compiler.h>` are left out. They only name helpers and attach attributes at build time.
- Signed `in_type` and `out_type` are left out, so only unsigned 8-, 16-, 32- and 64-bit types are modelled. For a signed `in_type` the cascade of `__preserve_msb_branchless` right-shifts a possibly negative value, which is implementation-defined in C. For a signed `out_type` the conversion of an out-of-range result (such as `0 - 1` from the return statements) is implementation-defined too.
- Types wider than 64 bits are left out, because the position decoder has masks only up to 64 bits.
- Integer promotion of narrow types to `int` is not modelled step by step. Every intermediate is stored back into its type, which keeps the low bits, so the stored results are the same.
- `start_from` outside {0, 1} and any `nonzero_exception` are accepted as integers. The code reads them only through `!` and `!!`, and so does the model.
- Cascade.RightCascade: its own contract states only that the result fits its type; what the result is, is stated by `Msb.RightCascadeFills`.
- Cascade.LeftCascade: its own contract states only that the result fits its type; what the result is, is stated by `Lsb.LeftCascadeFills`.
- Msb.PreserveMSB: its own contract states only that the result fits its type; what the result is, is stated by `Msb.PreserveMsbIsHighestBit` and `Msb.PreserveMsbIsLengthBit`.
- Msb.RoundDownPowOfTwo: its own contract states only that the result fits its type; what the result is, is stated by `Msb.RoundDownIsPowerOfTwo` and `Msb.RoundDownIsGreatest`.
- Lsb.PreserveLSB: its own contract states only that the result fits its type; what the result is, is stated by `Lsb.PreserveLsbIsLowestBit` and `Lsb.PreserveLsbIsNegAnd`.
- Locate.LocateBit: its own contract states only that the result fits its type; what the result is, is stated by `Locate.LocateBitOfSingle`.
- Scan.Fls: its own contract states only that the result fits its type; what the result is, is stated by `Scan.FlsOfNonzero`, `Scan.FlsOfZero` and `Scan.FlsIsBitLength`.
- Scan.Ffs: its own contract states only that the result fits its type; what the result is, is stated by `Scan.FfsOfNonzero`, `Scan.FfsOfZero` and `Scan.FfsIsTrailingZerosPlusOne`.
- Scan.Flz: its own contract states only that the result fits its type; what the result is, is stated by `Scan.FlzFindsHighestClearBit` and `Scan.FlzOfAllOnes`.
- Scan.Ffz: its own contract states only that the result fits its type; what the result is, is stated by `Scan.FfzFindsLowestClearBit` and `Scan.FfzOfAllOnes`.
- Scan.Clz: its own contract states only that the result fits its type; what the result is, is stated by `Scan.ClzCountsLeadingZeros` and `Scan.ClzWithoutExceptionAsWritten`.
- Scan.Ctz: its own contract states only that the result fits its type; what the result is, is stated by `Scan.CtzCountsTrailingZeros`, `Scan.CtzOfZero` and `Scan.CtzWithExceptionAsWritten`.
- Findings.FlsFixed: its own contract states only that the result fits its type; what the result is, is stated by `Findings.FlsFixedIndexesHighestBit` and `Findings.FlsFixedAgrees`.
- Findings.FfsFixed: its own contract states only that the result fits its type; what the result is, is stated by `Findings.FfsFixedIndexesLowestBit` and `Findings.FfsFixedAgrees`.
- Findings.ClzFixed: its own contract states only that the result fits its type; what the result is, is stated by `Findings.ClzFixedCountsLeadingZeros` and `Findings.ClzFixedAgrees`.
- Findings.CtzFixed: its own contract states only that the result fits its type; what the result is, is stated by `Findings.CtzFixedCountsTrailingZeros` and `Findings.CtzFixedAgrees`.

## Findings

| source | as written | input that shows it | evidently intended | confidence | as-written member | corrected member |
|---|---|---|---|---|---|---|
| include/asm-generic/bitops/gen_ffls_branchless.h:114-115 | `pos - ((!start_from) & (!x))` subtracts only when the preserved bit is 0 | `start_from = 0`: fls(0) is the all-ones value and fls(1) is 1 | subtract `!start_from` from a set bit's position (`!!x`), so that fls(0) = 0 and fls(1) = 0 | not executed | `Findings.FlsStartFromZeroAsWritten` | `Findings.FlsFixedIndexesHighestBit` |
| include/asm-generic/bitops/gen_ffls_branchless.h:140-141 | `pos - ((!start_from) && (!x))` subtracts only when the preserved bit is 0 | `start_from = 0`: ffs(0) is the all-ones value and ffs(1) is 1 | subtract `!start_from` when `x` is non-zero, so that ffs(0) = 0 and ffs(1) = 0 | not executed | `Findings.FfsStartFromZeroAsWritten` | `Findings.FfsFixedIndexesLowestBit` |
| include/asm-generic/bitops/gen_ffls_branchless.h:230-231 | the width is multiplied by `!!nonzero_exception`, so with the exception off every input is counted from 0 | `nonzero_exception = 0`, `x = 1`: clz is `0 - 1`, the all-ones value | count from the width whenever the exception is on or `x` is non-zero (`!!nonzero_exception \| !!x`) | not executed | `Findings.ClzWithoutExceptionOfOne` | `Findings.ClzFixedCountsLeadingZeros` |
| include/asm-generic/bitops/gen_ffls_branchless.h:261-262 | `ffs(x) - ((!nonzero_exception) && x)` subtracts nothing with the exception on | `nonzero_exception = 1`: ctz(0) is 0, not the width; ctz(0b1000) is 4, not 3 | subtract `!!x` always and add the width for an exceptional 0 | not executed | `Findings.CtzWithExceptionOfZeroAndEight` | `Findings.CtzFixedCountsTrailingZeros` |
