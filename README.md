# FastDecimal in Dafny

FastDecimal is a fixed-point decimal library for .NET. A `FastDecimal64<T>`
(or `FastDecimal32<T>`) is a single signed 64-bit (32-bit) integer `v`. It
stands for `v / 10^s`, where the number of fractional digits `s` is fixed by
the type parameter `T`:

- 0..18 digits for the 64-bit type;
- 0..9 digits for the 32-bit type.

The library does all of its arithmetic in integers.

- Addition, subtraction, negation, `++` and `--` work on the raw value. Each
  comes in a wrapping form and in a checked form that throws
  `OverflowException`.
- Multiplication and division work on the magnitudes. They scale by `10^s`,
  round the quotient under one of the five `MidpointRounding` modes, and then
  put the sign back.
- The 64-bit type needs 128-bit intermediates for this. The library brings:
  - its own `UInt128`, whose division by a `ulong` is schoolbook long
    division on 32-bit limbs (Knuth's Algorithm D);
  - `Fast128BitDiv`, which divides a 128-bit value by `10^d` by multiplying
    with a magic reciprocal and shifting, after Granlund and Montgomery,
    "Division by invariant integers using multiplication" (1994).
- `Rounding` decides whether a truncated quotient gets one more unit.
- `DecimalStruct` reads the 16 bytes of a .NET `decimal` through fixed field
  offsets. The conversions to and from `decimal` are built on it.

The Dafny project models that core, one module per source file.

| module | file | models |
|---|---|---|
| `Machine` | `Machine.dfy` | the C# primitives the core relies on: unchecked `(long)`/`(int)` casts, truncating `/` and `%`, `Math.DivRem`, `Math.BigMul`, masked shifts, `\|`, `LeadingZeroCount` |
| `Outcome` | `Outcome.dfy` | `Result` (a value or the exception thrown) and `Option` |
| `U128` | `U128.dfy` | `UInt128`: the value `upper * 2^64 + lower`, `+`, `-`, comparisons, both `*`, `<<`, `>>`/`>>>`, `LeadingZeroCount` |
| `LongDivision` | `LongDivision.dfy` | `UInt128 / ulong` and `DivRem`: `DivideSlow` with `SubtractDivisor`, `AddDivisor` and `DivideGuessTooBig`, as methods over `uint` limb arrays |
| `Fast128BitDiv` | `Fast128BitDiv.dfy` | the tables of `10^d` and of the magic constants, and `DecDivRem128By128` |
| `Rounding` | `Rounding.dfy` | `Round64`, `Round128`, `RoundDec`, and what "correctly rounded" means in each mode |
| `DecimalStruct` | `DecimalStruct.dfy` | the byte layout of a `decimal` and its accessors `Scale`, `Negative`, `High32`, `Low64`, `High64`, `Low32` |
| `FastDecimal64` | `FastDecimal64.dfy` | the 64-bit type |
| `FastDecimal32` | `FastDecimal32.dfy` | the 32-bit type, its conversions from and to the 64-bit type, and its multiplication by an `int` |

The two value types are pure in the source: every operator builds a new value
from expressions. They are therefore datatypes and functions here, and a
checked operation is a function into `Result`. `DivideSlow` and its helpers
change stack-allocated limb buffers inside loops. They are therefore methods
over `array<u32>`, with loop invariants, proved against the numbers the limbs
stand for.

The main results:

- every `UInt128` operator computes its arithmetic meaning modulo 2^128;
- `DivideSlow` computes the floor quotient, and `DivRem` computes the
  remainder;
- for every table entry of 1..32 digits, `DecDivRem128By128` computes the
  exact quotient and remainder by `10^d`;
- the rounding decisions give the correctly rounded quotient in every mode;
- multiplication, division and `ChangePrecision` of both types give the
  correctly rounded result, with the sign put back. Checked, they overflow
  exactly when that result leaves the integer range; unchecked, they wrap.
  For the 64-bit multiplication with 0 fractional digits this holds for the
  corrected definition only; see "## Findings";
- the conversions to and from `decimal` rescale the coefficient exactly or
  round it half to even, and a value survives the round trip. For the
  checked 32-bit cast from `decimal` this holds for the corrected definition
  only; see "## Findings".

## Model

| member | source | states |
|---|---|---|
| Machine.ToInt64 | FastDecimal/FastDecimal64.cs:192-195 | an unchecked `(long)` cast keeps the value modulo 2^64 and changes nothing inside the `long` range |
| Machine.ToInt32 | FastDecimal/FastDecimal32.cs:182-185 | an unchecked `(int)` cast keeps the value modulo 2^32 and changes nothing inside the `int` range |
| Machine.TruncRem | FastDecimal/FastDecimal64.cs:595-599 | `%` on signed integers is smaller than the divisor in magnitude and takes the sign of the dividend |
| Machine.TruncDiv | FastDecimal/FastDecimal64.cs:617-621 | `Math.DivRem` on signed integers: the quotient times the divisor plus the truncating remainder is the dividend |
| Machine.TruncRemZero | FastDecimal/FastDecimal64.cs:595-599 | the truncating remainder is zero exactly when the divisor divides the value, and then the quotient is exact |
| Machine.DivRemIdentity | FastDecimal/FastDecimal32.cs:357 | `Math.DivRem` on `ulong` (`DivRemU64`) gives a quotient and a remainder below the divisor that make up the dividend: `q * y + r == x` |
| Machine.BigMul | FastDecimal/FastDecimal64.cs:514 | `Math.BigMul` returns the full 128-bit product as a high and a low word |
| Machine.Shl64Congruent | FastDecimal/UInt128.cs:346-376 | `ulong << s` (`Shl64`) masks the amount to 0..63 and is the one `ulong` congruent to `x * 2^(s mod 64)` modulo 2^64 |
| Machine.Shr64Floor | FastDecimal/UInt128.cs:383-413 | `ulong >> s` (`Shr64`) masks the amount to 0..63 and gives the largest `r` with `r * 2^(s mod 64) <= x` |
| Machine.Shl32Congruent | FastDecimal/UInt128.cs:171-172 | `uint << s` (`Shl32`) masks the amount to 0..31 and is the one `uint` congruent to `x * 2^(s mod 32)` modulo 2^32 |
| Machine.Shr32Floor | FastDecimal/UInt128.cs:171-172 | `uint >> s` (`Shr32`) masks the amount to 0..31 and gives the largest `r` with `r * 2^(s mod 32) <= x` |
| Machine.LeadingZeroCount64 | FastDecimal/UInt128.cs:144 | `ulong.LeadingZeroCount` is 64 exactly for zero, and otherwise places the value between 2^(63-r) and 2^(64-r) |
| Machine.LeadingZeroCount32 | FastDecimal/UInt128.cs:163 | `BitOperations.LeadingZeroCount` on a `uint`, the same with 32 bits |
| U128.ValInjective | FastDecimal/UInt128.cs:311-312 | two values are equal exactly when the numbers `upper * 2^64 + lower` are equal |
| U128.Add | FastDecimal/UInt128.cs:44-54 | `+` with the carry out of the lower half is the sum modulo 2^128 |
| U128.Sub | FastDecimal/UInt128.cs:418-428 | `-` with the borrow out of the lower half is the difference modulo 2^128 |
| U128.AddSubInverse | FastDecimal/UInt128.cs:418-428 | subtracting what was added gives back the start value, whatever wraps |
| U128.Less | FastDecimal/UInt128.cs:281-285 | `<` by upper then lower half is `<` on the numbers |
| U128.LessOrEqual | FastDecimal/UInt128.cs:288-292 | `<=` is `<=` on the numbers |
| U128.Greater | FastDecimal/UInt128.cs:296-300 | `>` is `>` on the numbers |
| U128.GreaterOrEqual | FastDecimal/UInt128.cs:303-307 | `>=` is `>=` on the numbers |
| U128.Equal | FastDecimal/UInt128.cs:311-312 | `==`, comparing the two halves, holds exactly when the numbers are equal |
| U128.NotEqual | FastDecimal/UInt128.cs:315-316 | `!=`, comparing the two halves, holds exactly when the numbers differ |
| U128.Mul | FastDecimal/UInt128.cs:325-330 | `UInt128 * UInt128` is the product modulo 2^128 |
| U128.MulU64 | FastDecimal/UInt128.cs:334-339 | `UInt128 * ulong` is the product modulo 2^128 |
| U128.ShiftLeft | FastDecimal/UInt128.cs:346-376 | `<<` masks the amount to 0..127 and gives `v * 2^s` modulo 2^128; a zero shift returns `v` |
| U128.ShiftLeftByOne | FastDecimal/Rounding.cs:39-40 | `remainder << 1` is twice the remainder modulo 2^128 |
| U128.ShiftRight | FastDecimal/UInt128.cs:379-413 | `>>` and `>>>` mask the amount to 0..127 and give `floor(v / 2^s)` |
| U128.ShiftRightWord | FastDecimal/Fast128BitDiv.cs:32 | a shift right by 64 leaves the upper half as the lower half |
| U128.LeadingZeroCount | FastDecimal/UInt128.cs:57-65 | the count is 128 exactly for zero, and otherwise places the value between 2^(127-r) and 2^(128-r) |
| LongDivision.MulSubLimb | FastDecimal/UInt128.cs:258-269 | one limb of `SubtractDivisor`: the new limb plus `q` times the divisor limb is the old limb plus the new carry shifted up, less the old carry |
| LongDivision.SubtractDivisor | FastDecimal/UInt128.cs:246-273 | the slice less `q` times the divisor, as numbers, with the returned borrow counting what went below the slice; nothing outside the slice changes |
| LongDivision.AddLimb | FastDecimal/UInt128.cs:87-91 | one limb of `AddDivisor`: the new limb and carry split the limb plus carry plus divisor limb |
| LongDivision.AddDivisor | FastDecimal/UInt128.cs:77-95 | the slice plus the divisor, as numbers, with the carry that falls off the top; nothing outside the slice changes |
| LongDivision.DivideGuessTooBig | FastDecimal/UInt128.cs:97-113 | true exactly when the guess times the two top divisor limbs exceeds the three top dividend limbs |
| LongDivision.LexCompare | FastDecimal/UInt128.cs:112 | comparing the high words, then the low words, compares the two-word numbers |
| LongDivision.GuessNotTooSmall | FastDecimal/UInt128.cs:196-201 | the first guess `valHi / divHi`, capped at `0xFFFFFFFF`, is at least the true quotient digit |
| LongDivision.TooBigMeansAbove | FastDecimal/UInt128.cs:204-207 | a guess that `DivideGuessTooBig` rejects lies above the true digit, so decrementing never skips it |
| LongDivision.GuessExact | FastDecimal/UInt128.cs:204-207 | a guess that passes `DivideGuessTooBig` is at most the true digit |
| LongDivision.EstimateQuotientDigit | FastDecimal/UInt128.cs:196-207 | the corrected guess is the true digit of the window or one more, and at most `0xFFFFFFFF` |
| LongDivision.SubtractOutcome | FastDecimal/UInt128.cs:212-214 | the borrow equals the top limb exactly when the digit was right, and then the slice holds the remainder; otherwise the digit was one too big |
| LongDivision.AddBackOutcome | FastDecimal/UInt128.cs:214-223 | after a digit one too big, adding the divisor back restores the remainder, with a carry of exactly one |
| LongDivision.SubtractDigit | FastDecimal/UInt128.cs:209-224 | the subtract and add-back step leaves the window's remainder in the slice and returns the exact digit |
| LongDivision.NextDigit | FastDecimal/UInt128.cs:179-224 | reading the window, guessing and subtracting give the true quotient digit of the window and leave its remainder |
| LongDivision.DivideDigit | FastDecimal/UInt128.cs:177-236 | one iteration of the loop keeps the division invariant: the limbs hold the partial remainder and the digits found so far |
| LongDivision.IterationInvariant | FastDecimal/UInt128.cs:227-235 | storing the digit and clearing the top limb carries the invariant to the next limb |
| LongDivision.ShiftDivisorWords | FastDecimal/UInt128.cs:167-173 | the normalising shift of the two top divisor limbs multiplies them by 2^shift |
| LongDivision.NormalizeDivisor | FastDecimal/UInt128.cs:159-173 | the normalised top words are the divisor times a power of two, with the top bit of `divHi` set |
| LongDivision.InitialInvariant | FastDecimal/UInt128.cs:146-148 | before the loop the whole dividend is the remainder and no digit is found |
| LongDivision.DivideLimbs | FastDecimal/UInt128.cs:177-236 | the loop runs from the top limb down to the divisor's length and keeps the invariant |
| LongDivision.FinalQuotient | FastDecimal/UInt128.cs:177-236 | after the loop the digits are the floor quotient and the limbs the remainder |
| LongDivision.QuotientLimbs | FastDecimal/UInt128.cs:150-236 | on the laid-out operands, the quotient limbs are the floor quotient and the dividend limbs the remainder |
| LongDivision.DividendLimbsArray | FastDecimal/UInt128.cs:127-135 | the four limbs stand for the dividend; the span length counts the limbs up to the highest non-zero one |
| LongDivision.DivisorLimbsArray | FastDecimal/UInt128.cs:139-144 | the two limbs stand for the divisor; the span length is 0 exactly for a zero divisor |
| LongDivision.PackedQuotient | FastDecimal/UInt128.cs:238-241 | packing the four quotient limbs into a `UInt128` keeps their value |
| LongDivision.DivideSlow | FastDecimal/UInt128.cs:115-242 | the floor quotient for a non-zero divisor unless the dividend is zero and the divisor at least 2^32; the exceptions otherwise |
| LongDivision.Divide | FastDecimal/UInt128.cs:73-75 | `operator /` is `DivideSlow`: the floor quotient and the same exceptions |
| LongDivision.DivRemRemainder | FastDecimal/UInt128.cs:70 | `(left - quotient * right).Lower`, with wrapping `-` and `*`, is the remainder |
| LongDivision.DivRemOutcome | FastDecimal/UInt128.cs:67-71 | `quotient * right + remainder == left` with the remainder below `right`, whenever the division succeeds |
| LongDivision.DivRem | FastDecimal/UInt128.cs:67-71 | `DivRem` gives the floor quotient and the remainder, or the exception of `/` |
| Fast128BitDiv.GetSh1 | FastDecimal/Fast128BitDiv.cs:192-231 | the pre-shift table has entries for 0..32 digits only, each at most the digit count |
| Fast128BitDiv.GetSh2 | FastDecimal/Fast128BitDiv.cs:143-189 | every post-shift is below 128 |
| Fast128BitDiv.DivisorIsPow10 | FastDecimal/Fast128BitDiv.cs:43-140 | for 0..38 digits, `GetDivisorHigh * 2^64 + GetDivisorLow` is `10^d` |
| Fast128BitDiv.DivisorStep | FastDecimal/Fast128BitDiv.cs:43-140 | each divisor entry is ten times the one before |
| Fast128BitDiv.DivisorFitsLow | FastDecimal/Fast128BitDiv.cs:43-66 | up to 19 digits the high entry is zero and the low entry alone is `10^d` |
| Fast128BitDiv.MagicTable | FastDecimal/Fast128BitDiv.cs:234-329 | for 1..32 digits the multiplier and shifts meet the condition `2^(128+sh2) <= M * 10^d / 2^sh1 <= 2^(128+sh2) + 2^(sh1+sh2)` |
| Fast128BitDiv.InvariantDivision | FastDecimal/Fast128BitDiv.cs:36 | under that condition, `floor(n * M / 2^(128+sh2))` is `floor(n / d')` for every 128-bit `n` |
| Fast128BitDiv.MagicMultiplyHigh | FastDecimal/Fast128BitDiv.cs:18-34 | the four partial products plus the carry word `t4` are `floor(nShifted * M / 2^128)` |
| Fast128BitDiv.MagicQuotient | FastDecimal/Fast128BitDiv.cs:18-37 | pre-shift, multiply-high and post-shift give the floor quotient, and the wrapping subtraction the remainder |
| Fast128BitDiv.ZeroDigits | FastDecimal/Fast128BitDiv.cs:18-37 | with the all-zero entry the steps give quotient 0 and the whole value as remainder |
| Fast128BitDiv.EntryFacts | FastDecimal/Fast128BitDiv.cs:143-329 | the 0-digit entry is all zeros; every entry for 1..32 digits meets the condition beside the divisor `10^d` |
| Fast128BitDiv.DivideByEntry | FastDecimal/Fast128BitDiv.cs:9-40 | the division by a given entry: quotient 0 and remainder `n` for the zero entry, floor quotient and remainder for an entry meeting the condition |
| Fast128BitDiv.DecDivRem128By128 | FastDecimal/Fast128BitDiv.cs:9-40 | for 1..32 digits the exact quotient and remainder by `10^d`; for 0 digits quotient 0 and remainder `n` |
| Fast128BitDiv.DecDivRemCorrected | FastDecimal/Fast128BitDiv.cs:9-40 | the same division with 0 digits handled as a division by one: the exact quotient and remainder for 0..32 digits |
| Rounding.Round64 | FastDecimal/Rounding.cs:20-33 | the increment is 0 or 1, an unknown mode throws `ArgumentException`, and below 2^63 the increment is the exact rounding decision of each mode |
| Rounding.Round128 | FastDecimal/Rounding.cs:35-48 | the same on 128-bit operands, exact below 2^127 |
| Rounding.DoubledCompare | FastDecimal/Rounding.cs:39-40 | the 128-bit comparisons of `remainder << 1` decide `2r + q mod 2 > d` and `2r >= d` exactly |
| Rounding.RoundDec | FastDecimal/Rounding.cs:7-17 | the decision after a division by `10^d` is the exact rounding decision for any remainder below `10^d` |
| Rounding.RemainderFitsWord | FastDecimal/Rounding.cs:9-11 | below 19 digits the low divisor word is `10^d`, and a remainder below it is its own low word |
| Rounding.RoundsUpIsCorrect | FastDecimal/Rounding.cs:22-30 | adding the decision to the truncated quotient gives the correctly rounded quotient in each of the five modes |
| Rounding.Round64IsCorrect | FastDecimal/Rounding.cs:20-33 | the 64-bit decision on a remainder below a divisor of at most 2^63 gives the correctly rounded quotient |
| Rounding.RoundDecIsCorrect | FastDecimal/Rounding.cs:7-17 | the decimal decision gives the correctly rounded quotient |
| Rounding.RoundedQuotientIsCorrect | FastDecimal/Rounding.cs:22-30 | the truncated quotient plus the decision is correctly rounded |
| Rounding.CorrectlyRoundedUnique | FastDecimal/Rounding.cs:22-30 | at most one integer is correctly rounded in a mode, so the decision is the only answer |
| Rounding.RoundsUpParity | FastDecimal/Rounding.cs:24 | the decision reads the truncated quotient only through its parity, so the low word suffices |
| Rounding.RoundsUpNeedsRemainder | FastDecimal/Rounding.cs:24-28 | without a remainder no mode rounds up |
| Rounding.RoundedQuotientAtMost | FastDecimal/Rounding.cs:22-30 | dividing by at least two and rounding never gives more than the dividend |
| DecimalStruct.ReadWriteLE | FastDecimal/DecimalStruct.cs:5-23 | a number stored little-endian in the `n` bytes of an explicitly laid-out field reads back as itself whenever it is below `2^(8n)` |
| DecimalStruct.ScaleAndSign | FastDecimal/DecimalStruct.cs:29-30 | `Scale` is byte 2 of the flags word and `Negative` is the top bit of byte 3 |
| DecimalStruct.OverlappingFields | FastDecimal/DecimalStruct.cs:14-23 | `High64` is `High32` plus the low half of `Low64` shifted up; `Low32` is the high half of `Low64` |
| DecimalStruct.Magnitude | FastDecimal/DecimalStruct.cs:25-26 | `High32 * 2^64 + Low64` is the 96-bit number in bytes 4..15 |
| DecimalStruct.Coefficient | FastDecimal/DecimalStruct.cs:25-26 | the coefficient is below 2^96 |
| DecimalStruct.MakeDecimalFields | FastDecimal/FastDecimal64.cs:177-183 | the accessors read back the scale, sign and words the `decimal` constructor wrote, the overlapping fields included |
| DecimalStruct.FlagsWord | FastDecimal/DecimalStruct.cs:29-30 | the flags word the constructor builds decodes to its scale and its sign |
| DecimalStruct.RescaledIsCorrect | FastDecimal/FastDecimal64.cs:209-229 | bringing a coefficient to as many or more digits than its scale keeps the number exactly, and bringing it to fewer digits rounds it half to even |
| FastDecimal64.New | FastDecimal/FastDecimal64.cs:20-25 | the constructor throws `InvalidOperationException` unless the digits are 0..18, and otherwise stores the raw value |
| FastDecimal64.GetDivisor | FastDecimal/FastDecimal64.cs:865 | one whole unit is between 1 and 10^18 |
| FastDecimal64.GetDivisorIsTableEntry | FastDecimal/FastDecimal64.cs:865 | the divisor is the `GetDivisorLow` table entry, `10^d` |
| FastDecimal64.One | FastDecimal/FastDecimal64.cs:558 | `One` stands for 1 |
| FastDecimal64.CompareTo | FastDecimal/FastDecimal64.cs:41-44 | -1, 0 or 1, negative exactly when the raw value is smaller, zero exactly when equal |
| FastDecimal64.OrderIsNumeric | FastDecimal/FastDecimal64.cs:274-283 | the comparison operators and `Equals` on raw values order the numbers they stand for, and agree with `CompareTo` |
| FastDecimal64.Wrap | FastDecimal/FastDecimal64.cs:251-254 | an unchecked result is the exact one modulo 2^64, and the exact one inside the range |
| FastDecimal64.CheckedAgreesWithWrap | FastDecimal/FastDecimal64.cs:257-260 | a checked operation throws `OverflowException` exactly when wrapping would change the result, and otherwise gives the wrapped result |
| FastDecimal64.AddSubtractInverse | FastDecimal/FastDecimal64.cs:712-715 | unchecked `-` undoes `+` and the other way round |
| FastDecimal64.NegateInvolutive | FastDecimal/FastDecimal64.cs:728 | unary `-` is an involution, and `-MinValue == MinValue` |
| FastDecimal64.CheckedNegateOverflows | FastDecimal/FastDecimal64.cs:731 | checked negation throws exactly on `MinValue` |
| FastDecimal64.IncrementDecrementInverse | FastDecimal/FastDecimal64.cs:423-427 | `--` undoes `++` and the other way round, stepping by `10^s` |
| FastDecimal64.CheckedIncrementOverflows | FastDecimal/FastDecimal64.cs:430-434 | checked `++` (`--`) throws exactly when one unit more (less) leaves the `long` range |
| FastDecimal64.FromLongScales | FastDecimal/FastDecimal64.cs:201-204 | the checked cast from `long` succeeds exactly when `v * 10^s` fits, then stands for `v` and equals the unchecked cast, which is `v * 10^s` modulo 2^64 |
| FastDecimal64.ConvertToUnsigned | FastDecimal/FastDecimal64.cs:824-836 | the magnitude as a `ulong` and whether the value is negative |
| FastDecimal64.ConvertPairToUnsigned | FastDecimal/FastDecimal64.cs:839-862 | both magnitudes, and whether exactly one operand is negative |
| FastDecimal64.TryCast | FastDecimal/FastDecimal64.cs:805-821 | succeeds exactly when the signed magnitude is a `long`, and then gives it |
| FastDecimal64.Reattach | FastDecimal/FastDecimal64.cs:530 | `negative ? -(long) q : (long) q` is the signed magnitude modulo 2^64 |
| FastDecimal64.TryCastConvertRoundTrip | FastDecimal/FastDecimal64.cs:805-836 | splitting a value into sign and magnitude and casting back gives it back |
| FastDecimal64.AbsValue | FastDecimal/FastDecimal64.cs:568-571 | `Abs` throws exactly on `MinValue` and otherwise gives the magnitude |
| FastDecimal64.RoundedResultIsCorrect | FastDecimal/FastDecimal64.cs:516-549 | a rounded result is the correctly rounded quotient with its sign: exact when checked, modulo 2^64 unchecked; it fails only on an unknown mode or a checked overflow |
| FastDecimal64.NarrowCast | FastDecimal/FastDecimal64.cs:520-530 | the narrow path's cast is the signed magnitude, checked or wrapped |
| FastDecimal64.NarrowFinishSpec | FastDecimal/FastDecimal64.cs:518-530 | from a 64-bit quotient and remainder the narrow path gives the rounded result |
| FastDecimal64.WideCast | FastDecimal/FastDecimal64.cs:538-548 | the wide path's cast needs an empty high word when checked and wraps the low word otherwise |
| FastDecimal64.WideFinishSpec | FastDecimal/FastDecimal64.cs:535-548 | from a 128-bit quotient the wide path gives the rounded result, reading the parity from the low word |
| FastDecimal64.ScaleDownProductSpec | FastDecimal/FastDecimal64.cs:516-548 | the corrected scale-down (a division by one at 0 digits): dividing a product below 2^127 by `10^s`, on either path, gives the correctly rounded result |
| FastDecimal64.MultiplyInternalSpec | FastDecimal/FastDecimal64.cs:508-551 | for the corrected multiplication (the code as written differs at 0 digits), the product is `\|a\| * \|b\| / 10^s` correctly rounded with the sign of the product: checked it throws exactly when that leaves the `long` range, unchecked it wraps |
| FastDecimal64.MultiplyAsWrittenAgrees | FastDecimal/FastDecimal64.cs:535 | with at least one fractional digit the code as written is the corrected multiplication |
| FastDecimal64.MultiplyAsWrittenAtScaleZero | FastDecimal/FastDecimal64.cs:535 | with 0 digits, checked `2^32 * 2^32` as written answers 0 instead of throwing |
| FastDecimal64.MultiplyAsWrittenWrapsAtScaleZero | FastDecimal/FastDecimal64.cs:535 | with 0 digits, unchecked `2^32 * (2^32 + 1)` as written answers 1 instead of 2^32 |
| FastDecimal64.DivideScaledSpec | FastDecimal/FastDecimal64.cs:355-405 | dividing a scaled dividend below 2^127 by a non-zero divisor gives the correctly rounded result, the early overflow included |
| FastDecimal64.QuotientTooWide | FastDecimal/FastDecimal64.cs:375-376 | a high word at least the divisor means the quotient is at least 2^64, so the early `OverflowException` is right |
| FastDecimal64.DivideInternalSpec | FastDecimal/FastDecimal64.cs:347-406 | the quotient is `\|a\| * 10^s / \|b\|` correctly rounded with the sign of the quotient: checked it throws exactly when that leaves the `long` range, unchecked it wraps |
| FastDecimal64.DivideInternalErrors | FastDecimal/FastDecimal64.cs:355-390 | a zero divisor always fails, with `DivideByZeroException` when the scaled dividend fits 64 bits; an unknown mode fails |
| FastDecimal64.OneIsIdentity | FastDecimal/FastDecimal64.cs:461 | multiplying by `One` and dividing by it give the value back in every mode, checked or not |
| FastDecimal64.ChangePrecisionWidens | FastDecimal/FastDecimal64.cs:745-759 | to more digits the number is kept exactly, and the cast throws exactly when the scaled value leaves the `long` range |
| FastDecimal64.ChangePrecisionNarrows | FastDecimal/FastDecimal64.cs:745-759 | to fewer digits the magnitude is correctly rounded in the caller's mode and the sign put back; only an unknown mode fails |
| FastDecimal64.ChangePrecisionRoundTrip | FastDecimal/FastDecimal64.cs:745-759 | widening and narrowing back gives the value back in every mode |
| FastDecimal64.ToDecimalFields | FastDecimal/FastDecimal64.cs:177-183 | the `decimal` has the digits as scale, the sign, the magnitude as coefficient, and stands for the same number |
| FastDecimal64.DivideDownIsRounded | FastDecimal/FastDecimal64.cs:226-227 | `DecDivRem128By128` plus `RoundDec` divides a 96-bit coefficient by `10^k` rounding half to even |
| FastDecimal64.HalfEvenSum | FastDecimal/FastDecimal64.cs:227 | adding the `RoundDec` increment to the quotient gives the half-even quotient |
| FastDecimal64.FromWordsSpec | FastDecimal/FastDecimal64.cs:209-229 | the unchecked cast from `decimal` is the rescaled coefficient with its sign, modulo 2^64 |
| FastDecimal64.FromWordsScaledUp | FastDecimal/FastDecimal64.cs:220-224 | at a lower source scale, the low word of the product is the scaled coefficient modulo 2^64 |
| FastDecimal64.FromWordsDividedDown | FastDecimal/FastDecimal64.cs:226-228 | at a higher source scale, the low word of the rounded quotient is it modulo 2^64 |
| FastDecimal64.FromDecimalSpec | FastDecimal/FastDecimal64.cs:209-229 | the unchecked cast of a `decimal` is its rescaled coefficient with its sign, modulo 2^64 |
| FastDecimal64.TryCastWordsSpec | FastDecimal/FastDecimal64.cs:765-802 | `TryCastDecimal` succeeds exactly when the rescaled signed coefficient is a `long`, and then gives it |
| FastDecimal64.TryCastScaledUp | FastDecimal/FastDecimal64.cs:779-787 | the lower-scale branch refuses exactly the products that do not fit |
| FastDecimal64.TryCastDividedDown | FastDecimal/FastDecimal64.cs:788-798 | the higher-scale branch refuses exactly the rounded quotients that do not fit |
| FastDecimal64.ScaledUpFits | FastDecimal/FastDecimal64.cs:779-782 | the scaled coefficient fits 64 bits exactly when `High32` is zero and the high word of the product is zero |
| FastDecimal64.CastWide | FastDecimal/FastDecimal64.cs:793 | an empty upper half plus a successful `TryCast` of the lower half is exactly a fitting signed magnitude |
| FastDecimal64.TryCastDecimalSpec | FastDecimal/FastDecimal64.cs:235-243 | the same for a `decimal`; the checked cast throws `OverflowException` exactly where `TryCastDecimal` fails |
| FastDecimal64.DecimalRoundTrip | FastDecimal/FastDecimal64.cs:177-183 | a value converted to `decimal` and back is unchanged, unchecked, by `TryCastDecimal` and checked |
| FastDecimal64.RemainderOutcome | FastDecimal/FastDecimal64.cs:451-454 | `%` throws `DivideByZeroException` for a zero divisor and `OverflowException` for `MinValue % -1`; otherwise the remainder is smaller than the divisor in magnitude and has the dividend's sign |
| FastDecimal64.RemainderRaw | FastDecimal/FastDecimal64.cs:451-454 | the raw remainder is the dividend less the truncated quotient times the divisor |
| FastDecimal64.NumberLessMultiple | FastDecimal/FastDecimal64.cs:451-454 | at one scale, a raw value `a - q * b` stands for the number `a` less `q` times the number `b`, so the remainder of the numbers is the first less a whole multiple of the second |
| FastDecimal64.MaxMagnitude | FastDecimal/FastDecimal64.cs:639-642 | `MaxMagnitude` returns the operand of larger magnitude, and of two with equal magnitude a non-negative one |
| FastDecimal64.MinMagnitude | FastDecimal/FastDecimal64.cs:649-652 | `MinMagnitude` returns the operand of smaller magnitude, and of two with equal magnitude a negative one |
| FastDecimal64.MagnitudesPartition | FastDecimal/FastDecimal64.cs:639-652 | `MaxMagnitude` and `MinMagnitude` of the same two operands return both of them |
| FastDecimal64.IntegerPredicates | FastDecimal/FastDecimal64.cs:580-621 | `IsInteger` holds exactly when `10^s` divides the raw value; `IsEvenInteger` and `IsOddInteger` when the whole quotient is even or odd |
| FastDecimal64.SignPredicates | FastDecimal/FastDecimal64.cs:605-636 | `IsNegative`, `IsPositive`, `IsZero` and `IsNormal` read the sign of the number |
| FastDecimal32.New | FastDecimal/FastDecimal32.cs:27-32 | the constructor throws `InvalidOperationException` unless the digits are 0..9, and otherwise stores the raw value |
| FastDecimal32.GetDivisor | FastDecimal/FastDecimal32.cs:845 | one whole unit is between 1 and 10^9 |
| FastDecimal32.One | FastDecimal/FastDecimal32.cs:538 | `One` stands for 1 |
| FastDecimal32.CompareTo | FastDecimal/FastDecimal32.cs:48-51 | -1, 0 or 1, negative exactly when the raw value is smaller, zero exactly when equal |
| FastDecimal32.OrderIsNumeric | FastDecimal/FastDecimal32.cs:276-285 | the comparison operators and `Equals` on raw values order the numbers they stand for, and agree with `CompareTo` |
| FastDecimal32.Wrap | FastDecimal/FastDecimal32.cs:253-256 | an unchecked result is the exact one modulo 2^32, and the exact one inside the range |
| FastDecimal32.CheckedAgreesWithWrap | FastDecimal/FastDecimal32.cs:259-262 | a checked operation throws exactly when wrapping would change the result, and otherwise gives the wrapped result |
| FastDecimal32.AddSubtractInverse | FastDecimal/FastDecimal32.cs:692-695 | unchecked `-` undoes `+` and the other way round |
| FastDecimal32.NegateInvolutive | FastDecimal/FastDecimal32.cs:708 | unary `-` is an involution, and `-MinValue == MinValue` |
| FastDecimal32.CheckedNegateOverflows | FastDecimal/FastDecimal32.cs:711 | checked negation throws exactly on `MinValue` |
| FastDecimal32.IncrementDecrementInverse | FastDecimal/FastDecimal32.cs:389-393 | `--` undoes `++` and the other way round, stepping by `10^s` |
| FastDecimal32.CheckedIncrementOverflows | FastDecimal/FastDecimal32.cs:396-400 | checked `++` (`--`) throws exactly when one unit more (less) leaves the `int` range |
| FastDecimal32.CheckedIncrementAddsOne | FastDecimal/FastDecimal32.cs:396-400 | a checked `++` that does not throw adds 1 to the number |
| FastDecimal32.MultiplyByIntScales | FastDecimal/FastDecimal32.cs:449-481 | `*` by an `int` multiplies the number by it: checked it throws exactly when the raw product leaves the `int` range, unchecked it is the product modulo 2^32 |
| FastDecimal32.FromLongScales | FastDecimal/FastDecimal32.cs:182-194 | the casts from `long` are `v * 10^s` wrapped to 32 bits, or checked (the checked form also checks the `long` product), and a successful checked cast stands for `v` |
| FastDecimal32.WrapTwice | FastDecimal/FastDecimal32.cs:184 | casting to `long` and then to `int` is casting to `int` |
| FastDecimal32.WideningKeepsValue | FastDecimal/FastDecimal32.cs:242-245 | the implicit widening `ToFastDecimal64` keeps the number and the order, and both narrowing casts give the value back |
| FastDecimal32.NarrowingSpec | FastDecimal/FastDecimal64.cs:160-172 | the unchecked narrowing keeps the raw value modulo 2^32; the checked one throws `OverflowException` outside the `int` range, then `InvalidOperationException` for invalid digits |
| FastDecimal32.ConvertToUnsigned | FastDecimal/FastDecimal32.cs:804-816 | the magnitude as a `uint` and whether the value is negative |
| FastDecimal32.ConvertPairToUnsigned | FastDecimal/FastDecimal32.cs:819-842 | both magnitudes, and whether exactly one operand is negative |
| FastDecimal32.TryCast | FastDecimal/FastDecimal32.cs:785-801 | succeeds exactly when the signed magnitude is an `int`, and then gives it |
| FastDecimal32.Reattach | FastDecimal/FastDecimal32.cs:370 | `negative ? -(int) q : (int) q` is the signed magnitude modulo 2^32 |
| FastDecimal32.TryCastConvertRoundTrip | FastDecimal/FastDecimal32.cs:785-816 | splitting a value into sign and magnitude and casting back gives it back |
| FastDecimal32.AbsValue | FastDecimal/FastDecimal32.cs:548-551 | `Abs` throws exactly on `MinValue` and otherwise gives the magnitude |
| FastDecimal32.RoundedResultIsCorrect | FastDecimal/FastDecimal32.cs:515-530 | a rounded result is the correctly rounded quotient with its sign: exact when checked, modulo 2^32 unchecked; it fails only on an unknown mode or a checked overflow |
| FastDecimal32.Cast | FastDecimal/FastDecimal32.cs:519-530 | the final cast: checked it throws above `uint.MaxValue` or when `TryCast` fails, unchecked it wraps |
| FastDecimal32.FinishSpec | FastDecimal/FastDecimal32.cs:515-530 | from a 64-bit quotient and remainder, rounding and casting give the rounded result |
| FastDecimal32.Product | FastDecimal/FastDecimal32.cs:513 | the product of two `uint` magnitudes in 64 bits is exact |
| FastDecimal32.MultiplyInternalSpec | FastDecimal/FastDecimal32.cs:507-531 | the product is `\|a\| * \|b\| / 10^s` correctly rounded with the sign of the product: checked it throws exactly when that leaves the `int` range, unchecked it wraps |
| FastDecimal32.DivideInternalSpec | FastDecimal/FastDecimal32.cs:349-372 | a zero divisor throws `DivideByZeroException`; otherwise the quotient is `\|a\| * 10^s / \|b\|` correctly rounded with its sign, checked or wrapped |
| FastDecimal32.OneIsIdentity | FastDecimal/FastDecimal32.cs:427 | multiplying by `One` and dividing by it give the value back in every mode, checked or not |
| FastDecimal32.ChangePrecisionWidens | FastDecimal/FastDecimal32.cs:725-739 | to more digits the number is kept exactly, and the cast throws exactly when the scaled value leaves the `int` range |
| FastDecimal32.ChangePrecisionNarrows | FastDecimal/FastDecimal32.cs:725-739 | to fewer digits the magnitude is correctly rounded in the caller's mode and the sign put back; only an unknown mode fails |
| FastDecimal32.ChangePrecisionRoundTrip | FastDecimal/FastDecimal32.cs:725-739 | widening and narrowing back gives the value back in every mode |
| FastDecimal32.ToDecimalFields | FastDecimal/FastDecimal32.cs:167-173 | the `decimal` has the digits as scale, the sign, the magnitude in the lowest word, and stands for the same number; `High64` is the magnitude shifted up 32 bits and `Low32` is zero |
| FastDecimal32.SignedCongruent | FastDecimal/FastDecimal32.cs:207-218 | magnitudes that agree modulo 2^64 cast to the same signed `int` |
| FastDecimal32.FromWordsSpec | FastDecimal/FastDecimal32.cs:199-219 | the unchecked cast from `decimal` is the rescaled coefficient with its sign, modulo 2^32 |
| FastDecimal32.FromWordsScaledUp | FastDecimal/FastDecimal32.cs:210-214 | at a lower source scale, the low word of the product cast to `int` is the scaled coefficient modulo 2^32 |
| FastDecimal32.FromWordsDividedDown | FastDecimal/FastDecimal32.cs:216-218 | at a higher source scale, the rounded quotient cast to `int` is it modulo 2^32 |
| FastDecimal32.FromDecimalSpec | FastDecimal/FastDecimal32.cs:199-219 | the unchecked cast of a `decimal` is its rescaled coefficient with its sign, modulo 2^32 |
| FastDecimal32.TryCastWordsSpec | FastDecimal/FastDecimal32.cs:745-782 | the corrected `TryCastDecimal` succeeds exactly when the rescaled signed coefficient is an `int`, and then gives it |
| FastDecimal32.TryCastScaledUp | FastDecimal/FastDecimal32.cs:759-766 | the corrected lower-scale branch refuses exactly the products that do not fit |
| FastDecimal32.TryCastDividedDown | FastDecimal/FastDecimal32.cs:768-778 | the higher-scale branch refuses exactly the rounded quotients that do not fit |
| FastDecimal32.TryCastDecimalSpec | FastDecimal/FastDecimal32.cs:225-233 | the same for a `decimal` with the corrected word reading; the checked cast throws `OverflowException` exactly where the corrected `TryCastDecimal` fails |
| FastDecimal32.DecimalRoundTrip | FastDecimal/FastDecimal32.cs:167-173 | a value converted to `decimal` and back is unchanged: unchecked, and by the corrected `TryCastDecimal` and checked cast |
| FastDecimal32.AsWrittenRefusesSameScale | FastDecimal/FastDecimal32.cs:751-757 | as written, `TryCastDecimal` of a value's own `decimal` at the same scale fails for every non-zero value |
| FastDecimal32.AsWrittenZeroesLowerScale | FastDecimal/FastDecimal32.cs:759-766 | as written, a value's `decimal` cast to more digits gives 0 |
| FastDecimal32.LowerScaleExample | FastDecimal/FastDecimal32.cs:759-766 | the `decimal` 1 cast to 2 digits gives 0 as written and 1.00 corrected |
| FastDecimal32.RemainderOutcome | FastDecimal/FastDecimal32.cs:417-420 | `%` throws `DivideByZeroException` for a zero divisor and `OverflowException` for `MinValue % -1`; otherwise the remainder is smaller than the divisor in magnitude and has the dividend's sign |
| FastDecimal32.RemainderRaw | FastDecimal/FastDecimal32.cs:417-420 | the raw remainder is the dividend less the truncated quotient times the divisor |
| FastDecimal32.NumberLessMultiple | FastDecimal/FastDecimal32.cs:417-420 | at one scale, a raw value `a - q * b` stands for the number `a` less `q` times the number `b`, so the remainder of the numbers is the first less a whole multiple of the second |
| FastDecimal32.MaxMagnitude | FastDecimal/FastDecimal32.cs:619-622 | `MaxMagnitude` returns the operand of larger magnitude, and of two with equal magnitude a non-negative one |
| FastDecimal32.MinMagnitude | FastDecimal/FastDecimal32.cs:629-632 | `MinMagnitude` returns the operand of smaller magnitude, and of two with equal magnitude a negative one |
| FastDecimal32.MagnitudesPartition | FastDecimal/FastDecimal32.cs:619-632 | `MaxMagnitude` and `MinMagnitude` of the same two operands return both of them |
| FastDecimal32.IntegerPredicates | FastDecimal/FastDecimal32.cs:560-601 | `IsInteger` holds exactly when `10^s` divides the raw value; `IsEvenInteger` and `IsOddInteger` when the whole quotient is even or odd |
| FastDecimal32.SignPredicates | FastDecimal/FastDecimal32.cs:585-616 | `IsNegative`, `IsPositive`, `IsZero` and `IsNormal` read the sign of the number |

## Left out

- Parsing and formatting (`Parse`, `TryParse`, `ToString`, `TryFormat`): they hand the text to the host `decimal` parser and formatter, which are not part of this model.
- `GetHashCode`, `CompareTo(object)` with its runtime type check, the `INumberBase` constants and stubs (`Radix`, `IsNaN`, `IsFinite` and the others that answer a constant), and the `TryConvert*` methods that always answer false: none of them computes anything.
- The magnitude comparisons of `MaxMagnitude` and `MinMagnitude` are done on unbounded integers. `long.MaxMagnitude` and `int.MaxMagnitude` treat `MinValue` as the largest magnitude, which the model does too.
- The `X86Base.X64.DivRem` branch of the 64-bit division: it is a hardware instruction. The model always takes the `UInt128.DivRem` branch, which gives the same quotient and remainder whenever the high word is below the divisor, the only case the hardware branch takes.
- The 64-bit division passes `new UInt128(0, divisor)` to `UInt128.DivRem`, but this library's `UInt128` declares `DivRem` only with a `ulong` divisor; the model passes the divisor as a `ulong`.
- The number of fractional digits is an integer parameter rather than a type parameter. The constructor check is modelled by `New` and by the narrowing from the 64-bit type. Every other operation requires valid digits.
- FastDecimal32.FromLong, FastDecimal32.CheckedFromLong, FastDecimal64.FromLong, FastDecimal64.CheckedFromLong, FromDecimal, CheckedFromDecimal, TryCastDecimal and ChangePrecision of both types: these build a value of the type rather than take one. With an invalid digit count the source reaches the constructor, which throws `InvalidOperationException`; a checked overflow can come first. The model requires valid digits and does not model that exception.
- `GetDivisor` is defined as `10^s`. `GetDivisorIsTableEntry` proves it equal to the table entry the source reads.
- The public operators `*`, `/`, `checked *`, `checked /`, `Multiply`, `MultiplyChecked`, `Divide` and `DivideChecked` are one-line calls of `MultiplyInternal` and `DivideInternal`. They pass half-to-even rounding or the caller's mode, and the checked flag. The model states everything about the two internal functions and has no separate member for the wrappers. The 32-bit `*` by an `int`, in both operand orders, is `MultiplyByInt`.
- A host `decimal` always has a scale of at most 28, so the casts from `decimal` require it.
- `Unsafe.As`, stack allocation and spans: a `decimal` is its 16 bytes as a sequence, and the limb buffers of `DivideSlow` are arrays of `uint`.
- LongDivision.EstimateQuotientDigit: states that the corrected guess is the true digit or one more, not that it is always exact. With a divisor of at most two limbs it is exact, so the add-back branch of `DivideSlow` is never taken. The model keeps that branch and proves it correct instead.
- Rounding.Round64: relates the decision to exact rounding only for remainders below 2^63, where `remainder << 1` does not lose the top bit. Above that it computes the wrapped doubling as the source does, but states nothing about the result. Every caller passes a remainder below a divisor of at most 2^63.
- Rounding.Round128: likewise, it relates the decision to exact rounding only below 2^127.
- FastDecimal64.MultiplyInternal: with 0 fractional digits it divides the product by one, through `DecDivRemCorrected`. The code as written reaches the all-zero table entry there; that behaviour is `MultiplyInternalAsWritten`. Every multiplication result stated above is about the corrected definition; see "## Findings".
- FastDecimal64.ScaleDownProduct: likewise corrected at 0 digits; the code as written is `ScaleDownProductAsWritten`.
- FastDecimal32.TryCastWords, FastDecimal32.TryCastDecimal and FastDecimal32.CheckedFromDecimal: they read the coefficient words as intended. The code as written reads the overlapping `High64` and `Low32` fields instead; that behaviour is `TryCastDecimalAsWritten`. The round trip and the checked cast from `decimal` are proved for the corrected definitions only; see "## Findings".
- Fast128BitDiv.DecDivRem128By128: requires at most 32 digits, because `GetSh1` has entries for 0..32 only. Every caller stays within that.

## Findings

| source | as written | input that shows it | evidently intended | confidence | as-written member | corrected member |
|---|---|---|---|---|---|---|
| FastDecimal/FastDecimal64.cs:535 | with 0 fractional digits, a product of 2^64 or more goes to `DecDivRem128By128(high, low, 0)`, whose all-zero table entry answers quotient 0 and the whole product as remainder; the rounding then adds at most one | `FastDecimal64` with 0 digits: checked `2^32 * 2^32` answers 0; unchecked `2^32 * (2^32 + 1)` answers 1 | a division by `10^0 = 1`: checked `OverflowException`, unchecked the product modulo 2^64 (2^32 in the second case) | high; not executed | FastDecimal64.MultiplyAsWrittenAtScaleZero | FastDecimal64.MultiplyInternalSpec |
| FastDecimal/FastDecimal32.cs:751-757 | at equal scale, `TryCastDecimal` requires `High64 == 0` and casts `Low32`. `High64` (bytes 4..11) holds the lowest coefficient word shifted up 32 bits, and `Low32` (bytes 12..15) is the middle word | `TryCastDecimal((decimal) x)` for any non-zero `FastDecimal32` `x`, e.g. 1 with 0 digits, fails, so the checked cast from `decimal` throws `OverflowException` | require `High32 == 0` and the low word below 2^32, and cast the low word: the value comes back | high; not executed | FastDecimal32.AsWrittenRefusesSameScale | FastDecimal32.TryCastDecimalSpec |
| FastDecimal/FastDecimal32.cs:759-766 | at a lower source scale, the product is `Low32 * 10^(s - scale)`: the middle word, not the low word, is scaled up | the `decimal` 1 (scale 0) cast to a `FastDecimal32` with 2 digits gives 0 instead of 1.00 | scale the low word (with the middle and high words zero) and refuse a product above `uint.MaxValue` | high; not executed | FastDecimal32.LowerScaleExample | FastDecimal32.TryCastScaledUp |
