/** `FastDecimal32<T>`: a signed 32-bit integer `value` standing for
    value / 10^digits, with at most nine fractional digits. Its arithmetic
    mirrors `FastDecimal64<T>` with `int` and `uint` in place of `long` and
    `ulong`; products and scaled dividends fit a `ulong`, so every
    multiplication and division takes a single 64-bit path. */
module FastDecimal32 {
  import opened Machine
  import opened Outcome
  import opened U128
  import opened Rounding
  import opened DecimalStruct
  import FastDecimal64

  /** The most fractional digits the type supports. */
  const MaxDigits: int := 9

  predicate ValidDigits(digits: int)
  {
    0 <= digits <= MaxDigits
  }

  /** The raw `_value` field. */
  datatype FastDecimal32 = FastDecimal32(value: i32)

  /** The internal constructor, which every operation goes through: it
      refuses a type parameter with more than nine digits. */
  function New(digits: int, value: i32): (r: Result<FastDecimal32>)
    ensures r.Ok? <==> ValidDigits(digits)
    ensures r.Ok? ==> r.value.value == value
    ensures r.Err? ==> r.error == InvalidOperation
  {
    if digits > MaxDigits || digits < 0 then Err(InvalidOperation) else Ok(FastDecimal32(value))
  }

  /** `GetDivisor()`: 10^digits, a `ulong` read from the table of powers of ten. */
  function GetDivisor(digits: int): (r: u64)
    requires ValidDigits(digits)
    ensures 1 <= r <= 1000000000
  {
    Pow10Monotone(digits, 9);
    Pow10Is9();
    Pow10(digits)
  }

  lemma Pow10Is9()
    ensures Pow10(9) == 1000000000
  {
    assert Pow10(3) == 1000;
    Pow10Add(3, 3);
    Pow10Add(6, 3);
  }

  /** One whole unit: the value of `One` and `MultiplicativeIdentity`. */
  function One(digits: int): (r: FastDecimal32)
    requires ValidDigits(digits)
    ensures Number(r, digits) == 1.0
  {
    var p := GetDivisor(digits);
    assert p as real / Pow10(digits) as real == 1.0;
    FastDecimal32(p)
  }

  // ---------------------------------------------------------------------
  // Comparisons: all of them compare the raw values

  /** `CompareTo`: `int.CompareTo`, which answers -1, 0 or 1. */
  function CompareTo(a: FastDecimal32, b: FastDecimal32): (r: int)
    ensures -1 <= r <= 1
    ensures r < 0 <==> a.value < b.value
    ensures r == 0 <==> a == b
  {
    if a.value < b.value then -1 else if a.value > b.value then 1 else 0
  }

  predicate Equals(a: FastDecimal32, b: FastDecimal32) { a.value == b.value }
  predicate Less(a: FastDecimal32, b: FastDecimal32) { a.value < b.value }
  predicate LessOrEqual(a: FastDecimal32, b: FastDecimal32) { a.value <= b.value }
  predicate Greater(a: FastDecimal32, b: FastDecimal32) { a.value > b.value }
  predicate GreaterOrEqual(a: FastDecimal32, b: FastDecimal32) { a.value >= b.value }

  /** The number a value stands for. */
  ghost function Number(a: FastDecimal32, digits: int): real
    requires ValidDigits(digits)
  {
    a.value as real / Pow10(digits) as real
  }

  /** Comparing raw values compares the numbers they stand for, and the
      operators agree with `CompareTo`, which is antisymmetric. */
  lemma OrderIsNumeric(a: FastDecimal32, b: FastDecimal32, digits: int)
    requires ValidDigits(digits)
    ensures Less(a, b) <==> Number(a, digits) < Number(b, digits)
    ensures Equals(a, b) <==> Number(a, digits) == Number(b, digits)
    ensures Less(a, b) <==> CompareTo(a, b) < 0
    ensures Greater(a, b) <==> CompareTo(a, b) > 0
    ensures LessOrEqual(a, b) <==> !Greater(a, b)
    ensures GreaterOrEqual(a, b) <==> !Less(a, b)
    ensures CompareTo(a, b) == -CompareTo(b, a)
  {
    FastDecimal64.ScaledOrder(a.value, b.value, Pow10(digits) as real);
  }

  // ---------------------------------------------------------------------
  // Wrapping and checked arithmetic

  /** `new FastDecimal32<T>(x)` for an x computed in unchecked context: the
      low 32 bits of x, read as an `int`. */
  function Wrap(x: int): (r: FastDecimal32)
    ensures (r.value - x) % TWO_32 == 0
    ensures -TWO_31 <= x < TWO_31 ==> r.value == x
  {
    FastDecimal32(ToInt32(x))
  }

  /** The same in checked context: `OverflowException` outside the `int` range. */
  function Checked(x: int): Result<FastDecimal32>
  {
    if -TWO_31 <= x < TWO_31 then Ok(FastDecimal32(x)) else Err(Overflow)
  }

  /** A checked operation either gives the wrapping result or overflows, and
      it overflows exactly when wrapping changes the value. */
  lemma CheckedAgreesWithWrap(x: int)
    ensures Checked(x).Ok? <==> Wrap(x).value == x
    ensures Checked(x).Ok? ==> Checked(x).value == Wrap(x)
    ensures Checked(x).Err? ==> Checked(x).error == Overflow
  {
  }

  function Add(a: FastDecimal32, b: FastDecimal32): FastDecimal32 { Wrap(a.value + b.value) }
  function CheckedAdd(a: FastDecimal32, b: FastDecimal32): Result<FastDecimal32> { Checked(a.value + b.value) }
  function Subtract(a: FastDecimal32, b: FastDecimal32): FastDecimal32 { Wrap(a.value - b.value) }
  function CheckedSubtract(a: FastDecimal32, b: FastDecimal32): Result<FastDecimal32> { Checked(a.value - b.value) }
  function Negate(a: FastDecimal32): FastDecimal32 { Wrap(-(a.value as int)) }
  function CheckedNegate(a: FastDecimal32): Result<FastDecimal32> { Checked(-(a.value as int)) }

  /** `++` and `--` step by one whole unit; `(int) div` is exact, since the
      divisor is at most 10^9. */
  function Increment(a: FastDecimal32, digits: int): FastDecimal32
    requires ValidDigits(digits)
  {
    Wrap(a.value + GetDivisor(digits))
  }

  function CheckedIncrement(a: FastDecimal32, digits: int): Result<FastDecimal32>
    requires ValidDigits(digits)
  {
    Checked(a.value + GetDivisor(digits))
  }

  function Decrement(a: FastDecimal32, digits: int): FastDecimal32
    requires ValidDigits(digits)
  {
    Wrap(a.value - GetDivisor(digits))
  }

  function CheckedDecrement(a: FastDecimal32, digits: int): Result<FastDecimal32>
    requires ValidDigits(digits)
  {
    Checked(a.value - GetDivisor(digits))
  }

  /** A value reached by a wrapping step of x goes back by a step of -x: the
      raw values form the integers modulo 2^32. */
  lemma StepBack(a: FastDecimal32, b: FastDecimal32, x: int, y: int)
    requires b == Wrap(a.value + x) && y == -x
    ensures Wrap(b.value + y) == a
  {
    var w: int := b.value;
    assert (w + y - a.value) % TWO_32 == (w - (a.value + x)) % TWO_32;
    ToInt32Congruent(w + y, a.value);
  }

  /** Subtracting undoes adding, and adding undoes subtracting, whatever wraps. */
  lemma AddSubtractInverse(a: FastDecimal32, b: FastDecimal32)
    ensures Subtract(Add(a, b), b) == a
    ensures Add(Subtract(a, b), b) == a
  {
    var x: int := b.value;
    StepBack(a, Add(a, b), x, -x);
    StepBack(a, Subtract(a, b), -x, x);
  }

  /** Negation is an involution, and the minimum value is its own negation. */
  lemma NegateInvolutive(a: FastDecimal32)
    ensures Negate(Negate(a)) == a
    ensures a.value == -TWO_31 ==> Negate(a) == a
  {
    var v: int := a.value;
    NegatedCast(-v);
    assert -(-v) == v;
    if v == -TWO_31 {
      assert ToInt32(TWO_31) == -TWO_31;
    }
  }

  /** Checked negation overflows exactly on the minimum value. */
  lemma CheckedNegateOverflows(a: FastDecimal32)
    ensures CheckedNegate(a).Err? <==> a.value == -TWO_31
    ensures CheckedNegate(a).Ok? ==> CheckedNegate(a).value.value == -a.value
  {
  }

  /** `--` undoes `++` and the other way round, whatever wraps. */
  lemma IncrementDecrementInverse(a: FastDecimal32, digits: int)
    requires ValidDigits(digits)
    ensures Decrement(Increment(a, digits), digits) == a
    ensures Increment(Decrement(a, digits), digits) == a
  {
    var p: int := GetDivisor(digits);
    StepBack(a, Increment(a, digits), p, -p);
    StepBack(a, Decrement(a, digits), -p, p);
  }

  /** Checked `++` overflows exactly when a whole unit more leaves the range,
      and otherwise adds one to the number. */
  lemma CheckedIncrementOverflows(a: FastDecimal32, digits: int)
    requires ValidDigits(digits)
    ensures CheckedIncrement(a, digits).Err? <==> a.value > TWO_31 - 1 - Pow10(digits)
    ensures CheckedDecrement(a, digits).Err? <==> a.value < -TWO_31 + Pow10(digits)
  {
  }

  /** A checked `++` that does not throw adds one to the number. */
  lemma CheckedIncrementAddsOne(a: FastDecimal32, digits: int)
    requires ValidDigits(digits)
    ensures CheckedIncrement(a, digits).Ok? ==>
      Number(CheckedIncrement(a, digits).value, digits) == Number(a, digits) + 1.0
  {
    WholeUnits(a.value, Pow10(digits));
  }

  /** `FastDecimal32<T> * int` and `int * FastDecimal32<T>`: the raw value
      times the integer, wrapping. */
  function MultiplyByInt(a: FastDecimal32, k: i32): FastDecimal32
  {
    Wrap(a.value * k)
  }

  function CheckedMultiplyByInt(a: FastDecimal32, k: i32): Result<FastDecimal32>
  {
    Checked(a.value * k)
  }

  /** Multiplying by an integer multiplies the number: exactly when checked
      and in range, modulo 2^32 otherwise. */
  lemma MultiplyByIntScales(a: FastDecimal32, k: i32, digits: int)
    requires ValidDigits(digits)
    ensures CheckedMultiplyByInt(a, k).Ok? <==> -TWO_31 <= a.value * k < TWO_31
    ensures CheckedMultiplyByInt(a, k).Ok? ==>
      Number(CheckedMultiplyByInt(a, k).value, digits) == k as real * Number(a, digits)
    ensures CheckedMultiplyByInt(a, k).Ok? ==> CheckedMultiplyByInt(a, k).value == MultiplyByInt(a, k)
    ensures (MultiplyByInt(a, k).value - a.value * k) % TWO_32 == 0
  {
    var p := Pow10(digits) as real;
    assert (a.value * k) as real / p == k as real * (a.value as real / p);
  }

  // ---------------------------------------------------------------------
  // Remainder and magnitude selection

  /** `%`: `int %` on the raw values, truncating toward zero. A zero divisor
      throws, and so does `MinValue % -1`, whose quotient is no `int`. */
  function Remainder(a: FastDecimal32, b: FastDecimal32): Result<FastDecimal32>
  {
    if b.value == 0 then Err(DivideByZero)
    else if a.value == -TWO_31 && b.value == -1 then Err(Overflow)
    else Ok(FastDecimal32(TruncRem(a.value, b.value)))
  }

  /** The raw remainder is the dividend less the truncated quotient times
      the divisor, so (by `NumberLessMultiple`) the remainder of the numbers
      is the first less that whole multiple of the second. */
  lemma RemainderRaw(a: FastDecimal32, b: FastDecimal32)
    requires Remainder(a, b).Ok?
    ensures Remainder(a, b).value.value == a.value - TruncDiv(a.value, b.value) * b.value
  {
  }

  /** A raw value that is a less q times b stands for the number a less q
      times the number b. */
  lemma NumberLessMultiple(r: FastDecimal32, a: FastDecimal32, b: FastDecimal32, q: int, digits: int)
    requires ValidDigits(digits) && r.value == a.value - q * b.value
    ensures Number(r, digits) == Number(a, digits) - q as real * Number(b, digits)
  {
    LessMultipleUnits(a.value, q, b.value, Pow10(digits));
  }

  /** `%` fails exactly on a zero divisor and on `MinValue % -1`; otherwise
      the remainder is smaller than the divisor in magnitude and has the sign
      of the dividend. */
  lemma RemainderOutcome(a: FastDecimal32, b: FastDecimal32)
    ensures Remainder(a, b).Err? <==> b.value == 0 || (a.value == -TWO_31 && b.value == -1)
    ensures Remainder(a, b).Err? ==>
      Remainder(a, b).error == (if b.value == 0 then DivideByZero else Overflow)
    ensures Remainder(a, b).Ok? ==>
      Abs(Remainder(a, b).value.value) < Abs(b.value) &&
      (a.value > 0 ==> Remainder(a, b).value.value >= 0) &&
      (a.value < 0 ==> Remainder(a, b).value.value <= 0)
  {
  }

  /** `MaxMagnitude`: `int.MaxMagnitude` on the raw values. */
  function MaxMagnitude(x: FastDecimal32, y: FastDecimal32): (r: FastDecimal32)
    ensures r == x || r == y
    ensures Abs(r.value) >= Abs(x.value) && Abs(r.value) >= Abs(y.value)
    ensures Abs(x.value) == Abs(y.value) && (x.value >= 0 || y.value >= 0) ==> r.value >= 0
  {
    if Abs(x.value) > Abs(y.value) then x
    else if Abs(x.value) < Abs(y.value) then y
    else if x.value < 0 then y
    else x
  }

  /** `MinMagnitude`: `int.MinMagnitude` on the raw values. */
  function MinMagnitude(x: FastDecimal32, y: FastDecimal32): (r: FastDecimal32)
    ensures r == x || r == y
    ensures Abs(r.value) <= Abs(x.value) && Abs(r.value) <= Abs(y.value)
    ensures Abs(x.value) == Abs(y.value) && (x.value < 0 || y.value < 0) ==> r.value < 0
  {
    if Abs(x.value) < Abs(y.value) then x
    else if Abs(x.value) > Abs(y.value) then y
    else if x.value < 0 then x
    else y
  }

  /** Between them, `MaxMagnitude` and `MinMagnitude` return both operands. */
  lemma MagnitudesPartition(x: FastDecimal32, y: FastDecimal32)
    ensures multiset{MaxMagnitude(x, y), MinMagnitude(x, y)} == multiset{x, y}
  {
  }

  // ---------------------------------------------------------------------
  // Conversions from `long` and `FastDecimal64<T>`

  /** `(FastDecimal32<T>) long`: `(int) (value * (long) GetDivisor())`, a
      wrapping `long` product cast to `int`. */
  function FromLong(v: i64, digits: int): FastDecimal32
    requires ValidDigits(digits)
  {
    FastDecimal32(ToInt32(ToInt64(v * GetDivisor(digits))))
  }

  /** The checked form: both the `long` product and the cast to `int` are
      checked. */
  function CheckedFromLong(v: i64, digits: int): Result<FastDecimal32>
    requires ValidDigits(digits)
  {
    var x := v * GetDivisor(digits);
    if -TWO_63 <= x < TWO_63 then Checked(x) else Err(Overflow)
  }

  /** The unchecked cast is the scaled integer wrapped to 32 bits (wrapping
      to 64 bits first changes nothing); the checked cast succeeds exactly
      when the scaled integer is an `int`, and then stands for the integer. */
  lemma FromLongScales(v: i64, digits: int)
    requires ValidDigits(digits)
    ensures FromLong(v, digits) == Wrap(v * Pow10(digits))
    ensures CheckedFromLong(v, digits) == Checked(v * Pow10(digits))
    ensures CheckedFromLong(v, digits).Ok? ==> Number(CheckedFromLong(v, digits).value, digits) == v as real
  {
    var p := Pow10(digits);
    WrapTwice(v * p);
    WholeUnits(v, p);
  }

  /** Wrapping to 64 bits and then to 32 is wrapping to 32. */
  lemma WrapTwice(x: int)
    ensures ToInt32(ToInt64(x)) == ToInt32(x)
  {
    var k := (ToInt64(x) - x) / TWO_64;
    assert ToInt64(x) - x == k * TWO_64;
    DivModUnique(ToInt64(x) - x, TWO_32, k * TWO_32, 0);
    ToInt32Congruent(ToInt64(x), x);
  }

  /** The implicit widening to `FastDecimal64<T>`, which keeps the raw value. */
  function ToFastDecimal64(a: FastDecimal32): (r: FastDecimal64.FastDecimal64)
    ensures r.value == a.value
  {
    FastDecimal64.FastDecimal64(a.value)
  }

  /** The unchecked narrowing `(FastDecimal32<T>) FastDecimal64<T>`: the raw
      value cast to `int`, then the constructor's digit check. */
  function FromFastDecimal64(v: FastDecimal64.FastDecimal64, digits: int): Result<FastDecimal32>
  {
    New(digits, ToInt32(v.value))
  }

  /** The checked narrowing: the checked cast to `int` comes first. */
  function CheckedFromFastDecimal64(v: FastDecimal64.FastDecimal64, digits: int): Result<FastDecimal32>
  {
    if -TWO_31 <= v.value < TWO_31 then New(digits, v.value) else Err(Overflow)
  }

  /** Widening keeps the number and the order, and narrowing gives the value
      back. */
  lemma WideningKeepsValue(a: FastDecimal32, b: FastDecimal32, digits: int)
    requires ValidDigits(digits)
    ensures FastDecimal64.Number(ToFastDecimal64(a), digits) == Number(a, digits)
    ensures FastDecimal64.Less(ToFastDecimal64(a), ToFastDecimal64(b)) <==> Less(a, b)
    ensures FromFastDecimal64(ToFastDecimal64(a), digits) == Ok(a)
    ensures CheckedFromFastDecimal64(ToFastDecimal64(a), digits) == Ok(a)
  {
  }

  /** Narrowing keeps a value that fits an `int` and fails on one that does
      not when checked; a type parameter with more than nine digits is an
      `InvalidOperationException`, unless a checked overflow comes first. */
  lemma NarrowingSpec(v: FastDecimal64.FastDecimal64, digits: int)
    ensures FromFastDecimal64(v, digits).Ok? <==> ValidDigits(digits)
    ensures FromFastDecimal64(v, digits).Ok? ==> (FromFastDecimal64(v, digits).value.value - v.value) % TWO_32 == 0
    ensures CheckedFromFastDecimal64(v, digits).Ok? <==> ValidDigits(digits) && -TWO_31 <= v.value < TWO_31
    ensures CheckedFromFastDecimal64(v, digits).Ok? ==> CheckedFromFastDecimal64(v, digits).value.value == v.value
    ensures !(-TWO_31 <= v.value < TWO_31) ==> CheckedFromFastDecimal64(v, digits) == Err(Overflow)
    ensures -TWO_31 <= v.value < TWO_31 && !ValidDigits(digits) ==>
      CheckedFromFastDecimal64(v, digits) == Err(InvalidOperation)
  {
  }

  // ---------------------------------------------------------------------
  // Sign and magnitude

  /** `ConvertToUnsigned`: the magnitude as a `uint` and whether the value is
      negative. `(uint) -value` wraps for the minimum value and still yields
      its magnitude 2^31. */
  function ConvertToUnsigned(a: FastDecimal32): (r: (u32, bool))
    ensures r.0 == Abs(a.value)
    ensures r.1 <==> a.value < 0
  {
    if a.value >= 0 then (a.value, false)
    else
      assert ToInt32(-(a.value as int)) % TWO_32 == -(a.value as int) by {
        if a.value == -TWO_31 {
          assert ToInt32(TWO_31) == -TWO_31;
        }
      }
      (ToInt32(-(a.value as int)) % TWO_32, true)
  }

  /** The two-operand form: both magnitudes, and whether exactly one operand
      is negative. */
  function ConvertPairToUnsigned(a: FastDecimal32, b: FastDecimal32): (r: (u32, u32, bool))
    ensures r.0 == Abs(a.value) && r.1 == Abs(b.value)
    ensures r.2 <==> (a.value < 0) != (b.value < 0)
  {
    var (x, na) := ConvertToUnsigned(a);
    var (y, nb) := ConvertToUnsigned(b);
    (x, y, if nb then !na else na)
  }

  /** `TryCast`: a `uint` magnitude and a sign back to an `int`, when it fits. */
  function TryCast(ul: u32, negative: bool): (r: Option<i32>)
    ensures r.Some? <==> -TWO_31 <= Signed(ul, negative) < TWO_31
    ensures r.Some? ==> r.value == Signed(ul, negative)
  {
    if !negative && ul <= TWO_31 - 1 then Some(ToInt32(ul))
    else if negative && ul <= TWO_31 then Some(Reattach(ul, true))
    else None
  }

  /** `negative ? -(int) q : (int) q` in unchecked context: the signed
      magnitude, wrapped to 32 bits. */
  function Reattach(u: u64, negative: bool): (r: i32)
    ensures r == ToInt32(Signed(u, negative))
  {
    if negative then
      NegatedCast(u);
      ToInt32(-(ToInt32(u) as int))
    else ToInt32(u)
  }

  lemma NegatedCast(u: int)
    ensures ToInt32(-(ToInt32(u) as int)) == ToInt32(-u)
  {
    NegModZero(ToInt32(u) - u, TWO_32);
    var t: int := ToInt32(u);
    assert (-t - -u) == -(t - u);
    ToInt32Congruent(-t, -u);
  }

  /** Splitting a value into sign and magnitude and casting back gives it back. */
  lemma TryCastConvertRoundTrip(a: FastDecimal32)
    ensures TryCast(ConvertToUnsigned(a).0, ConvertToUnsigned(a).1) == Some(a.value)
  {
  }

  /** `int.Abs`, which overflows on the minimum value. */
  function AbsValue(a: FastDecimal32): (r: Result<FastDecimal32>)
    ensures r.Ok? <==> a.value != -TWO_31
    ensures r.Ok? ==> r.value.value == ConvertToUnsigned(a).0
  {
    Checked(Abs(a.value))
  }

  // ---------------------------------------------------------------------
  // Rounded results: what multiplication, division and narrowing promise

  /** The correctly rounded quotient n / d of two magnitudes with the sign
      put back, in checked or unchecked context; an unknown rounding mode is
      an `ArgumentException`. */
  function RoundedResult(n: nat, d: nat, negative: bool, mode: int, isChecked: bool): Result<FastDecimal32>
    requires d > 0
  {
    if !ValidMode(mode) then Err(ArgumentError)
    else SignedResult(RoundedQuotient(n, d, negative, mode), negative, isChecked)
  }

  /** A magnitude with its sign, checked or wrapped to 32 bits. */
  function SignedResult(m: nat, negative: bool, isChecked: bool): Result<FastDecimal32>
  {
    if isChecked then Checked(Signed(m, negative)) else Ok(Wrap(Signed(m, negative)))
  }

  /** A rounded result is correctly rounded in the sense of the rounding
      mode, and only an unknown mode or a checked overflow is an error. */
  lemma RoundedResultIsCorrect(n: nat, d: nat, negative: bool, mode: int, isChecked: bool)
    requires d > 0
    ensures RoundedResult(n, d, negative, mode, isChecked).Err? ==>
      !ValidMode(mode) || (isChecked && RoundedResult(n, d, negative, mode, isChecked).error == Overflow)
    ensures ValidMode(mode) && RoundedResult(n, d, negative, mode, isChecked).Ok? ==>
      exists m: nat :: CorrectlyRounded(n, d, negative, mode, m) &&
        (RoundedResult(n, d, negative, mode, isChecked).value.value - Signed(m, negative)) % TWO_32 == 0 &&
        (isChecked ==> RoundedResult(n, d, negative, mode, isChecked).value.value == Signed(m, negative))
  {
    if ValidMode(mode) {
      RoundedQuotientIsCorrect(n, d, negative, mode);
      var m := RoundedQuotient(n, d, negative, mode);
      assert CorrectlyRounded(n, d, negative, mode, m);
    }
  }

  /** The common end of multiplication, division and narrowing:
      `q += Round64(q, r, divisor, ...)` in `ulong` arithmetic, then the
      sign is put back. */
  function Finish(q: u64, r: u64, divisor: u64, negative: bool, mode: int, isChecked: bool): Result<FastDecimal32>
  {
    var inc := Round64(q, r, divisor, negative, mode);
    if inc.Err? then Err(inc.error)
    else Cast((q + inc.value) % TWO_64, negative, isChecked)
  }

  /** Checked: `checked((uint) q)` then `TryCast`, each failing with an
      `OverflowException`; unchecked: the negated `int` cast. */
  function Cast(q: u64, negative: bool, isChecked: bool): (r: Result<FastDecimal32>)
    ensures r == SignedResult(q, negative, isChecked)
  {
    if isChecked then
      if q > TWO_32 - 1 then Err(Overflow)
      else
        match TryCast(q, negative)
        case Some(s) => Ok(FastDecimal32(s))
        case None => Err(Overflow)
    else Ok(FastDecimal32(Reattach(q, negative)))
  }

  /** From the quotient and remainder of a 64-bit magnitude the finish
      computes the rounded result exactly; the increment never wraps, since
      it needs a remainder and so a divisor of at least two. */
  lemma FinishSpec(n: nat, d: u64, q: u64, r: u64, negative: bool, mode: int, isChecked: bool)
    requires 0 < d <= TWO_63 && n < TWO_64 && q == n / d && r == n % d
    ensures Finish(q, r, d, negative, mode, isChecked) == RoundedResult(n, d, negative, mode, isChecked)
  {
    if ValidMode(mode) {
      var inc := Round64(q, r, d, negative, mode).value;
      RoundsUpNeedsRemainder(q, r, d, negative, mode);
      if inc == 1 {
        DivBelow(n, d, TWO_63);
      }
      SmallMod(q + inc, TWO_64);
      assert q + inc == RoundedQuotient(n, d, negative, mode);
    }
  }

  // ---------------------------------------------------------------------
  // Multiplication and division

  /** The `ulong` product of two magnitudes, which cannot wrap. */
  function Product(x: u32, y: u64): (r: u64)
    requires y <= TWO_32
    ensures r == x * y
  {
    assert x * y < TWO_64 by {
      MulLe(x, TWO_32 - 1, y);
      MulLe(y, TWO_32, TWO_32 - 1);
    }
    x * y
  }

  /** `MultiplyInternal`: the `ulong` product of the magnitudes, divided by
      10^digits with `Math.DivRem` and rounded. The operators `*` and
      `checked *` round half to even. */
  function MultiplyInternal(a: FastDecimal32, b: FastDecimal32, digits: int, mode: int, isChecked: bool): Result<FastDecimal32>
    requires ValidDigits(digits)
  {
    var (x, y, negative) := ConvertPairToUnsigned(a, b);
    var divisor := GetDivisor(digits);
    var qr := DivRemU64(Product(x, y), divisor);
    Finish(qr.0, qr.1, divisor, negative, mode, isChecked)
  }

  /** The product is the exact product of the numbers, correctly rounded to
      `digits` places, with the sign of the product; checked, it overflows
      exactly when that leaves the `int` range, and unchecked it wraps. */
  lemma MultiplyInternalSpec(a: FastDecimal32, b: FastDecimal32, digits: int, mode: int, isChecked: bool)
    requires ValidDigits(digits)
    ensures MultiplyInternal(a, b, digits, mode, isChecked) ==
      RoundedResult(Abs(a.value) * Abs(b.value), Pow10(digits), (a.value < 0) != (b.value < 0), mode, isChecked)
  {
    var (x, y, negative) := ConvertPairToUnsigned(a, b);
    var divisor := GetDivisor(digits);
    var n := Product(x, y);
    var qr := DivRemU64(n, divisor);
    FinishSpec(n, divisor, qr.0, qr.1, negative, mode, isChecked);
  }

  /** `DivideInternal`: the dividend's magnitude times 10^digits in a
      `ulong`, divided by the divisor's magnitude with `Math.DivRem`, which
      throws on a zero divisor before the rounding mode is looked at. The
      operators `/` and `checked /` round half to even. */
  function DivideInternal(a: FastDecimal32, b: FastDecimal32, digits: int, mode: int, isChecked: bool): Result<FastDecimal32>
    requires ValidDigits(digits)
  {
    var (x, y, negative) := ConvertPairToUnsigned(a, b);
    var scaled := Product(x, GetDivisor(digits));
    if y == 0 then Err(DivideByZero)
    else
      var qr := DivRemU64(scaled, y);
      Finish(qr.0, qr.1, y, negative, mode, isChecked)
  }

  /** The quotient is the exact quotient of the numbers, correctly rounded
      to `digits` places: the dividend's magnitude times 10^digits over the
      divisor's magnitude, rounded, with the sign of the quotient; a zero
      divisor is a `DivideByZeroException` in every mode. */
  lemma DivideInternalSpec(a: FastDecimal32, b: FastDecimal32, digits: int, mode: int, isChecked: bool)
    requires ValidDigits(digits)
    ensures b.value == 0 ==> DivideInternal(a, b, digits, mode, isChecked) == Err(DivideByZero)
    ensures b.value != 0 ==> (DivideInternal(a, b, digits, mode, isChecked) ==
      RoundedResult(Abs(a.value) * Pow10(digits), Abs(b.value), (a.value < 0) != (b.value < 0), mode, isChecked))
  {
    var (x, y, negative) := ConvertPairToUnsigned(a, b);
    var n := Product(x, GetDivisor(digits));
    if y != 0 {
      var qr := DivRemU64(n, y);
      FinishSpec(n, y, qr.0, qr.1, negative, mode, isChecked);
    }
  }

  /** Multiplying by one whole unit and dividing by it give the value back,
      checked or not, in every rounding mode. */
  lemma OneIsIdentity(a: FastDecimal32, digits: int, mode: int, isChecked: bool)
    requires ValidDigits(digits) && ValidMode(mode)
    ensures MultiplyInternal(a, One(digits), digits, mode, isChecked) == Ok(a)
    ensures DivideInternal(a, One(digits), digits, mode, isChecked) == Ok(a)
  {
    var p := Pow10(digits);
    var w := a.value * p;
    MultiplyInternalSpec(a, One(digits), digits, mode, isChecked);
    DivideInternalSpec(a, One(digits), digits, mode, isChecked);
    assert Abs(w) == Abs(a.value) * p && ((w < 0) <==> a.value < 0) by {
      MulNeg(a.value, p);
      if a.value < 0 {
        MulLe(a.value, -1, p);
      } else {
        MulLe(0, a.value, p);
      }
    }
    FastDecimal64.ExactQuotient(a.value, w, p, mode);
  }

  // ---------------------------------------------------------------------
  // Changing the number of fractional digits

  /** `ChangePrecision`: to at least as many digits the raw value is
      multiplied by the power of ten in between, checked; to fewer digits the
      magnitude is divided by it and rounded, and the sign put back. */
  function ChangePrecision(a: FastDecimal32, src: int, dst: int, mode: int): Result<FastDecimal32>
    requires ValidDigits(src) && ValidDigits(dst)
  {
    if dst >= src then Checked(a.value * GetDivisor(dst - src))
    else
      var (u, negative) := ConvertToUnsigned(a);
      var p := GetDivisor(src - dst);
      var qr := DivRemU64(u, p);
      Finish(qr.0, qr.1, p, negative, mode, false)
  }

  /** Widening keeps the number exactly and overflows exactly when the
      scaled value leaves the `int` range. */
  lemma ChangePrecisionWidens(a: FastDecimal32, src: int, dst: int, mode: int)
    requires ValidDigits(src) && ValidDigits(dst) && dst >= src
    ensures ChangePrecision(a, src, dst, mode).Ok? <==> -TWO_31 <= a.value * Pow10(dst - src) < TWO_31
    ensures ChangePrecision(a, src, dst, mode).Ok? ==>
      Number(ChangePrecision(a, src, dst, mode).value, dst) == Number(a, src)
    ensures ChangePrecision(a, src, dst, mode).Err? ==> ChangePrecision(a, src, dst, mode).error == Overflow
  {
    var k := dst - src;
    var x: int := a.value * Pow10(k);
    assert ChangePrecision(a, src, dst, mode) == Checked(x);
    if Checked(x).Ok? {
      Pow10Add(k, src);
      assert k + src == dst;
      ScaledNumber(a.value, Pow10(k), Pow10(src));
    }
  }

  /** Narrowing rounds the number correctly, always fits, and fails only on
      an unknown rounding mode. */
  lemma ChangePrecisionNarrows(a: FastDecimal32, src: int, dst: int, mode: int)
    requires ValidDigits(src) && ValidDigits(dst) && dst < src
    ensures !ValidMode(mode) ==> ChangePrecision(a, src, dst, mode) == Err(ArgumentError)
    ensures ValidMode(mode) ==> ChangePrecision(a, src, dst, mode).Ok?
    ensures ValidMode(mode) ==>
      ChangePrecision(a, src, dst, mode).value.value ==
        Signed(RoundedQuotient(Abs(a.value), Pow10(src - dst), a.value < 0, mode), a.value < 0)
  {
    var (u, negative) := ConvertToUnsigned(a);
    var p := GetDivisor(src - dst);
    var qr := DivRemU64(u, p);
    FinishSpec(u, p, qr.0, qr.1, negative, mode, false);
    if ValidMode(mode) {
      var m := RoundedQuotient(u, p, negative, mode);
      assert m < TWO_31 by {
        Pow10Monotone(1, src - dst);
        DivBelow(u, p, TWO_31 / 4);
      }
      assert RoundedResult(u, p, negative, mode, false).value.value == Signed(m, negative);
    }
  }

  /** Widening and narrowing back gives the value back, in every rounding
      mode: nothing needs rounding. */
  lemma ChangePrecisionRoundTrip(a: FastDecimal32, src: int, dst: int, mode: int)
    requires ValidDigits(src) && ValidDigits(dst) && dst >= src && ValidMode(mode)
    requires ChangePrecision(a, src, dst, mode).Ok?
    ensures ChangePrecision(ChangePrecision(a, src, dst, mode).value, dst, src, mode) == Ok(a)
  {
    var b := ChangePrecision(a, src, dst, mode).value;
    var p := Pow10(dst - src);
    assert b.value == a.value * p;
    if dst == src {
      assert ChangePrecision(b, dst, src, mode) == Checked(b.value * 1);
    } else {
      ChangePrecisionNarrows(b, dst, src, mode);
      FastDecimal64.ExactQuotient(a.value, b.value, p, mode);
    }
  }

  // ---------------------------------------------------------------------
  // Conversions to and from the host decimal

  /** `(decimal) value`: `new decimal((int) magnitude, 0, 0, negative,
      digits)`, the magnitude as the lowest 32-bit word of the coefficient. */
  function ToDecimal(a: FastDecimal32, digits: int): (d: DecimalBytes)
    requires ValidDigits(digits)
    ensures Scale(d) == digits
  {
    var (u, negative) := ConvertToUnsigned(a);
    MakeDecimalFields(u, 0, 0, negative, digits);
    MakeDecimal(u, 0, 0, negative, digits)
  }

  /** The decimal has the value's digits as its scale, its sign, and its
      magnitude as coefficient, so it stands for the same number. Read
      through the overlapping fields, its `High64` is the magnitude shifted
      up by 32 bits and its `Low32` is zero. */
  lemma ToDecimalFields(a: FastDecimal32, digits: int)
    requires ValidDigits(digits)
    ensures Scale(ToDecimal(a, digits)) == digits
    ensures Negative(ToDecimal(a, digits)) <==> a.value < 0
    ensures DecimalStruct.High32(ToDecimal(a, digits)) == 0
    ensures Low64(ToDecimal(a, digits)) == Abs(a.value)
    ensures Coefficient(ToDecimal(a, digits)) == Abs(a.value)
    ensures DecimalValue(ToDecimal(a, digits)) == Number(a, digits)
    ensures High64(ToDecimal(a, digits)) == TWO_32 * Abs(a.value)
    ensures Low32(ToDecimal(a, digits)) == 0
  {
    var (u, negative) := ConvertToUnsigned(a);
    MakeDecimalFields(u, 0, 0, negative, digits);
  }

  /** `(FastDecimal32<T>) decimal`, unchecked, on the decimal's fields: at
      the same scale the low 64-bit word, at a lower scale the low word of
      its product with the power of ten in between, at a higher scale the
      coefficient divided down and rounded half to even; each is cast to
      `int` and the sign put back. */
  function FromWords(high: u32, low: u64, scale: int, negative: bool, digits: int): FastDecimal32
    requires ValidDigits(digits) && 0 <= scale <= MaxScale
  {
    if scale == digits then FastDecimal32(Reattach(low, negative))
    else if scale < digits then
      var product := BigMul(low, GetDivisor(digits - scale));
      FastDecimal32(Reattach(product.1, negative))
    else
      FastDecimal32(Reattach(FastDecimal64.DivideDown(high, low, scale - digits, negative).lower, negative))
  }

  function FromDecimal(d: DecimalBytes, digits: int): FastDecimal32
    requires ValidDigits(digits) && Scale(d) <= MaxScale
  {
    FromWords(DecimalStruct.High32(d), Low64(d), Scale(d), Negative(d), digits)
  }

  /** Two magnitudes that agree modulo 2^64 give the same wrapped `int`. */
  lemma SignedCongruent(x: int, y: int, negative: bool)
    requires (x - y) % TWO_64 == 0
    ensures ToInt32(Signed(x, negative)) == ToInt32(Signed(y, negative))
  {
    var k := (x - y) / TWO_64;
    assert x - y == k * TWO_64;
    assert Signed(x, negative) - Signed(y, negative) == (if negative then -k else k) * TWO_32 * TWO_32;
    DivModUnique(Signed(x, negative) - Signed(y, negative), TWO_32, (if negative then -k else k) * TWO_32, 0);
    ToInt32Congruent(Signed(x, negative), Signed(y, negative));
  }

  /** The unchecked cast is the rescaled coefficient `m` with its sign,
      wrapped to 32 bits. */
  lemma FromWordsSpec(high: u32, low: u64, scale: int, negative: bool, digits: int, m: nat)
    requires ValidDigits(digits) && 0 <= scale <= MaxScale
    requires m == high * TWO_64 + low && m < TWO_96
    ensures FromWords(high, low, scale, negative, digits).value ==
      ToInt32(Signed(Rescale(m, scale, digits, negative), negative))
  {
    if scale == digits {
      assert UInt128(high, low).Val() == m;
      FastDecimal64.LowerCongruent(UInt128(high, low));
      SignedCongruent(low, m, negative);
    } else if scale < digits {
      FromWordsScaledUp(high, low, scale, negative, digits, m);
    } else {
      FromWordsDividedDown(high, low, scale, negative, digits, m);
    }
  }

  lemma FromWordsScaledUp(high: u32, low: u64, scale: int, negative: bool, digits: int, m: nat)
    requires ValidDigits(digits) && 0 <= scale < digits
    requires m == high * TWO_64 + low
    ensures FromWords(high, low, scale, negative, digits).value ==
      ToInt32(Signed(Rescale(m, scale, digits, negative), negative))
  {
    var p := GetDivisor(digits - scale);
    var product := BigMul(low, p);
    assert FromWords(high, low, scale, negative, digits).value == Reattach(product.1, negative);
    assert (product.1 - m * p) % TWO_64 == 0 by {
      FastDecimal64.ScaledUpLow(high, low, m, p, product.0, product.1);
    }
    SignedCongruent(product.1, m * p, negative);
    assert Rescale(m, scale, digits, negative) == m * p;
  }

  lemma FromWordsDividedDown(high: u32, low: u64, scale: int, negative: bool, digits: int, m: nat)
    requires ValidDigits(digits) && digits < scale <= MaxScale
    requires m == high * TWO_64 + low && m < TWO_96
    ensures FromWords(high, low, scale, negative, digits).value ==
      ToInt32(Signed(Rescale(m, scale, digits, negative), negative))
  {
    var k := scale - digits;
    var q := FastDecimal64.DivideDown(high, low, k, negative);
    assert FromWords(high, low, scale, negative, digits).value == Reattach(q.lower, negative);
    LowerWraps(q, negative);
    assert q.Val() == Rescale(m, scale, digits, negative) by {
      FastDecimal64.DivideDownIsRounded(high, low, k, negative, m);
    }
  }

  /** The sign put back on the low half of a 128-bit magnitude is the whole
      magnitude with its sign, wrapped to 32 bits. */
  lemma LowerWraps(q: UInt128, negative: bool)
    ensures Reattach(q.lower, negative) == ToInt32(Signed(q.Val(), negative))
  {
    FastDecimal64.LowerCongruent(q);
    SignedCongruent(q.lower, q.Val(), negative);
  }

  lemma FromDecimalSpec(d: DecimalBytes, digits: int)
    requires ValidDigits(digits) && Scale(d) <= MaxScale
    ensures FromDecimal(d, digits).value == ToInt32(Signed(Rescaled(d, digits), Negative(d)))
  {
    FromWordsSpec(DecimalStruct.High32(d), Low64(d), Scale(d), Negative(d), digits, Coefficient(d));
  }

  function FromCast(l: Option<i32>): (r: Option<FastDecimal32>)
    ensures r.Some? <==> l.Some?
    ensures r.Some? ==> r.value.value == l.value
  {
    match l
    case Some(v) => Some(FastDecimal32(v))
    case None => None
  }

  /** `TryCastDecimal` on the coefficient's words, reading them the way the
      checks are meant: at the same scale the coefficient must fit 32 bits,
      at a lower scale so must its product with the power of ten in between,
      and at a higher scale the rounded quotient; then the sign must fit.
      The code as written reads other fields (see `TryCastDecimalAsWritten`). */
  function TryCastWords(high: u32, low: u64, scale: int, negative: bool, digits: int): Option<FastDecimal32>
    requires ValidDigits(digits) && 0 <= scale <= MaxScale
  {
    if scale == digits then
      if high == 0 && low <= TWO_32 - 1 then FromCast(TryCast(low, negative)) else None
    else if scale < digits && high == 0 && low <= TWO_32 - 1 then
      var product := Product(low, GetDivisor(digits - scale));
      if product <= TWO_32 - 1 then FromCast(TryCast(product, negative)) else None
    else if scale > digits then
      var q := FastDecimal64.DivideDown(high, low, scale - digits, negative);
      if q.upper == 0 && q.lower <= TWO_32 - 1 then FromCast(TryCast(q.lower, negative)) else None
    else None
  }

  function TryCastDecimal(d: DecimalBytes, digits: int): Option<FastDecimal32>
    requires ValidDigits(digits) && Scale(d) <= MaxScale
  {
    TryCastWords(DecimalStruct.High32(d), Low64(d), Scale(d), Negative(d), digits)
  }

  /** The checked `(FastDecimal32<T>) decimal` and the `FastDecimal32<T>(decimal)`
      constructor: `TryCastDecimal` or an `OverflowException`. */
  function CheckedFromDecimal(d: DecimalBytes, digits: int): Result<FastDecimal32>
    requires ValidDigits(digits) && Scale(d) <= MaxScale
  {
    match TryCastDecimal(d, digits)
    case Some(v) => Ok(v)
    case None => Err(Overflow)
  }

  /** `c` is the value `v` when `v` fits an `int`, and nothing otherwise. */
  predicate CastsTo(c: Option<FastDecimal32>, v: int)
  {
    (c.Some? <==> -TWO_31 <= v < TWO_31) && (c.Some? ==> c.value.value == v)
  }

  /** The checked cast succeeds exactly when the rescaled coefficient `m`
      with its sign fits an `int`, and then it is that value. */
  lemma TryCastWordsSpec(high: u32, low: u64, scale: int, negative: bool, digits: int, m: nat)
    requires ValidDigits(digits) && 0 <= scale <= MaxScale
    requires m == high * TWO_64 + low && m < TWO_96
    ensures CastsTo(TryCastWords(high, low, scale, negative, digits),
                    Signed(Rescale(m, scale, digits, negative), negative))
  {
    if scale == digits {
      assert Rescale(m, scale, digits, negative) == m;
    } else if scale < digits {
      TryCastScaledUp(high, low, scale, negative, digits, m);
    } else {
      TryCastDividedDown(high, low, scale, negative, digits, m);
    }
  }

  lemma TryCastScaledUp(high: u32, low: u64, scale: int, negative: bool, digits: int, m: nat)
    requires ValidDigits(digits) && 0 <= scale < digits
    requires m == high * TWO_64 + low
    ensures CastsTo(TryCastWords(high, low, scale, negative, digits),
                    Signed(Rescale(m, scale, digits, negative), negative))
  {
    var p := GetDivisor(digits - scale);
    assert Rescale(m, scale, digits, negative) == m * p;
    MulLe(1, p, m);
  }

  lemma TryCastDividedDown(high: u32, low: u64, scale: int, negative: bool, digits: int, m: nat)
    requires ValidDigits(digits) && digits < scale <= MaxScale
    requires m == high * TWO_64 + low && m < TWO_96
    ensures CastsTo(TryCastWords(high, low, scale, negative, digits),
                    Signed(Rescale(m, scale, digits, negative), negative))
  {
    var k := scale - digits;
    FastDecimal64.DivideDownIsRounded(high, low, k, negative, m);
    CastQuotient(FastDecimal64.DivideDown(high, low, k, negative), Rescale(m, scale, digits, negative), negative);
  }

  /** The quotient's cast: it fits exactly when its value with the sign does. */
  lemma CastQuotient(q: UInt128, v: nat, negative: bool)
    requires q.Val() == v
    ensures CastsTo(if q.upper == 0 && q.lower <= TWO_32 - 1 then FromCast(TryCast(q.lower, negative)) else None,
                    Signed(v, negative))
  {
    if q.upper != 0 {
      MulLe(1, q.upper, TWO_64);
    }
  }

  /** The same for the decimal; the checked operator throws an overflow
      exactly where `TryCastDecimal` fails. */
  lemma TryCastDecimalSpec(d: DecimalBytes, digits: int)
    requires ValidDigits(digits) && Scale(d) <= MaxScale
    ensures TryCastDecimal(d, digits).Some? <==> -TWO_31 <= Signed(Rescaled(d, digits), Negative(d)) < TWO_31
    ensures TryCastDecimal(d, digits).Some? ==>
      TryCastDecimal(d, digits).value.value == Signed(Rescaled(d, digits), Negative(d))
    ensures CheckedFromDecimal(d, digits).Err? ==> CheckedFromDecimal(d, digits).error == Overflow
    ensures CheckedFromDecimal(d, digits).Ok? ==> Some(CheckedFromDecimal(d, digits).value) == TryCastDecimal(d, digits)
  {
    TryCastWordsSpec(DecimalStruct.High32(d), Low64(d), Scale(d), Negative(d), digits, Coefficient(d));
  }

  /** A value converted to a decimal and back is unchanged, checked or not. */
  lemma DecimalRoundTrip(a: FastDecimal32, digits: int)
    requires ValidDigits(digits)
    ensures FromDecimal(ToDecimal(a, digits), digits) == a
    ensures TryCastDecimal(ToDecimal(a, digits), digits) == Some(a)
    ensures CheckedFromDecimal(ToDecimal(a, digits), digits) == Ok(a)
  {
    var d := ToDecimal(a, digits);
    ToDecimalFields(a, digits);
    assert Rescaled(d, digits) == Abs(a.value);
    FromDecimalSpec(d, digits);
    TryCastDecimalSpec(d, digits);
  }

  /** `TryCastDecimal` as written: at the same scale it tests `High64`, the
      overlapping 64 bits at offset 4 that hold the high word and the lowest
      32 bits of the coefficient, and casts `Low32`, the overlapping 32 bits
      at offset 12 that hold bits 32..63; at a lower scale it scales `Low32`
      up. The higher-scale case reads the right words. */
  function TryCastDecimalAsWritten(d: DecimalBytes, digits: int): Option<FastDecimal32>
    requires ValidDigits(digits) && Scale(d) <= MaxScale
  {
    var scale, negative := Scale(d), Negative(d);
    if scale == digits then
      if High64(d) == 0 then FromCast(TryCast(Low32(d), negative)) else None
    else if scale < digits && DecimalStruct.High32(d) == 0 then
      var product := Product(Low32(d), GetDivisor(digits - scale));
      if product <= TWO_32 - 1 then FromCast(TryCast(product, negative)) else None
    else TryCastDecimal(d, digits)
  }

  /** As written, the checked cast of a decimal at the type's own scale
      succeeds only for zero: any other value, even one, overflows. */
  lemma AsWrittenRefusesSameScale(a: FastDecimal32, digits: int)
    requires ValidDigits(digits)
    ensures TryCastDecimalAsWritten(ToDecimal(a, digits), digits) == if a.value == 0 then Some(a) else None
    ensures TryCastDecimal(ToDecimal(a, digits), digits) == Some(a)
  {
    ToDecimalFields(a, digits);
    DecimalRoundTrip(a, digits);
  }

  /** As written, the checked cast of a decimal with fewer digits than the
      type answers zero for every coefficient below 2^32. */
  lemma AsWrittenZeroesLowerScale(a: FastDecimal32, src: int, dst: int)
    requires ValidDigits(src) && ValidDigits(dst) && src < dst
    ensures TryCastDecimalAsWritten(ToDecimal(a, src), dst) == Some(FastDecimal32(0))
  {
    ToDecimalFields(a, src);
    assert Product(0, GetDivisor(dst - src)) == 0;
  }

  /** The decimal 1 cast to two digits is the raw value 100, not 0. */
  lemma LowerScaleExample()
    ensures TryCastDecimalAsWritten(ToDecimal(FastDecimal32(1), 0), 2) == Some(FastDecimal32(0))
    ensures TryCastDecimal(ToDecimal(FastDecimal32(1), 0), 2) == Some(FastDecimal32(100))
  {
    var a := FastDecimal32(1);
    var d := ToDecimal(a, 0);
    AsWrittenZeroesLowerScale(a, 0, 2);
    ToDecimalFields(a, 0);
    TryCastDecimalSpec(d, 2);
    assert Pow10(2) == 100;
    assert Rescaled(d, 2) == 100;
  }

  // ---------------------------------------------------------------------
  // Classification

  /** `IsInteger`: the raw value's truncating remainder by 10^digits is zero. */
  predicate IsInteger(a: FastDecimal32, digits: int)
    requires ValidDigits(digits)
  {
    TruncRem(a.value, GetDivisor(digits)) == 0
  }

  /** `IsEvenInteger`: the remainder by 2 * 10^digits, in `long`, is zero. */
  predicate IsEvenInteger(a: FastDecimal32, digits: int)
    requires ValidDigits(digits)
  {
    TruncRem(a.value, 2 * GetDivisor(digits)) == 0
  }

  /** `IsOddInteger`: `Math.DivRem` by 10^digits leaves no remainder and a
      quotient whose lowest bit is set. */
  predicate IsOddInteger(a: FastDecimal32, digits: int)
    requires ValidDigits(digits)
  {
    var p := GetDivisor(digits);
    TruncRem(a.value, p) == 0 && TruncDiv(a.value, p) % 2 != 0
  }

  predicate IsNegative(a: FastDecimal32) { a.value < 0 }
  /** `long.IsPositive` holds for zero too. */
  predicate IsPositive(a: FastDecimal32) { a.value >= 0 }
  predicate IsZero(a: FastDecimal32) { a.value == 0 }
  predicate IsNormal(a: FastDecimal32) { a.value != 0 }

  /** A value is an integer exactly when its number is the whole quotient
      of the raw value by 10^digits; it is then even or odd as that
      quotient is, and never both. */
  lemma IntegerPredicates(a: FastDecimal32, digits: int)
    requires ValidDigits(digits)
    ensures IsInteger(a, digits) <==> a.value % Pow10(digits) == 0
    ensures IsInteger(a, digits) ==> Number(a, digits) == (a.value / Pow10(digits)) as real
    ensures IsEvenInteger(a, digits) <==> IsInteger(a, digits) && (a.value / Pow10(digits)) % 2 == 0
    ensures IsOddInteger(a, digits) <==> IsInteger(a, digits) && (a.value / Pow10(digits)) % 2 == 1
  {
    var v: int, p := a.value, Pow10(digits);
    assert IsInteger(a, digits) <==> v % p == 0 by {
      TruncRemZero(v, p);
    }
    assert IsEvenInteger(a, digits) <==> v % (2 * p) == 0 by {
      TruncRemZero(v, 2 * p);
    }
    if v % p == 0 {
      assert TruncDiv(v, p) == v / p by {
        TruncRemZero(v, p);
        DivModUnique(v, p, TruncDiv(v, p), 0);
      }
      FastDecimal64.WholeQuotient(v, p);
    }
    FastDecimal64.EvenMultiple(v, p);
  }

  /** The sign predicates read the sign of the number. */
  lemma SignPredicates(a: FastDecimal32, digits: int)
    requires ValidDigits(digits)
    ensures IsNegative(a) <==> Number(a, digits) < 0.0
    ensures IsPositive(a) <==> Number(a, digits) >= 0.0
    ensures IsZero(a) <==> Number(a, digits) == 0.0
    ensures IsNormal(a) <==> !IsZero(a)
  {
    FastDecimal64.ScaledOrder(a.value, 0, Pow10(digits) as real);
  }
}
