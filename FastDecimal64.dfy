/** `FastDecimal64<T>`: a signed 64-bit integer `value` standing for
    value / 10^digits, where the number of fractional digits is fixed by the
    type parameter `T`. Here `digits` is a parameter of every operation that
    reads it. All operators build a new value; none has state. */
module FastDecimal64 {
  import opened Machine
  import opened Outcome
  import opened U128
  import opened Fast128BitDiv
  import opened Rounding
  import opened LongDivision
  import opened DecimalStruct

  /** The most fractional digits the type supports. */
  const MaxDigits: int := 18

  predicate ValidDigits(digits: int)
  {
    0 <= digits <= MaxDigits
  }

  /** The raw `_value` field. */
  datatype FastDecimal64 = FastDecimal64(value: i64)

  /** The internal constructor: it refuses a type parameter whose digit count
      is out of range and stores the raw value unchanged otherwise. */
  function New(digits: int, value: i64): (r: Result<FastDecimal64>)
    ensures r.Ok? <==> ValidDigits(digits)
    ensures r.Ok? ==> r.value.value == value
    ensures r.Err? ==> r.error == InvalidOperation
  {
    if digits > MaxDigits || digits < 0 then Err(InvalidOperation) else Ok(FastDecimal64(value))
  }

  /** `GetDivisor()`: the raw value of one whole unit, 10^digits. The source
      reads it from the table of powers of ten; `GetDivisorIsTableEntry`
      shows the two agree. */
  function GetDivisor(digits: int): (r: u64)
    requires ValidDigits(digits)
    ensures 1 <= r <= 1000000000000000000
  {
    Pow10Monotone(digits, 18);
    Pow10Is18();
    Pow10(digits)
  }

  lemma Pow10Is18()
    ensures Pow10(18) == 1000000000000000000
  {
    assert Pow10(6) == 1000000;
    Pow10Add(6, 6);
    Pow10Add(12, 6);
  }

  /** The divisor is the entry of the table of powers of ten. */
  lemma GetDivisorIsTableEntry(digits: int)
    requires ValidDigits(digits)
    ensures GetDivisor(digits) == GetDivisorLow(digits) == Pow10(digits)
  {
    DivisorFitsLow(digits);
  }

  /** One whole unit: the value of `One` and `MultiplicativeIdentity`. */
  function One(digits: int): (r: FastDecimal64)
    requires ValidDigits(digits)
    ensures Number(r, digits) == 1.0
  {
    var p := GetDivisor(digits);
    assert p as real / Pow10(digits) as real == 1.0;
    FastDecimal64(p)
  }

  // ---------------------------------------------------------------------
  // Comparisons: all of them compare the raw values

  /** `CompareTo`: `long.CompareTo`, which answers -1, 0 or 1. */
  function CompareTo(a: FastDecimal64, b: FastDecimal64): (r: int)
    ensures -1 <= r <= 1
    ensures r < 0 <==> a.value < b.value
    ensures r == 0 <==> a == b
  {
    if a.value < b.value then -1 else if a.value > b.value then 1 else 0
  }

  predicate Equals(a: FastDecimal64, b: FastDecimal64) { a.value == b.value }
  predicate Less(a: FastDecimal64, b: FastDecimal64) { a.value < b.value }
  predicate LessOrEqual(a: FastDecimal64, b: FastDecimal64) { a.value <= b.value }
  predicate Greater(a: FastDecimal64, b: FastDecimal64) { a.value > b.value }
  predicate GreaterOrEqual(a: FastDecimal64, b: FastDecimal64) { a.value >= b.value }

  /** The number a value stands for. */
  ghost function Number(a: FastDecimal64, digits: int): real
    requires ValidDigits(digits)
  {
    a.value as real / Pow10(digits) as real
  }

  /** Comparing raw values compares the numbers they stand for, and the
      operators agree with `CompareTo`, which is antisymmetric. */
  lemma OrderIsNumeric(a: FastDecimal64, b: FastDecimal64, digits: int)
    requires ValidDigits(digits)
    ensures Less(a, b) <==> Number(a, digits) < Number(b, digits)
    ensures Equals(a, b) <==> Number(a, digits) == Number(b, digits)
    ensures Less(a, b) <==> CompareTo(a, b) < 0
    ensures Greater(a, b) <==> CompareTo(a, b) > 0
    ensures LessOrEqual(a, b) <==> !Greater(a, b)
    ensures GreaterOrEqual(a, b) <==> !Less(a, b)
    ensures CompareTo(a, b) == -CompareTo(b, a)
  {
    ScaledOrder(a.value, b.value, Pow10(digits) as real);
  }

  /** Dividing by the same positive number keeps the order of two integers. */
  lemma ScaledOrder(x: int, y: int, p: real)
    requires p > 0.0
    ensures x < y <==> x as real / p < y as real / p
    ensures x == y <==> x as real / p == y as real / p
  {
    assert (x as real / p) * p == x as real;
    assert (y as real / p) * p == y as real;
  }

  // ---------------------------------------------------------------------
  // Wrapping and checked arithmetic

  /** `new FastDecimal64<T>(x)` for an x computed in unchecked context: the
      low 64 bits of x, read as a `long`. */
  function Wrap(x: int): (r: FastDecimal64)
    ensures (r.value - x) % TWO_64 == 0
    ensures -TWO_63 <= x < TWO_63 ==> r.value == x
  {
    FastDecimal64(ToInt64(x))
  }

  /** The same in checked context: `OverflowException` outside the `long` range. */
  function Checked(x: int): Result<FastDecimal64>
  {
    if -TWO_63 <= x < TWO_63 then Ok(FastDecimal64(x)) else Err(Overflow)
  }

  /** A checked operation either gives the wrapping result or overflows, and
      it overflows exactly when wrapping changes the value. */
  lemma CheckedAgreesWithWrap(x: int)
    ensures Checked(x).Ok? <==> Wrap(x).value == x
    ensures Checked(x).Ok? ==> Checked(x).value == Wrap(x)
    ensures Checked(x).Err? ==> Checked(x).error == Overflow
  {
  }

  function Add(a: FastDecimal64, b: FastDecimal64): FastDecimal64 { Wrap(a.value + b.value) }
  function CheckedAdd(a: FastDecimal64, b: FastDecimal64): Result<FastDecimal64> { Checked(a.value + b.value) }
  function Subtract(a: FastDecimal64, b: FastDecimal64): FastDecimal64 { Wrap(a.value - b.value) }
  function CheckedSubtract(a: FastDecimal64, b: FastDecimal64): Result<FastDecimal64> { Checked(a.value - b.value) }
  function Negate(a: FastDecimal64): FastDecimal64 { Wrap(-(a.value as int)) }
  function CheckedNegate(a: FastDecimal64): Result<FastDecimal64> { Checked(-(a.value as int)) }

  /** `++` and `--` step by one whole unit. */
  function Increment(a: FastDecimal64, digits: int): FastDecimal64
    requires ValidDigits(digits)
  {
    Wrap(a.value + GetDivisor(digits))
  }

  function CheckedIncrement(a: FastDecimal64, digits: int): Result<FastDecimal64>
    requires ValidDigits(digits)
  {
    Checked(a.value + GetDivisor(digits))
  }

  function Decrement(a: FastDecimal64, digits: int): FastDecimal64
    requires ValidDigits(digits)
  {
    Wrap(a.value - GetDivisor(digits))
  }

  function CheckedDecrement(a: FastDecimal64, digits: int): Result<FastDecimal64>
    requires ValidDigits(digits)
  {
    Checked(a.value - GetDivisor(digits))
  }

  /** Wrapping back by what was wrapped in gives the start value: the raw
      values form the integers modulo 2^64. */
  lemma WrapCancels(v: i64, x: int, y: int)
    requires y == -x || (x == 0 && y == 0)
    ensures Wrap(Wrap(v + x).value + y).value == v
  {
    var w := Wrap(v + x).value;
    assert (w + y - v) % TWO_64 == (w - (v + x)) % TWO_64;
    ToInt64Congruent(w + y, v);
  }

  /** Subtracting undoes adding, and adding undoes subtracting, whatever wraps. */
  lemma AddSubtractInverse(a: FastDecimal64, b: FastDecimal64)
    ensures Subtract(Add(a, b), b) == a
    ensures Add(Subtract(a, b), b) == a
  {
    var x: int := b.value;
    StepBack(a, Add(a, b), x, -x);
    StepBack(a, Subtract(a, b), -x, x);
  }

  /** Negation is an involution, and the minimum value is its own negation. */
  lemma NegateInvolutive(a: FastDecimal64)
    ensures Negate(Negate(a)) == a
    ensures a.value == -TWO_63 ==> Negate(a) == a
  {
    var v: int := a.value;
    NegatedCast(-v);
    assert -(-v) == v;
    if v == -TWO_63 {
      assert ToInt64(TWO_63) == -TWO_63;
    }
  }

  /** Checked negation overflows exactly on the minimum value. */
  lemma CheckedNegateOverflows(a: FastDecimal64)
    ensures CheckedNegate(a).Err? <==> a.value == -TWO_63
    ensures CheckedNegate(a).Ok? ==> CheckedNegate(a).value.value == -a.value
  {
  }

  /** `--` undoes `++` and the other way round, whatever wraps. */
  lemma IncrementDecrementInverse(a: FastDecimal64, digits: int)
    requires ValidDigits(digits)
    ensures Decrement(Increment(a, digits), digits) == a
    ensures Increment(Decrement(a, digits), digits) == a
  {
    var p: int := GetDivisor(digits);
    StepBack(a, Increment(a, digits), p, -p);
    StepBack(a, Decrement(a, digits), -p, p);
  }

  /** A value reached by a wrapping step of x goes back by a step of -x. */
  lemma StepBack(a: FastDecimal64, b: FastDecimal64, x: int, y: int)
    requires b == Wrap(a.value + x) && y == -x
    ensures Wrap(b.value + y) == a
  {
    WrapCancels(a.value, x, y);
  }

  /** Checked `++` overflows exactly when a whole unit more leaves the range. */
  lemma CheckedIncrementOverflows(a: FastDecimal64, digits: int)
    requires ValidDigits(digits)
    ensures CheckedIncrement(a, digits).Err? <==> a.value > TWO_63 - 1 - Pow10(digits)
    ensures CheckedDecrement(a, digits).Err? <==> a.value < -TWO_63 + Pow10(digits)
  {
  }

  // ---------------------------------------------------------------------
  // Remainder and magnitude selection

  /** `%`: `long %` on the raw values, truncating toward zero. A zero divisor
      throws, and so does `MinValue % -1`, whose quotient is no `long`. */
  function Remainder(a: FastDecimal64, b: FastDecimal64): Result<FastDecimal64>
  {
    if b.value == 0 then Err(DivideByZero)
    else if a.value == -TWO_63 && b.value == -1 then Err(Overflow)
    else Ok(FastDecimal64(TruncRem(a.value, b.value)))
  }

  /** The raw remainder is the dividend less the truncated quotient times
      the divisor, so (by `NumberLessMultiple`) the remainder of the numbers
      is the first less that whole multiple of the second. */
  lemma RemainderRaw(a: FastDecimal64, b: FastDecimal64)
    requires Remainder(a, b).Ok?
    ensures Remainder(a, b).value.value == a.value - TruncDiv(a.value, b.value) * b.value
  {
  }

  /** A raw value that is a less q times b stands for the number a less q
      times the number b. */
  lemma NumberLessMultiple(r: FastDecimal64, a: FastDecimal64, b: FastDecimal64, q: int, digits: int)
    requires ValidDigits(digits) && r.value == a.value - q * b.value
    ensures Number(r, digits) == Number(a, digits) - q as real * Number(b, digits)
  {
    LessMultipleUnits(a.value, q, b.value, Pow10(digits));
  }

  /** `%` fails exactly on a zero divisor and on `MinValue % -1`; otherwise
      the remainder is smaller than the divisor in magnitude and has the sign
      of the dividend. */
  lemma RemainderOutcome(a: FastDecimal64, b: FastDecimal64)
    ensures Remainder(a, b).Err? <==> b.value == 0 || (a.value == -TWO_63 && b.value == -1)
    ensures Remainder(a, b).Err? ==>
      Remainder(a, b).error == (if b.value == 0 then DivideByZero else Overflow)
    ensures Remainder(a, b).Ok? ==>
      Abs(Remainder(a, b).value.value) < Abs(b.value) &&
      (a.value > 0 ==> Remainder(a, b).value.value >= 0) &&
      (a.value < 0 ==> Remainder(a, b).value.value <= 0)
  {
  }

  /** `MaxMagnitude`: `long.MaxMagnitude` on the raw values. */
  function MaxMagnitude(x: FastDecimal64, y: FastDecimal64): (r: FastDecimal64)
    ensures r == x || r == y
    ensures Abs(r.value) >= Abs(x.value) && Abs(r.value) >= Abs(y.value)
    ensures Abs(x.value) == Abs(y.value) && (x.value >= 0 || y.value >= 0) ==> r.value >= 0
  {
    if Abs(x.value) > Abs(y.value) then x
    else if Abs(x.value) < Abs(y.value) then y
    else if x.value < 0 then y
    else x
  }

  /** `MinMagnitude`: `long.MinMagnitude` on the raw values. */
  function MinMagnitude(x: FastDecimal64, y: FastDecimal64): (r: FastDecimal64)
    ensures r == x || r == y
    ensures Abs(r.value) <= Abs(x.value) && Abs(r.value) <= Abs(y.value)
    ensures Abs(x.value) == Abs(y.value) && (x.value < 0 || y.value < 0) ==> r.value < 0
  {
    if Abs(x.value) < Abs(y.value) then x
    else if Abs(x.value) > Abs(y.value) then y
    else if x.value < 0 then x
    else y
  }

  /** Between them, `MaxMagnitude` and `MinMagnitude` return both operands. */
  lemma MagnitudesPartition(x: FastDecimal64, y: FastDecimal64)
    ensures multiset{MaxMagnitude(x, y), MinMagnitude(x, y)} == multiset{x, y}
  {
  }

  // ---------------------------------------------------------------------
  // Conversions from `long`

  /** `(FastDecimal64<T>) long`: the integer scaled by 10^digits, wrapping. */
  function FromLong(v: i64, digits: int): FastDecimal64
    requires ValidDigits(digits)
  {
    Wrap(v * GetDivisor(digits))
  }

  /** The checked form, which overflows outside the `long` range. */
  function CheckedFromLong(v: i64, digits: int): Result<FastDecimal64>
    requires ValidDigits(digits)
  {
    Checked(v * GetDivisor(digits))
  }

  /** The checked cast succeeds exactly when the scaled integer is a `long`
      and then stands for the integer; the unchecked one agrees with it
      there and otherwise keeps the scaled integer modulo 2^64. */
  lemma FromLongScales(v: i64, digits: int)
    requires ValidDigits(digits)
    ensures CheckedFromLong(v, digits).Ok? <==> -TWO_63 <= v * Pow10(digits) < TWO_63
    ensures CheckedFromLong(v, digits).Ok? ==> Number(CheckedFromLong(v, digits).value, digits) == v as real
    ensures CheckedFromLong(v, digits).Ok? ==> CheckedFromLong(v, digits).value == FromLong(v, digits)
    ensures (FromLong(v, digits).value - v * Pow10(digits)) % TWO_64 == 0
  {
    WholeUnits(v, Pow10(digits));
  }

  // ---------------------------------------------------------------------
  // Sign and magnitude

  /** `ConvertToUnsigned`: the magnitude as a `ulong` and whether the value is
      negative. `(ulong)-value` wraps for the minimum value and still yields
      its magnitude 2^63. */
  function ConvertToUnsigned(a: FastDecimal64): (r: (u64, bool))
    ensures r.0 == Abs(a.value)
    ensures r.1 <==> a.value < 0
  {
    if a.value >= 0 then (a.value, false)
    else
      assert ToInt64(-(a.value as int)) % TWO_64 == -(a.value as int) by {
        if a.value == -TWO_63 {
          assert ToInt64(TWO_63) == -TWO_63;
        }
      }
      (ToInt64(-(a.value as int)) % TWO_64, true)
  }

  /** The two-operand form: both magnitudes, and whether exactly one operand
      is negative. */
  function ConvertPairToUnsigned(a: FastDecimal64, b: FastDecimal64): (r: (u64, u64, bool))
    ensures r.0 == Abs(a.value) && r.1 == Abs(b.value)
    ensures r.2 <==> (a.value < 0) != (b.value < 0)
  {
    var (x, na) := ConvertToUnsigned(a);
    var (y, nb) := ConvertToUnsigned(b);
    (x, y, if nb then !na else na)
  }

  /** `TryCast`: a magnitude and a sign back to a `long`, when it fits. The
      negative branch negates after a wrapping cast, which is exact up to 2^63. */
  function TryCast(ul: u64, negative: bool): (r: Option<i64>)
    ensures r.Some? <==> -TWO_63 <= Signed(ul, negative) < TWO_63
    ensures r.Some? ==> r.value == Signed(ul, negative)
  {
    if !negative && ul <= TWO_63 - 1 then Some(ToInt64(ul))
    else if negative && ul <= TWO_63 then Some(Reattach(ul, true))
    else None
  }

  /** `negative ? -(long) q : (long) q` in unchecked context: the signed
      magnitude, wrapped to 64 bits. */
  function Reattach(u: u64, negative: bool): (r: i64)
    ensures r == ToInt64(Signed(u, negative))
  {
    if negative then
      NegatedCast(u);
      ToInt64(-(ToInt64(u) as int))
    else ToInt64(u)
  }

  lemma NegatedCast(u: int)
    ensures ToInt64(-(ToInt64(u) as int)) == ToInt64(-u)
  {
    NegModZero(ToInt64(u) - u, TWO_64);
    var t: int := ToInt64(u);
    assert (-t - -u) == -(t - u);
    ToInt64Congruent(-t, -u);
  }

  /** Splitting a value into sign and magnitude and casting back gives it back. */
  lemma TryCastConvertRoundTrip(a: FastDecimal64)
    ensures TryCast(ConvertToUnsigned(a).0, ConvertToUnsigned(a).1) == Some(a.value)
  {
  }

  /** `long.Abs`, which overflows on the minimum value. */
  function AbsValue(a: FastDecimal64): (r: Result<FastDecimal64>)
    ensures r.Ok? <==> a.value != -TWO_63
    ensures r.Ok? ==> r.value.value == ConvertToUnsigned(a).0
  {
    Checked(Abs(a.value))
  }

  // ---------------------------------------------------------------------
  // Rounded results: what multiplication, division and narrowing promise

  /** The correctly rounded quotient n / d of two magnitudes with the sign
      put back, in checked or unchecked context; an unknown rounding mode is
      an `ArgumentException`. */
  function RoundedResult(n: nat, d: nat, negative: bool, mode: int, isChecked: bool): Result<FastDecimal64>
    requires d > 0
  {
    if !ValidMode(mode) then Err(ArgumentError)
    else SignedResult(RoundedQuotient(n, d, negative, mode), negative, isChecked)
  }

  /** A magnitude with its sign, checked or wrapped. */
  function SignedResult(m: nat, negative: bool, isChecked: bool): Result<FastDecimal64>
  {
    if isChecked then Checked(Signed(m, negative)) else Ok(Wrap(Signed(m, negative)))
  }

  /** A rounded result is correctly rounded in the sense of the rounding
      mode, and only an unknown mode or a checked overflow is an error. */
  lemma RoundedResultIsCorrect(n: nat, d: nat, negative: bool, mode: int, isChecked: bool)
    requires d > 0
    ensures RoundedResult(n, d, negative, mode, isChecked).Err? ==>
      !ValidMode(mode) || (isChecked && RoundedResult(n, d, negative, mode, isChecked).error == Overflow)
    ensures ValidMode(mode) && RoundedResult(n, d, negative, mode, isChecked).Ok? ==>
      exists m: nat :: CorrectlyRounded(n, d, negative, mode, m) &&
        (RoundedResult(n, d, negative, mode, isChecked).value.value - Signed(m, negative)) % TWO_64 == 0 &&
        (isChecked ==> RoundedResult(n, d, negative, mode, isChecked).value.value == Signed(m, negative))
  {
    if ValidMode(mode) {
      RoundedQuotientIsCorrect(n, d, negative, mode);
      var m := RoundedQuotient(n, d, negative, mode);
      assert CorrectlyRounded(n, d, negative, mode, m);
    }
  }

  /** The end of the 64-bit paths: `q += Round64(q, r, divisor, ...)` in
      unchecked `ulong` arithmetic, then the sign is put back. */
  function NarrowFinish(q: u64, r: u64, divisor: u64, negative: bool, mode: int, isChecked: bool): Result<FastDecimal64>
  {
    var inc := Round64(q, r, divisor, negative, mode);
    if inc.Err? then Err(inc.error)
    else NarrowCast((q + inc.value) % TWO_64, negative, isChecked)
  }

  /** `TryCast` or `OverflowException` when checked, the negated `long` cast
      otherwise. */
  function NarrowCast(q: u64, negative: bool, isChecked: bool): (r: Result<FastDecimal64>)
    ensures r == SignedResult(q, negative, isChecked)
  {
    if isChecked then
      match TryCast(q, negative)
      case Some(s) => Ok(FastDecimal64(s))
      case None => Err(Overflow)
    else Ok(FastDecimal64(Reattach(q, negative)))
  }

  /** From the quotient and remainder of a 64-bit magnitude the narrow
      finish computes the rounded result exactly; the increment never wraps,
      since it needs a remainder and so a divisor of at least two. */
  lemma NarrowFinishSpec(n: nat, d: u64, q: u64, r: u64, negative: bool, mode: int, isChecked: bool)
    requires 0 < d <= TWO_63 && n < TWO_64 && q == n / d && r == n % d
    ensures NarrowFinish(q, r, d, negative, mode, isChecked) == RoundedResult(n, d, negative, mode, isChecked)
  {
    if ValidMode(mode) {
      var inc := Round64(q, r, d, negative, mode).value;
      RoundsUpNeedsRemainder(q, r, d, negative, mode);
      if inc == 1 {
        HalvedRoom(n, d);
      }
      SmallMod(q + inc, TWO_64);
    }
  }

  lemma HalvedRoom(n: nat, d: nat)
    requires 2 <= d && n < TWO_64
    ensures n / d < TWO_63
  {
    MulLe(2, d, TWO_63);
    DivBelow(n, d, TWO_63);
  }

  /** The end of the 128-bit paths: the rounding decision reads the low
      word of the quotient and the increment is a 128-bit addition. */
  function WideFinish(q: UInt128, r: u64, divisor: u64, negative: bool, mode: int, isChecked: bool): Result<FastDecimal64>
  {
    var inc := Round64(q.lower, r, divisor, negative, mode);
    if inc.Err? then Err(inc.error)
    else WideCast(U128.Add(q, UInt128(0, inc.value)), negative, isChecked)
  }

  /** A checked result needs an empty high word and a successful `TryCast`;
      an unchecked one negates the `long` cast of the low word. */
  function WideCast(q: UInt128, negative: bool, isChecked: bool): (r: Result<FastDecimal64>)
    ensures r == SignedResult(q.Val(), negative, isChecked)
  {
    SignedCongruent(q.lower, q.Val(), negative);
    if isChecked then
      if q.upper == 0 then
        match TryCast(q.lower, negative)
        case Some(s) => Ok(FastDecimal64(s))
        case None => Err(Overflow)
      else Err(Overflow)
    else Ok(FastDecimal64(Reattach(q.lower, negative)))
  }

  /** The wide finish computes the rounded result exactly as well: the low
      word has the parity of the whole quotient, and the 128-bit increment
      does not wrap. */
  lemma WideFinishSpec(n: nat, d: u64, q: UInt128, r: u64, negative: bool, mode: int, isChecked: bool)
    requires 0 < d <= TWO_63 && n < TWO_127 && q.Val() == n / d && r == n % d
    ensures WideFinish(q, r, d, negative, mode, isChecked) == RoundedResult(n, d, negative, mode, isChecked)
  {
    if ValidMode(mode) {
      var inc := Round64(q.lower, r, d, negative, mode).value;
      var m := q.Val() + inc;
      assert m == RoundedQuotient(n, d, negative, mode) by {
        LowerParity(q);
        RoundsUpParity(q.lower, q.Val(), r, d, negative, mode);
      }
      var q2 := U128.Add(q, UInt128(0, inc));
      assert q2.Val() == m by {
        DivBelow(n, d, TWO_127);
        SmallMod(m, TWO_128);
      }
    }
  }

  /** The low word of a 128-bit value has the parity of the whole value. */
  lemma LowerParity(q: UInt128)
    ensures q.lower % 2 == q.Val() % 2
  {
    DivModUnique(q.Val(), 2, q.upper * (TWO_64 / 2) + q.lower / 2, q.lower % 2);
  }

  /** Two magnitudes that agree modulo 2^64 give the same wrapped signed value. */
  lemma SignedCongruent(x: int, y: int, negative: bool)
    requires (x - y) % TWO_64 == 0
    ensures ToInt64(Signed(x, negative)) == ToInt64(Signed(y, negative))
  {
    if negative {
      NegModZero(x - y, TWO_64);
      assert -x - -y == -(x - y);
    }
    ToInt64Congruent(Signed(x, negative), Signed(y, negative));
  }

  // ---------------------------------------------------------------------
  // Multiplication

  /** `MultiplyInternal`: the 128-bit product of the magnitudes, divided by
      10^digits and rounded. The operators `*` and `checked *` round half to
      even. */
  function MultiplyInternal(a: FastDecimal64, b: FastDecimal64, digits: int, mode: int, isChecked: bool): Result<FastDecimal64>
    requires ValidDigits(digits)
  {
    var (x, y, negative) := ConvertPairToUnsigned(a, b);
    var product := BigMul(x, y);
    ScaleDownProduct(product.0, product.1, digits, negative, mode, isChecked)
  }

  /** The division of the product by 10^digits: a product that fits 64 bits
      takes `Math.DivRem`; a wider one takes the reciprocal division of
      `Fast128BitDiv`, here in the form that also handles zero digits (see
      `ScaleDownProductAsWritten`). */
  function ScaleDownProduct(high: u64, low: u64, digits: int, negative: bool, mode: int, isChecked: bool): Result<FastDecimal64>
    requires ValidDigits(digits)
  {
    var divisor := GetDivisor(digits);
    if high == 0 then
      var qr := DivRemU64(low, divisor);
      NarrowFinish(qr.0, qr.1, divisor, negative, mode, isChecked)
    else
      var qr := DecDivRemCorrected(high, low, digits);
      WideFinish(qr.0, qr.1.lower, divisor, negative, mode, isChecked)
  }

  /** Scaling down a product n below 2^127 rounds it correctly. */
  lemma ScaleDownProductSpec(high: u64, low: u64, n: nat, digits: int, negative: bool, mode: int, isChecked: bool)
    requires ValidDigits(digits) && n == high * TWO_64 + low && n < TWO_127
    ensures ScaleDownProduct(high, low, digits, negative, mode, isChecked) ==
      RoundedResult(n, Pow10(digits), negative, mode, isChecked)
  {
    var p := GetDivisor(digits);
    assert p == Pow10(digits);
    if high == 0 {
      var qr := DivRemU64(low, p);
      NarrowFinishSpec(n, p, qr.0, qr.1, negative, mode, isChecked);
    } else {
      var qr := DecDivRemCorrected(high, low, digits);
      var q, rem := qr.0, qr.1;
      assert UInt128(high, low).Val() == n;
      assert q.Val() == n / p && rem.Val() == n % p;
      LowWord(rem, n % p, p);
      WideFinishSpec(n, p, q, rem.lower, negative, mode, isChecked);
    }
  }

  /** A 128-bit value below a 64-bit bound is its own low word. */
  lemma LowWord(v: UInt128, x: int, p: u64)
    requires v.Val() == x && 0 <= x < p
    ensures v.lower == x
  {
  }

  /** The product is the exact product of the numbers, correctly rounded to
      `digits` places: the magnitudes' product over 10^digits, rounded, with
      the sign of the product; checked, it overflows exactly when that
      leaves the `long` range, and unchecked it wraps. */
  lemma MultiplyInternalSpec(a: FastDecimal64, b: FastDecimal64, digits: int, mode: int, isChecked: bool)
    requires ValidDigits(digits)
    ensures MultiplyInternal(a, b, digits, mode, isChecked) ==
      RoundedResult(Abs(a.value) * Abs(b.value), Pow10(digits), (a.value < 0) != (b.value < 0), mode, isChecked)
  {
    var (x, y, negative) := ConvertPairToUnsigned(a, b);
    var product := BigMul(x, y);
    var n := Abs(a.value) * Abs(b.value);
    assert n == x * y < TWO_127 by {
      MulLe(x, TWO_63, y);
      MulLe(y, TWO_63, TWO_63);
    }
    ScaleDownProductSpec(product.0, product.1, n, digits, negative, mode, isChecked);
  }

  /** The source as written: the wide path calls `DecDivRem128By128`
      directly, which for zero digits answers a zero quotient and the whole
      product as remainder. */
  function MultiplyInternalAsWritten(a: FastDecimal64, b: FastDecimal64, digits: int, mode: int, isChecked: bool): Result<FastDecimal64>
    requires ValidDigits(digits)
  {
    var (x, y, negative) := ConvertPairToUnsigned(a, b);
    var product := BigMul(x, y);
    ScaleDownProductAsWritten(product.0, product.1, digits, negative, mode, isChecked)
  }

  function ScaleDownProductAsWritten(high: u64, low: u64, digits: int, negative: bool, mode: int, isChecked: bool): Result<FastDecimal64>
    requires ValidDigits(digits)
  {
    var divisor := GetDivisor(digits);
    if high == 0 then
      var qr := DivRemU64(low, divisor);
      NarrowFinish(qr.0, qr.1, divisor, negative, mode, isChecked)
    else
      var qr := DecDivRem128By128(high, low, digits);
      WideFinish(qr.0, qr.1.lower, divisor, negative, mode, isChecked)
  }

  /** With at least one fractional digit the code as written is the
      corrected one. */
  lemma MultiplyAsWrittenAgrees(a: FastDecimal64, b: FastDecimal64, digits: int, mode: int, isChecked: bool)
    requires ValidDigits(digits) && digits > 0
    ensures MultiplyInternalAsWritten(a, b, digits, mode, isChecked) == MultiplyInternal(a, b, digits, mode, isChecked)
  {
  }

  /** With zero digits it is not: 2^32 * 2^32 = 2^64 is outside the `long`
      range, yet checked multiplication as written answers 0 instead of
      overflowing. */
  lemma MultiplyAsWrittenAtScaleZero()
    ensures MultiplyInternalAsWritten(FastDecimal64(TWO_32), FastDecimal64(TWO_32), 0, ToEven, true) == Ok(FastDecimal64(0))
    ensures MultiplyInternal(FastDecimal64(TWO_32), FastDecimal64(TWO_32), 0, ToEven, true) == Err(Overflow)
  {
    var a := FastDecimal64(TWO_32);
    assert BigMul(TWO_32, TWO_32) == (1, 0) by {
      DivModUnique(TWO_32 * TWO_32, TWO_64, 1, 0);
    }
    ScaleDownProductSpec(1, 0, TWO_64, 0, false, ToEven, true);
    assert RoundedQuotient(TWO_64, 1, false, ToEven) == TWO_64;
  }

  /** Unchecked, 2^32 * (2^32 + 1) as written answers 1 instead of the
      wrapped 2^32. */
  lemma MultiplyAsWrittenWrapsAtScaleZero()
    ensures MultiplyInternalAsWritten(FastDecimal64(TWO_32), FastDecimal64(TWO_32 + 1), 0, ToEven, false) == Ok(FastDecimal64(1))
    ensures MultiplyInternal(FastDecimal64(TWO_32), FastDecimal64(TWO_32 + 1), 0, ToEven, false) == Ok(FastDecimal64(TWO_32))
  {
    assert BigMul(TWO_32, TWO_32 + 1) == (1, TWO_32) by {
      DivModUnique(TWO_32 * (TWO_32 + 1), TWO_64, 1, TWO_32);
    }
    ScaleDownProductSpec(1, TWO_32, TWO_64 + TWO_32, 0, false, ToEven, false);
    assert RoundedQuotient(TWO_64 + TWO_32, 1, false, ToEven) == TWO_64 + TWO_32;
    ToInt64Congruent(TWO_64 + TWO_32, TWO_32);
  }

  // ---------------------------------------------------------------------
  // Division

  /** `DivideInternal`: the dividend's magnitude scaled by 10^digits into
      128 bits, divided by the divisor's magnitude and rounded. A scaled
      dividend that fits 64 bits takes `Math.DivRem`, which throws on a zero
      divisor; a wider one overflows at once when checked and the quotient
      cannot fit, and otherwise takes the 128-by-64-bit `DivRem`, whose
      errors pass through. The operator `/` and `checked /` round half to
      even. */
  function DivideInternal(a: FastDecimal64, b: FastDecimal64, digits: int, mode: int, isChecked: bool): Result<FastDecimal64>
    requires ValidDigits(digits)
  {
    var (x, y, negative) := ConvertPairToUnsigned(a, b);
    var scaled := BigMul(x, GetDivisor(digits));
    DivideScaled(scaled.0, scaled.1, y, negative, mode, isChecked)
  }

  /** The division of the scaled dividend by the divisor's magnitude. */
  function DivideScaled(high: u64, low: u64, y: u64, negative: bool, mode: int, isChecked: bool): Result<FastDecimal64>
  {
    if high == 0 then
      if y == 0 then Err(DivideByZero)
      else
        var qr := DivRemU64(low, y);
        NarrowFinish(qr.0, qr.1, y, negative, mode, isChecked)
    else if isChecked && high >= y then Err(Overflow)
    else
      var qr := DivRemOutcome(UInt128(high, low), y);
      if qr.Err? then Err(qr.error)
      else WideFinish(qr.value.0, qr.value.1, y, negative, mode, isChecked)
  }

  /** Dividing a scaled dividend n below 2^127 by a nonzero divisor rounds
      the quotient correctly; the early overflow only fires when the
      quotient is at least 2^64. */
  lemma DivideScaledSpec(high: u64, low: u64, n: nat, y: u64, negative: bool, mode: int, isChecked: bool)
    requires n == high * TWO_64 + low && n < TWO_127 && 0 < y <= TWO_63 && ValidMode(mode)
    ensures DivideScaled(high, low, y, negative, mode, isChecked) == RoundedResult(n, y, negative, mode, isChecked)
  {
    if high == 0 {
      var qr := DivRemU64(low, y);
      NarrowFinishSpec(n, y, qr.0, qr.1, negative, mode, isChecked);
    } else if isChecked && high >= y {
      QuotientTooWide(n, high, low, y, negative, mode);
    } else {
      var qr := DivRemOutcome(UInt128(high, low), y);
      assert UInt128(high, low).Val() == n;
      var q, r := qr.value.0, qr.value.1;
      DivModUnique(n, y, q.Val(), r);
      WideFinishSpec(n, y, q, r, negative, mode, isChecked);
    }
  }

  /** A high word at least the divisor makes the rounded quotient at least
      2^64, outside the `long` range. */
  lemma QuotientTooWide(n: nat, high: u64, low: u64, y: u64, negative: bool, mode: int)
    requires n == high * TWO_64 + low && 0 < y <= high && ValidMode(mode)
    ensures RoundedResult(n, y, negative, mode, true) == Err(Overflow)
  {
    MulLe(y, high, TWO_64);
    DivAtLeast(n, y, TWO_64);
  }

  /** The quotient is the exact quotient of the numbers, correctly rounded
      to `digits` places: the dividend's magnitude times 10^digits over the
      divisor's magnitude, rounded, with the sign of the quotient. */
  lemma DivideInternalSpec(a: FastDecimal64, b: FastDecimal64, digits: int, mode: int, isChecked: bool)
    requires ValidDigits(digits) && b.value != 0 && ValidMode(mode)
    ensures DivideInternal(a, b, digits, mode, isChecked) ==
      RoundedResult(Abs(a.value) * Pow10(digits), Abs(b.value), (a.value < 0) != (b.value < 0), mode, isChecked)
  {
    var (x, y, negative) := ConvertPairToUnsigned(a, b);
    var p := GetDivisor(digits);
    var scaled := BigMul(x, p);
    var n := Abs(a.value) * Pow10(digits);
    assert n == x * p < TWO_127 by {
      MulLe(x, TWO_63, p);
      MulLe(p, TWO_63, TWO_63);
    }
    DivideScaledSpec(scaled.0, scaled.1, n, y, negative, mode, isChecked);
  }

  /** The errors: a zero divisor is always an error, `DivideByZeroException`
      when the scaled dividend fits 64 bits; an unknown rounding mode is an
      error as well, an `ArgumentException` unless a checked overflow or a
      zero divisor is found first. */
  lemma DivideInternalErrors(a: FastDecimal64, b: FastDecimal64, digits: int, mode: int, isChecked: bool)
    requires ValidDigits(digits)
    ensures b.value == 0 ==> DivideInternal(a, b, digits, mode, isChecked).Err?
    ensures b.value == 0 && Abs(a.value) * Pow10(digits) < TWO_64 ==>
      DivideInternal(a, b, digits, mode, isChecked) == Err(DivideByZero)
    ensures !ValidMode(mode) ==> DivideInternal(a, b, digits, mode, isChecked).Err?
    ensures !ValidMode(mode) && b.value != 0 && !isChecked ==>
      DivideInternal(a, b, digits, mode, isChecked) == Err(ArgumentError)
  {
    var (x, y, negative) := ConvertPairToUnsigned(a, b);
    var p := GetDivisor(digits);
    var scaled := BigMul(x, p);
    assert Abs(a.value) * Pow10(digits) == scaled.0 * TWO_64 + scaled.1;
    if scaled.0 != 0 && !(isChecked && scaled.0 >= y) {
      assert UInt128(scaled.0, scaled.1).Val() != 0;
    }
  }

  // ---------------------------------------------------------------------
  // Changing the number of fractional digits

  /** `ChangePrecision`: to at least as many digits the raw value is
      multiplied by the power of ten in between, checked; to fewer digits the
      magnitude is divided by it and rounded, and the sign put back. */
  function ChangePrecision(a: FastDecimal64, src: int, dst: int, mode: int): Result<FastDecimal64>
    requires ValidDigits(src) && ValidDigits(dst)
  {
    if dst >= src then Checked(a.value * GetDivisor(dst - src))
    else
      var (u, negative) := ConvertToUnsigned(a);
      var p := GetDivisor(src - dst);
      var qr := DivRemU64(u, p);
      NarrowFinish(qr.0, qr.1, p, negative, mode, false)
  }

  /** Widening keeps the number exactly and overflows exactly when the
      scaled value leaves the `long` range. */
  lemma ChangePrecisionWidens(a: FastDecimal64, src: int, dst: int, mode: int)
    requires ValidDigits(src) && ValidDigits(dst) && dst >= src
    ensures ChangePrecision(a, src, dst, mode).Ok? <==> -TWO_63 <= a.value * Pow10(dst - src) < TWO_63
    ensures ChangePrecision(a, src, dst, mode).Ok? ==>
      Number(ChangePrecision(a, src, dst, mode).value, dst) == Number(a, src)
    ensures ChangePrecision(a, src, dst, mode).Err? ==> ChangePrecision(a, src, dst, mode).error == Overflow
  {
    var k := dst - src;
    var x: int := a.value * Pow10(k);
    assert ChangePrecision(a, src, dst, mode) == Checked(x);
    if Checked(x).Ok? {
      Pow10Add(k, src);
      assert k + src == dst;
      ScaledNumber(a.value, Pow10(k), Pow10(src));
    }
  }

  /** Narrowing rounds the number correctly, always fits, and fails only on
      an unknown rounding mode. */
  lemma ChangePrecisionNarrows(a: FastDecimal64, src: int, dst: int, mode: int)
    requires ValidDigits(src) && ValidDigits(dst) && dst < src
    ensures !ValidMode(mode) ==> ChangePrecision(a, src, dst, mode) == Err(ArgumentError)
    ensures ValidMode(mode) ==> ChangePrecision(a, src, dst, mode).Ok?
    ensures ValidMode(mode) ==>
      ChangePrecision(a, src, dst, mode).value.value ==
        Signed(RoundedQuotient(Abs(a.value), Pow10(src - dst), a.value < 0, mode), a.value < 0)
  {
    var (u, negative) := ConvertToUnsigned(a);
    var p := GetDivisor(src - dst);
    var qr := DivRemU64(u, p);
    NarrowFinishSpec(u, p, qr.0, qr.1, negative, mode, false);
    if ValidMode(mode) {
      var m := RoundedQuotient(u, p, negative, mode);
      assert m < TWO_63 by {
        Pow10Monotone(1, src - dst);
        DivBelow(u, p, TWO_63 / 4);
      }
      assert RoundedResult(u, p, negative, mode, false).value.value == Signed(m, negative);
    }
  }

  /** Widening and narrowing back gives the value back, in every rounding
      mode: nothing needs rounding. */
  lemma ChangePrecisionRoundTrip(a: FastDecimal64, src: int, dst: int, mode: int)
    requires ValidDigits(src) && ValidDigits(dst) && dst >= src && ValidMode(mode)
    requires ChangePrecision(a, src, dst, mode).Ok?
    ensures ChangePrecision(ChangePrecision(a, src, dst, mode).value, dst, src, mode) == Ok(a)
  {
    var b := ChangePrecision(a, src, dst, mode).value;
    var p := Pow10(dst - src);
    assert b.value == a.value * p;
    if dst == src {
      assert ChangePrecision(b, dst, src, mode) == Checked(b.value * 1);
    } else {
      ChangePrecisionNarrows(b, dst, src, mode);
      ExactQuotient(a.value, b.value, p, mode);
    }
  }

  /** A multiple of p divides back exactly, whatever the rounding mode, and
      keeps its sign. */
  lemma ExactQuotient(v: int, w: int, p: nat, mode: int)
    requires p > 0 && w == v * p && ValidMode(mode)
    ensures Signed(RoundedQuotient(Abs(w), p, w < 0, mode), w < 0) == v
  {
    assert Abs(w) == Abs(v) * p by {
      MulNeg(v, p);
    }
    DivModUnique(Abs(w), p, Abs(v), 0);
    RoundsUpNeedsRemainder(Abs(v), 0, p, w < 0, mode);
    assert (w < 0) == (v < 0) by {
      if v >= 0 {
        MulLe(0, v, p);
      } else {
        MulLe(v, -1, p);
      }
    }
  }

  /** Multiplying by one whole unit and dividing by it give the value back,
      checked or not, in every rounding mode. */
  lemma OneIsIdentity(a: FastDecimal64, digits: int, mode: int, isChecked: bool)
    requires ValidDigits(digits) && ValidMode(mode)
    ensures MultiplyInternal(a, One(digits), digits, mode, isChecked) == Ok(a)
    ensures DivideInternal(a, One(digits), digits, mode, isChecked) == Ok(a)
  {
    var p := Pow10(digits);
    MultiplyInternalSpec(a, One(digits), digits, mode, isChecked);
    DivideInternalSpec(a, One(digits), digits, mode, isChecked);
    ExactResult(a, p, mode, isChecked);
  }

  /** Rounding the magnitude of v times p, divided by p, and putting the sign
      of v back gives v. */
  lemma ExactResult(a: FastDecimal64, p: nat, mode: int, isChecked: bool)
    requires p > 0 && ValidMode(mode)
    ensures RoundedResult(Abs(a.value) * p, p, a.value < 0, mode, isChecked) == Ok(a)
  {
    var w := a.value * p;
    assert Abs(w) == Abs(a.value) * p && ((w < 0) <==> a.value < 0) by {
      MulNeg(a.value, p);
      if a.value < 0 {
        MulLe(a.value, -1, p);
      } else {
        MulLe(0, a.value, p);
      }
    }
    ExactQuotient(a.value, w, p, mode);
  }

  // ---------------------------------------------------------------------
  // Conversions to and from the host decimal

  /** `(decimal) value`: the magnitude split into its low and high 32 bits,
      no high word, the sign, and the digit count as the scale. */
  function ToDecimal(a: FastDecimal64, digits: int): (d: DecimalBytes)
    requires ValidDigits(digits)
    ensures Scale(d) == digits
  {
    var (u, negative) := ConvertToUnsigned(a);
    DivBelow(u, TWO_32, TWO_32);
    MakeDecimalFields(u % TWO_32, u / TWO_32, 0, negative, digits);
    MakeDecimal(u % TWO_32, u / TWO_32, 0, negative, digits)
  }

  /** The decimal has the value's digits as its scale, its sign, and its
      magnitude as coefficient, so it stands for the same number. */
  lemma ToDecimalFields(a: FastDecimal64, digits: int)
    requires ValidDigits(digits)
    ensures Scale(ToDecimal(a, digits)) == digits
    ensures Negative(ToDecimal(a, digits)) <==> a.value < 0
    ensures DecimalStruct.High32(ToDecimal(a, digits)) == 0
    ensures Coefficient(ToDecimal(a, digits)) == Abs(a.value)
    ensures DecimalValue(ToDecimal(a, digits)) == Number(a, digits)
  {
    var (u, negative) := ConvertToUnsigned(a);
    DivBelow(u, TWO_32, TWO_32);
    MakeDecimalFields(u % TWO_32, u / TWO_32, 0, negative, digits);
  }

  /** The coefficient `high * 2^64 + low` divided by 10^k and rounded half
      to even: `DecDivRem128By128`, then the increment `RoundDec` finds. */
  function DivideDown(high: u64, low: u64, k: int, negative: bool): UInt128
    requires 0 <= k <= 32
  {
    var qr := DecDivRem128By128(high, low, k);
    U128.Add(qr.0, UInt128(0, RoundDec(qr.0.lower, qr.1, k, negative, ToEven).value))
  }

  /** Dividing down gives the correctly rounded quotient, which for a
      96-bit coefficient stays below 2^96. */
  lemma DivideDownIsRounded(high: u64, low: u64, k: int, negative: bool, m: nat)
    requires 0 < k <= 32 && m == high * TWO_64 + low && m < TWO_96
    ensures DivideDown(high, low, k, negative).Val() == RoundedQuotient(m, Pow10(k), negative, ToEven)
    ensures DivideDown(high, low, k, negative).Val() < TWO_96
  {
    var qr := DecDivRem128By128(high, low, k);
    assert UInt128(high, low).Val() == m;
    var inc := RoundDec(qr.0.lower, qr.1, k, negative, ToEven).value;
    HalfEvenSum(qr.0, qr.1, m, k, negative);
    assert qr.0.Val() + inc < TWO_96 by {
      Pow10Monotone(1, k);
      RoundedQuotientAtMost(m, Pow10(k), negative, ToEven);
    }
    AddIncrement(qr.0, inc);
  }

  /** Adding a rounding increment that does not carry out of 128 bits. */
  lemma AddIncrement(q: UInt128, inc: u64)
    requires q.Val() + inc < TWO_128
    ensures U128.Add(q, UInt128(0, inc)).Val() == q.Val() + inc
  {
    assert UInt128(0, inc).Val() == inc;
    SmallMod(q.Val() + inc, TWO_128);
  }

  /** A quotient and remainder of `n` by 10^k plus the half-even increment
      `RoundDec` finds for them is the rounded quotient. */
  lemma HalfEvenSum(q: UInt128, rem: UInt128, n: int, k: int, negative: bool)
    requires 0 < k <= 32 && 0 <= n
    requires q.Val() == n / Pow10(k) && rem.Val() == n % Pow10(k)
    ensures q.Val() + RoundDec(q.lower, rem, k, negative, ToEven).value ==
      RoundedQuotient(n, Pow10(k), negative, ToEven)
  {
    LowerParity(q);
    RoundsUpParity(q.lower, q.Val(), rem.Val(), Pow10(k), negative, ToEven);
  }

  /** `(FastDecimal64<T>) decimal`, unchecked, on the decimal's fields: at
      the same scale the low word, at a lower scale the low word times the
      power of ten in between (keeping the low 64 bits of the product), at a
      higher scale the coefficient divided down and rounded half to even;
      the sign is put back by negating the `long` cast. */
  function FromWords(high: u32, low: u64, scale: int, negative: bool, digits: int): FastDecimal64
    requires ValidDigits(digits) && 0 <= scale <= MaxScale
  {
    if scale == digits then FastDecimal64(Reattach(low, negative))
    else if scale < digits then
      var product := BigMul(low, GetDivisor(digits - scale));
      FastDecimal64(Reattach(product.1, negative))
    else
      FastDecimal64(Reattach(DivideDown(high, low, scale - digits, negative).lower, negative))
  }

  function FromDecimal(d: DecimalBytes, digits: int): FastDecimal64
    requires ValidDigits(digits) && Scale(d) <= MaxScale
  {
    FromWords(DecimalStruct.High32(d), Low64(d), Scale(d), Negative(d), digits)
  }

  /** `TryCastDecimal` on the decimal's fields: the same three cases, each
      refusing a result that does not fit; a coefficient with a high word
      cannot be scaled up. */
  function TryCastWords(high: u32, low: u64, scale: int, negative: bool, digits: int): Option<FastDecimal64>
    requires ValidDigits(digits) && 0 <= scale <= MaxScale
  {
    if scale == digits then
      if high == 0 then FromCast(TryCast(low, negative)) else None
    else if scale < digits && high == 0 then
      var product := BigMul(low, GetDivisor(digits - scale));
      if product.0 == 0 then FromCast(TryCast(product.1, negative)) else None
    else if scale > digits then
      var q := DivideDown(high, low, scale - digits, negative);
      if q.upper == 0 then FromCast(TryCast(q.lower, negative)) else None
    else None
  }

  function TryCastDecimal(d: DecimalBytes, digits: int): Option<FastDecimal64>
    requires ValidDigits(digits) && Scale(d) <= MaxScale
  {
    TryCastWords(DecimalStruct.High32(d), Low64(d), Scale(d), Negative(d), digits)
  }

  function FromCast(l: Option<i64>): (r: Option<FastDecimal64>)
    ensures r.Some? <==> l.Some?
    ensures r.Some? ==> r.value.value == l.value
  {
    match l
    case Some(v) => Some(FastDecimal64(v))
    case None => None
  }

  /** The checked `(FastDecimal64<T>) decimal`: `TryCastDecimal` or an
      `OverflowException`. */
  function CheckedFromDecimal(d: DecimalBytes, digits: int): Result<FastDecimal64>
    requires ValidDigits(digits) && Scale(d) <= MaxScale
  {
    match TryCastDecimal(d, digits)
    case Some(v) => Ok(v)
    case None => Err(Overflow)
  }

  /** Scaling up the low word alone agrees with scaling up the whole
      coefficient modulo 2^64, the only bits the cast keeps. */
  lemma ScaledUpLow(high: int, low: int, m: int, p: int, productHigh: int, productLow: int)
    requires m == high * TWO_64 + low && productHigh * TWO_64 + productLow == low * p
    ensures (productLow - m * p) % TWO_64 == 0
  {
    assert productLow - m * p == -(high * p + productHigh) * TWO_64;
    DivModUnique(productLow - m * p, TWO_64, -(high * p + productHigh), 0);
  }

  /** The low half of a 128-bit value agrees with it modulo 2^64. */
  lemma LowerCongruent(q: UInt128)
    ensures (q.lower - q.Val()) % TWO_64 == 0
  {
    DivModUnique(q.lower - q.Val(), TWO_64, -(q.upper as int), 0);
  }

  /** The unchecked cast is the rescaled coefficient `m` with its sign,
      wrapped to 64 bits. */
  lemma FromWordsSpec(high: u32, low: u64, scale: int, negative: bool, digits: int, m: nat)
    requires ValidDigits(digits) && 0 <= scale <= MaxScale
    requires m == high * TWO_64 + low && m < TWO_96
    ensures FromWords(high, low, scale, negative, digits).value ==
      ToInt64(Signed(Rescale(m, scale, digits, negative), negative))
  {
    if scale == digits {
      assert UInt128(high, low).Val() == m;
      LowerCongruent(UInt128(high, low));
      SignedCongruent(low, m, negative);
    } else if scale < digits {
      FromWordsScaledUp(high, low, scale, negative, digits, m);
    } else {
      FromWordsDividedDown(high, low, scale, negative, digits, m);
    }
  }

  lemma FromWordsScaledUp(high: u32, low: u64, scale: int, negative: bool, digits: int, m: nat)
    requires ValidDigits(digits) && 0 <= scale < digits
    requires m == high * TWO_64 + low
    ensures FromWords(high, low, scale, negative, digits).value ==
      ToInt64(Signed(Rescale(m, scale, digits, negative), negative))
  {
    var p := GetDivisor(digits - scale);
    var product := BigMul(low, p);
    assert FromWords(high, low, scale, negative, digits).value == Reattach(product.1, negative);
    assert (product.1 - m * p) % TWO_64 == 0 by {
      ScaledUpLow(high, low, m, p, product.0, product.1);
    }
    SignedCongruent(product.1, m * p, negative);
    assert Rescale(m, scale, digits, negative) == m * p;
  }

  lemma FromWordsDividedDown(high: u32, low: u64, scale: int, negative: bool, digits: int, m: nat)
    requires ValidDigits(digits) && digits < scale <= MaxScale
    requires m == high * TWO_64 + low && m < TWO_96
    ensures FromWords(high, low, scale, negative, digits).value ==
      ToInt64(Signed(Rescale(m, scale, digits, negative), negative))
  {
    var k := scale - digits;
    var q := DivideDown(high, low, k, negative);
    assert FromWords(high, low, scale, negative, digits).value == Reattach(q.lower, negative);
    LowerWraps(q, negative);
    assert q.Val() == Rescale(m, scale, digits, negative) by {
      DivideDownIsRounded(high, low, k, negative, m);
    }
  }

  /** The sign put back on the low half of a 128-bit magnitude is the whole
      magnitude with its sign, wrapped to 64 bits. */
  lemma LowerWraps(q: UInt128, negative: bool)
    ensures Reattach(q.lower, negative) == ToInt64(Signed(q.Val(), negative))
  {
    LowerCongruent(q);
    SignedCongruent(q.lower, q.Val(), negative);
  }

  lemma FromDecimalSpec(d: DecimalBytes, digits: int)
    requires ValidDigits(digits) && Scale(d) <= MaxScale
    ensures FromDecimal(d, digits).value == ToInt64(Signed(Rescaled(d, digits), Negative(d)))
  {
    FromWordsSpec(DecimalStruct.High32(d), Low64(d), Scale(d), Negative(d), digits, Coefficient(d));
  }

  /** `c` is the value `v` when `v` fits a `long`, and nothing otherwise. */
  predicate CastsTo(c: Option<FastDecimal64>, v: int)
  {
    (c.Some? <==> -TWO_63 <= v < TWO_63) && (c.Some? ==> c.value.value == v)
  }

  /** The checked cast succeeds exactly when the rescaled coefficient `m`
      with its sign fits a `long`, and then it is that value. */
  lemma TryCastWordsSpec(high: u32, low: u64, scale: int, negative: bool, digits: int, m: nat)
    requires ValidDigits(digits) && 0 <= scale <= MaxScale
    requires m == high * TWO_64 + low && m < TWO_96
    ensures CastsTo(TryCastWords(high, low, scale, negative, digits),
                    Signed(Rescale(m, scale, digits, negative), negative))
  {
    if scale == digits {
      assert Rescale(m, scale, digits, negative) == m;
    } else if scale < digits {
      TryCastScaledUp(high, low, scale, negative, digits, m);
    } else {
      TryCastDividedDown(high, low, scale, negative, digits, m);
    }
  }

  lemma TryCastScaledUp(high: u32, low: u64, scale: int, negative: bool, digits: int, m: nat)
    requires ValidDigits(digits) && 0 <= scale < digits
    requires m == high * TWO_64 + low
    ensures CastsTo(TryCastWords(high, low, scale, negative, digits),
                    Signed(Rescale(m, scale, digits, negative), negative))
  {
    var p := GetDivisor(digits - scale);
    assert Rescale(m, scale, digits, negative) == m * p;
    ScaledUpFits(high, low, p, m);
  }

  lemma TryCastDividedDown(high: u32, low: u64, scale: int, negative: bool, digits: int, m: nat)
    requires ValidDigits(digits) && digits < scale <= MaxScale
    requires m == high * TWO_64 + low && m < TWO_96
    ensures CastsTo(TryCastWords(high, low, scale, negative, digits),
                    Signed(Rescale(m, scale, digits, negative), negative))
  {
    var k := scale - digits;
    DivideDownIsRounded(high, low, k, negative, m);
    CastWide(DivideDown(high, low, k, negative), Rescale(m, scale, digits, negative), negative);
  }

  /** A 128-bit magnitude of value v casts when its upper half is empty and
      the lower half fits with its sign. */
  lemma CastWide(q: UInt128, v: nat, negative: bool)
    requires q.Val() == v
    ensures CastsTo(if q.upper == 0 then FromCast(TryCast(q.lower, negative)) else None, Signed(v, negative))
  {
  }

  /** Scaling up fits 64 bits exactly when the coefficient has no high word
      and the product of its low word has none either. */
  lemma ScaledUpFits(high: u32, low: u64, p: u64, m: nat)
    requires p >= 1 && m == high * TWO_64 + low
    ensures m * p < TWO_64 <==> high == 0 && BigMul(low, p).0 == 0
    ensures high == 0 ==> m * p == BigMul(low, p).0 * TWO_64 + BigMul(low, p).1
  {
    var product := BigMul(low, p);
    if high != 0 {
      MulLe(TWO_64, m, p);
      MulLe(1, p, TWO_64);
    } else {
      assert m * p == product.0 * TWO_64 + product.1;
    }
  }

  /** The same for the decimal; the checked operator throws an overflow
      exactly where `TryCastDecimal` fails. */
  lemma TryCastDecimalSpec(d: DecimalBytes, digits: int)
    requires ValidDigits(digits) && Scale(d) <= MaxScale
    ensures TryCastDecimal(d, digits).Some? <==> -TWO_63 <= Signed(Rescaled(d, digits), Negative(d)) < TWO_63
    ensures TryCastDecimal(d, digits).Some? ==>
      TryCastDecimal(d, digits).value.value == Signed(Rescaled(d, digits), Negative(d))
    ensures CheckedFromDecimal(d, digits).Err? ==> CheckedFromDecimal(d, digits).error == Overflow
    ensures CheckedFromDecimal(d, digits).Ok? ==> Some(CheckedFromDecimal(d, digits).value) == TryCastDecimal(d, digits)
  {
    TryCastWordsSpec(DecimalStruct.High32(d), Low64(d), Scale(d), Negative(d), digits, Coefficient(d));
  }

  /** A value converted to a decimal and back is unchanged, checked or not. */
  lemma DecimalRoundTrip(a: FastDecimal64, digits: int)
    requires ValidDigits(digits)
    ensures FromDecimal(ToDecimal(a, digits), digits) == a
    ensures TryCastDecimal(ToDecimal(a, digits), digits) == Some(a)
    ensures CheckedFromDecimal(ToDecimal(a, digits), digits) == Ok(a)
  {
    var d := ToDecimal(a, digits);
    ToDecimalFields(a, digits);
    assert Rescaled(d, digits) == Abs(a.value);
    FromDecimalSpec(d, digits);
    TryCastDecimalSpec(d, digits);
  }

  // ---------------------------------------------------------------------
  // Classification

  /** `IsInteger`: the raw value's truncating remainder by 10^digits is zero. */
  predicate IsInteger(a: FastDecimal64, digits: int)
    requires ValidDigits(digits)
  {
    TruncRem(a.value, GetDivisor(digits)) == 0
  }

  /** `IsEvenInteger`: the remainder by 2 * 10^digits is zero. */
  predicate IsEvenInteger(a: FastDecimal64, digits: int)
    requires ValidDigits(digits)
  {
    TruncRem(a.value, 2 * GetDivisor(digits)) == 0
  }

  /** `IsOddInteger`: `Math.DivRem` by 10^digits leaves no remainder and a
      quotient whose lowest bit is set. */
  predicate IsOddInteger(a: FastDecimal64, digits: int)
    requires ValidDigits(digits)
  {
    var p := GetDivisor(digits);
    TruncRem(a.value, p) == 0 && TruncDiv(a.value, p) % 2 != 0
  }

  predicate IsNegative(a: FastDecimal64) { a.value < 0 }
  /** `long.IsPositive` holds for zero too. */
  predicate IsPositive(a: FastDecimal64) { a.value >= 0 }
  predicate IsZero(a: FastDecimal64) { a.value == 0 }
  predicate IsNormal(a: FastDecimal64) { a.value != 0 }

  /** A value is an integer exactly when its number is the whole quotient
      of the raw value by 10^digits; it is then even or odd as that
      quotient is, and never both. */
  lemma IntegerPredicates(a: FastDecimal64, digits: int)
    requires ValidDigits(digits)
    ensures IsInteger(a, digits) <==> a.value % Pow10(digits) == 0
    ensures IsInteger(a, digits) ==> Number(a, digits) == (a.value / Pow10(digits)) as real
    ensures IsEvenInteger(a, digits) <==> IsInteger(a, digits) && (a.value / Pow10(digits)) % 2 == 0
    ensures IsOddInteger(a, digits) <==> IsInteger(a, digits) && (a.value / Pow10(digits)) % 2 == 1
  {
    var v: int, p := a.value, Pow10(digits);
    assert IsInteger(a, digits) <==> v % p == 0 by {
      TruncRemZero(v, p);
    }
    assert IsEvenInteger(a, digits) <==> v % (2 * p) == 0 by {
      TruncRemZero(v, 2 * p);
    }
    if v % p == 0 {
      assert TruncDiv(v, p) == v / p by {
        TruncRemZero(v, p);
        DivModUnique(v, p, TruncDiv(v, p), 0);
      }
      WholeQuotient(v, p);
    }
    EvenMultiple(v, p);
  }

  /** A multiple of p over p is its whole quotient. */
  lemma WholeQuotient(v: int, p: int)
    requires p > 0 && v % p == 0
    ensures v as real / p as real == (v / p) as real
  {
    assert v == (v / p) * p;
    assert v as real == (v / p) as real * p as real;
  }

  /** Being a multiple of 2p is being a multiple of p with an even quotient. */
  lemma EvenMultiple(v: int, p: int)
    requires p > 0
    ensures v % (2 * p) == 0 <==> v % p == 0 && (v / p) % 2 == 0
  {
    if v % (2 * p) == 0 {
      var k := v / (2 * p);
      assert v == (2 * k) * p;
      DivModUnique(v, p, 2 * k, 0);
    }
    if v % p == 0 && (v / p) % 2 == 0 {
      var j := (v / p) / 2;
      assert v == j * (2 * p);
      DivModUnique(v, 2 * p, j, 0);
    }
  }

  /** The sign predicates read the sign of the number. */
  lemma SignPredicates(a: FastDecimal64, digits: int)
    requires ValidDigits(digits)
    ensures IsNegative(a) <==> Number(a, digits) < 0.0
    ensures IsPositive(a) <==> Number(a, digits) >= 0.0
    ensures IsZero(a) <==> Number(a, digits) == 0.0
    ensures IsNormal(a) <==> !IsZero(a)
  {
    ScaledOrder(a.value, 0, Pow10(digits) as real);
  }
}
