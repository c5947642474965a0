/** The rounding step every division and multiplication ends with: given the
    truncated quotient q of a magnitude n by a divisor d and the remainder r,
    decide whether q must grow by one under a `MidpointRounding` mode. The
    sign of the final result matters only for the two directed modes. */
module Rounding {
  import opened Machine
  import opened Outcome
  import opened U128
  import opened Fast128BitDiv

  // The values of the host's `MidpointRounding` enumeration.
  const ToEven: int := 0
  const AwayFromZero: int := 1
  const ToZero: int := 2
  const ToNegativeInfinity: int := 3
  const ToPositiveInfinity: int := 4

  /** The five modes the enumeration defines; any other value is rejected. */
  predicate ValidMode(mode: int)
  {
    ToEven <= mode <= ToPositiveInfinity
  }

  /** The rounding decision, stated on exact integers: round half to even
      rounds up above the midpoint and at the midpoint when q is odd; round
      half away from zero at or above the midpoint; the directed modes round
      the magnitude up when there is a remainder and the result lies on the
      side they round towards. */
  predicate RoundsUp(q: int, r: int, d: int, negative: bool, mode: int)
  {
    if mode == ToEven then 2 * r > d || (2 * r == d && q % 2 == 1)
    else if mode == AwayFromZero then 2 * r >= d
    else if mode == ToNegativeInfinity then negative && r > 0
    else if mode == ToPositiveInfinity then !negative && r > 0
    else false
  }

  /** `Round64`: the decision in 64-bit arithmetic. The doubled remainder is
      `remainder << 1`, which drops the top bit, and adding q's parity wraps
      as well, so the decision is exact while the remainder is below 2^63. */
  function Round64(q: u64, remainder: u64, divisor: u64, negative: bool, mode: int): (r: Result<u32>)
    ensures r.Ok? <==> ValidMode(mode)
    ensures r.Err? ==> r.error == ArgumentError
    ensures r.Ok? ==> r.value <= 1
    ensures r.Ok? && remainder < TWO_63 ==> (r.value == 1 <==> RoundsUp(q, remainder, divisor, negative, mode))
  {
    var doubled := Shl64(remainder, 1);
    var roundUp :=
      if mode == ToEven then (doubled + q % 2) % TWO_64 > divisor
      else if mode == AwayFromZero then doubled >= divisor
      else if mode == ToNegativeInfinity then negative && remainder > 0
      else if mode == ToPositiveInfinity then !negative && remainder > 0
      else false;
    if !ValidMode(mode) then Err(ArgumentError)
    else
      Shl64ByOne(remainder);
      DoubledExact(remainder, doubled, q % 2);
      Ok(if roundUp then 1 else 0)
  }

  /** Below 2^63 the shifted remainder is exactly twice the remainder, and
      adding the parity bit does not wrap. */
  lemma DoubledExact(remainder: u64, doubled: u64, parity: nat)
    requires doubled == (2 * remainder) % TWO_64 && parity <= 1
    ensures remainder < TWO_63 ==> doubled == 2 * remainder && (doubled + parity) % TWO_64 == doubled + parity
  {
    if remainder < TWO_63 {
      SmallMod(2 * remainder, TWO_64);
      SmallMod(2 * remainder + parity, TWO_64);
    }
  }

  /** `Round128`: the same decision on 128-bit operands. */
  function Round128(q: u64, remainder: UInt128, divisor: UInt128, negative: bool, mode: int): (r: Result<u32>)
    ensures r.Ok? <==> ValidMode(mode)
    ensures r.Err? ==> r.error == ArgumentError
    ensures r.Ok? ==> r.value <= 1
    ensures r.Ok? && remainder.Val() < TWO_127 ==>
      (r.value == 1 <==> RoundsUp(q, remainder.Val(), divisor.Val(), negative, mode))
  {
    var doubled := ShiftLeft(remainder, 1);
    var zero := UInt128(0, 0);
    var roundUp :=
      if mode == ToEven then Greater(Add(doubled, UInt128(0, q % 2)), divisor)
      else if mode == AwayFromZero then GreaterOrEqual(doubled, divisor)
      else if mode == ToNegativeInfinity then negative && Greater(remainder, zero)
      else if mode == ToPositiveInfinity then !negative && Greater(remainder, zero)
      else false;
    if !ValidMode(mode) then Err(ArgumentError)
    else
      DoubledCompare(q, remainder, divisor, doubled, Add(doubled, UInt128(0, q % 2)));
      Ok(if roundUp then 1 else 0)
  }

  /** What the 128-bit comparisons decide, below 2^127. */
  lemma DoubledCompare(q: u64, remainder: UInt128, divisor: UInt128, doubled: UInt128, sum: UInt128)
    requires doubled == ShiftLeft(remainder, 1) && sum == Add(doubled, UInt128(0, q % 2))
    ensures remainder.Val() < TWO_127 ==>
      (Greater(sum, divisor) <==> 2 * remainder.Val() + q % 2 > divisor.Val()) &&
      (GreaterOrEqual(doubled, divisor) <==> 2 * remainder.Val() >= divisor.Val())
  {
    ShiftLeftByOne(remainder);
    DoubledExact128(remainder.Val(), doubled.Val(), q % 2);
  }

  lemma DoubledExact128(remainder: nat, doubled: nat, parity: nat)
    requires doubled == (2 * remainder) % TWO_128 && parity <= 1
    ensures remainder < TWO_127 ==> doubled == 2 * remainder && (doubled + parity) % TWO_128 == doubled + parity
  {
    if remainder < TWO_127 {
      SmallMod(2 * remainder, TWO_128);
      SmallMod(2 * remainder + parity, TWO_128);
    }
  }

  /** `RoundDec`: the decision after a division by 10^digits, on 64-bit
      operands while 10^digits fits in a word and on 128-bit ones above. */
  function RoundDec(q: u64, rem: UInt128, digits: int, negative: bool, mode: int): (r: Result<u32>)
    requires 0 <= digits <= 38
    ensures r.Ok? <==> ValidMode(mode)
    ensures r.Err? ==> r.error == ArgumentError
    ensures r.Ok? ==> r.value <= 1
    ensures r.Ok? && rem.Val() < Pow10(digits) ==>
      (r.value == 1 <==> RoundsUp(q, rem.Val(), Pow10(digits), negative, mode))
  {
    if digits < 19 then
      RemainderFitsWord(rem, digits);
      Round64(q, rem.lower, GetDivisorLow(digits), negative, mode)
    else
      DivisorIsPow10(digits);
      Pow10Below2To127(digits);
      Round128(q, rem, UInt128(GetDivisorHigh(digits), GetDivisorLow(digits)), negative, mode)
  }

  /** Below 19 digits 10^digits is the low divisor word, under 2^63, and a
      remainder under it is its own low half. */
  lemma RemainderFitsWord(rem: UInt128, digits: int)
    requires 0 <= digits < 19
    ensures GetDivisorLow(digits) == Pow10(digits) < TWO_63
    ensures rem.Val() < Pow10(digits) ==> rem.lower == rem.Val()
  {
    DivisorFitsLow(digits);
    Pow10Monotone(digits, 18);
    DivisorFitsLow(18);
    assert GetDivisorLow(18) == 1000000000000000000;
    if rem.Val() < Pow10(digits) && rem.upper > 0 {
      MulLe(1, rem.upper, TWO_64);
    }
  }

  lemma Pow10Below2To127(digits: int)
    requires 0 <= digits <= 38
    ensures Pow10(digits) < TWO_127
  {
    Pow10Monotone(digits, 38);
    DivisorIsPow10(38);
    var top := Divisor(38);
    assert top.upper < TWO_63;
    MulLe(top.upper + 1, TWO_63, TWO_64);
  }

  // ---------------------------------------------------------------------
  // The reference: what a correctly rounded quotient is

  /** `res` is n / d rounded under `mode`, for a result of the given sign
      (n is the magnitude): ToZero truncates; the directed modes take the
      ceiling of the magnitude when the signed result moves away from zero
      that way, the floor otherwise; the two midpoint modes take a nearest
      integer and break ties away from zero or towards the even one. */
  predicate CorrectlyRounded(n: int, d: int, negative: bool, mode: int, res: int)
    requires d > 0
  {
    var floor := res * d <= n < res * d + d;
    var ceiling := res * d - d < n <= res * d;
    var nearest := -d <= 2 * (res * d - n) <= d;
    var tie := 2 * (res * d - n) == d || 2 * (n - res * d) == d;
    if mode == ToZero then floor
    else if mode == ToNegativeInfinity then (if negative then ceiling else floor)
    else if mode == ToPositiveInfinity then (if negative then floor else ceiling)
    else if mode == AwayFromZero then nearest && (tie ==> res * d > n)
    else nearest && (tie ==> res % 2 == 0)
  }

  /** Adding the rounding decision to the truncated quotient gives the
      correctly rounded quotient, in every mode. */
  lemma RoundsUpIsCorrect(q: nat, r: nat, d: nat, negative: bool, mode: int)
    requires 0 <= r < d && ValidMode(mode)
    ensures CorrectlyRounded(q * d + r, d, negative, mode, q + (if RoundsUp(q, r, d, negative, mode) then 1 else 0))
  {
    var n := q * d + r;
    assert (q + 1) * d == q * d + d;
    if mode == ToEven && 2 * r == d {
      assert (q + 1) % 2 == 0 <==> q % 2 == 1;
    }
  }

  /** The 64-bit decision on a remainder below a divisor of at most 2^63
      yields the correctly rounded quotient. */
  lemma Round64IsCorrect(q: u64, r: u64, d: u64, negative: bool, mode: int)
    requires 0 <= r < d <= TWO_63 && ValidMode(mode)
    ensures CorrectlyRounded(q * d + r, d, negative, mode, q + Round64(q, r, d, negative, mode).value)
  {
    RoundsUpIsCorrect(q, r, d, negative, mode);
  }

  /** The decimal decision on a remainder below 10^digits yields the
      correctly rounded quotient. */
  lemma RoundDecIsCorrect(q: u64, rem: UInt128, digits: int, negative: bool, mode: int)
    requires 0 <= digits <= 38 && rem.Val() < Pow10(digits) && ValidMode(mode)
    ensures CorrectlyRounded(q * Pow10(digits) + rem.Val(), Pow10(digits), negative, mode,
                             q + RoundDec(q, rem, digits, negative, mode).value)
  {
    RoundsUpIsCorrect(q, rem.Val(), Pow10(digits), negative, mode);
  }

  // ---------------------------------------------------------------------
  // The rounded quotient every caller computes

  /** The quotient of n by d, truncated and then raised by the rounding
      decision: the magnitude the multiplications, divisions and precision
      changes of both fixed-point types produce. */
  function RoundedQuotient(n: nat, d: nat, negative: bool, mode: int): nat
    requires d > 0
  {
    n / d + (if RoundsUp(n / d, n % d, d, negative, mode) then 1 else 0)
  }

  /** The rounded quotient is correctly rounded. */
  lemma RoundedQuotientIsCorrect(n: nat, d: nat, negative: bool, mode: int)
    requires d > 0 && ValidMode(mode)
    ensures CorrectlyRounded(n, d, negative, mode, RoundedQuotient(n, d, negative, mode))
  {
    assert n == (n / d) * d + n % d;
    RoundsUpIsCorrect(n / d, n % d, d, negative, mode);
  }

  /** At most one integer is correctly rounded, so `RoundedQuotient` is the
      only answer a mode allows. */
  lemma CorrectlyRoundedUnique(n: int, d: int, negative: bool, mode: int, x: int, y: int)
    requires d > 0 && ValidMode(mode)
    requires CorrectlyRounded(n, d, negative, mode, x) && CorrectlyRounded(n, d, negative, mode, y)
    ensures x == y
  {
    if x < y {
      BelowIsNotRounded(n, d, negative, mode, x, y);
    } else if y < x {
      BelowIsNotRounded(n, d, negative, mode, y, x);
    }
  }

  /** Of two integers x < y, not both are correctly rounded. */
  lemma BelowIsNotRounded(n: int, d: int, negative: bool, mode: int, x: int, y: int)
    requires d > 0 && ValidMode(mode) && x < y
    requires CorrectlyRounded(n, d, negative, mode, x)
    ensures !CorrectlyRounded(n, d, negative, mode, y)
  {
    MulLe(x + 1, y, d);
    assert y * d >= x * d + d;
    if y >= x + 2 {
      MulLe(x + 2, y, d);
      assert y * d >= x * d + 2 * d;
    } else {
      assert y == x + 1;
    }
  }

  /** The decision reads the truncated quotient only through its parity. */
  lemma RoundsUpParity(q1: int, q2: int, r: int, d: int, negative: bool, mode: int)
    requires q1 % 2 == q2 % 2
    ensures RoundsUp(q1, r, d, negative, mode) == RoundsUp(q2, r, d, negative, mode)
  {
  }

  /** Without a remainder nothing is rounded up. */
  lemma RoundsUpNeedsRemainder(q: int, r: int, d: int, negative: bool, mode: int)
    requires 0 <= r < d
    ensures RoundsUp(q, r, d, negative, mode) ==> r > 0
  {
  }

  /** Dividing by at least two and rounding never gives more than the
      dividend. */
  lemma RoundedQuotientAtMost(n: nat, d: nat, negative: bool, mode: int)
    requires d >= 2
    ensures RoundedQuotient(n, d, negative, mode) <= n
  {
    var q, r := n / d, n % d;
    RoundsUpNeedsRemainder(q, r, d, negative, mode);
    MulLe(1, d, q);
    assert n == q * d + r;
  }
}
