/** The library's own 128-bit unsigned integer: two 64-bit halves with
    wrapping addition, subtraction and multiplication, comparisons, masked
    shifts and a leading-zero count. Every operation is specified by what it
    does to the number the halves stand for. Division lives in LongDivision. */
module U128 {
  import opened Machine

  /** A 128-bit unsigned integer as its upper and lower 64-bit halves. */
  datatype UInt128 = UInt128(upper: u64, lower: u64)
  {
    /** The number the two halves stand for. */
    function Val(): (v: nat)
      ensures v < TWO_128
    {
      upper * TWO_64 + lower
    }
  }

  /** Splits a number below 2^128 into its halves. */
  function FromNat(v: nat): (r: UInt128)
    requires v < TWO_128
    ensures r.Val() == v
  {
    DivBelow(v, TWO_64, TWO_64);
    UInt128(v / TWO_64, v % TWO_64)
  }

  /** Two values are equal exactly when the numbers they stand for are. */
  lemma ValInjective(a: UInt128, b: UInt128)
    ensures a == b <==> a.Val() == b.Val()
  {
    if a.Val() == b.Val() {
      DivModUnique(a.Val(), TWO_64, a.upper, a.lower);
      DivModUnique(b.Val(), TWO_64, b.upper, b.lower);
    }
  }

  /** (x * 2^64 + lo) modulo 2^128 keeps only the low half of x. */
  lemma Mod128(x: int, lo: int)
    requires 0 <= lo < TWO_64
    ensures (x * TWO_64 + lo) % TWO_128 == (x % TWO_64) * TWO_64 + lo
  {
    var k := x / TWO_64;
    assert x == k * TWO_64 + x % TWO_64;
    assert x * TWO_64 + lo == k * TWO_128 + ((x % TWO_64) * TWO_64 + lo);
    DivModUnique(x * TWO_64 + lo, TWO_128, k, (x % TWO_64) * TWO_64 + lo);
  }

  // ---------------------------------------------------------------------
  // Addition and subtraction

  /** `+`: the carry out of the lower half is detected by the sum wrapping below an operand. */
  function Add(a: UInt128, b: UInt128): (r: UInt128)
    ensures r.Val() == (a.Val() + b.Val()) % TWO_128
  {
    var lower := (a.lower + b.lower) % TWO_64;
    var carry := if lower < a.lower then 1 else 0;
    var upper := (a.upper + b.upper + carry) % TWO_64;
    assert carry == (a.lower + b.lower) / TWO_64;
    assert a.Val() + b.Val() == (a.upper + b.upper + carry) * TWO_64 + lower;
    Mod128(a.upper + b.upper + carry, lower);
    UInt128(upper, lower)
  }

  /** `-`: the borrow out of the lower half is detected by the difference wrapping above the minuend. */
  function Sub(a: UInt128, b: UInt128): (r: UInt128)
    ensures r.Val() == (a.Val() - b.Val()) % TWO_128
  {
    var lower := (a.lower - b.lower) % TWO_64;
    var borrow := if lower > a.lower then 1 else 0;
    var upper := (a.upper - b.upper - borrow) % TWO_64;
    assert a.Val() - b.Val() == (a.upper - b.upper - borrow) * TWO_64 + lower;
    Mod128(a.upper - b.upper - borrow, lower);
    UInt128(upper, lower)
  }

  /** Subtraction undoes addition. */
  lemma AddSubInverse(a: UInt128, b: UInt128)
    ensures Sub(Add(a, b), b) == a
  {
    var s := a.Val() + b.Val();
    var k := s / TWO_128;
    assert s == k * TWO_128 + s % TWO_128;
    assert Add(a, b).Val() - b.Val() == a.Val() - k * TWO_128;
    DivModUnique(a.Val() - k * TWO_128, TWO_128, -k, a.Val());
    ValInjective(Sub(Add(a, b), b), a);
  }

  // ---------------------------------------------------------------------
  // Comparisons: each decides the order of the numbers the halves stand for.

  function Less(a: UInt128, b: UInt128): (r: bool)
    ensures r <==> a.Val() < b.Val()
  {
    a.upper < b.upper || (a.upper == b.upper && a.lower < b.lower)
  }

  function LessOrEqual(a: UInt128, b: UInt128): (r: bool)
    ensures r <==> a.Val() <= b.Val()
  {
    a.upper < b.upper || (a.upper == b.upper && a.lower <= b.lower)
  }

  function Greater(a: UInt128, b: UInt128): (r: bool)
    ensures r <==> a.Val() > b.Val()
  {
    a.upper > b.upper || (a.upper == b.upper && a.lower > b.lower)
  }

  function GreaterOrEqual(a: UInt128, b: UInt128): (r: bool)
    ensures r <==> a.Val() >= b.Val()
  {
    a.upper > b.upper || (a.upper == b.upper && a.lower >= b.lower)
  }

  function Equal(a: UInt128, b: UInt128): (r: bool)
    ensures r <==> a.Val() == b.Val()
  {
    ValInjective(a, b);
    a.lower == b.lower && a.upper == b.upper
  }

  function NotEqual(a: UInt128, b: UInt128): (r: bool)
    ensures r <==> a.Val() != b.Val()
  {
    ValInjective(a, b);
    a.lower != b.lower || a.upper != b.upper
  }

  // ---------------------------------------------------------------------
  // Multiplication

  /** `*` on two 128-bit values: the upper half collects the high part of the
      low product and the wrapped cross products. */
  function Mul(a: UInt128, b: UInt128): (r: UInt128)
    ensures r.Val() == (a.Val() * b.Val()) % TWO_128
  {
    var (hi, lower) := BigMul(a.lower, b.lower);
    var cross := ((a.upper * b.lower) % TWO_64 + (a.lower * b.upper) % TWO_64) % TWO_64;
    var upper := (hi + cross) % TWO_64;
    MulHalves(a, b, hi, lower, cross);
    UInt128(upper, lower)
  }

  lemma MulHalves(a: UInt128, b: UInt128, hi: int, lower: int, cross: int)
    requires hi * TWO_64 + lower == a.lower * b.lower && 0 <= lower < TWO_64
    requires cross == ((a.upper * b.lower) % TWO_64 + (a.lower * b.upper) % TWO_64) % TWO_64
    ensures (a.Val() * b.Val()) % TWO_128 == ((hi + cross) % TWO_64) * TWO_64 + lower
  {
    var x := a.upper * b.upper * TWO_64 + a.upper * b.lower + a.lower * b.upper + hi;
    assert a.Val() * b.Val() == x * TWO_64 + lower;
    Mod128(x, lower);
    CongruentMod64(x, hi + cross, a.upper * b.upper, a.upper * b.lower, a.lower * b.upper);
  }

  lemma CongruentMod64(x: int, y: int, p: int, c1: int, c2: int)
    requires x == p * TWO_64 + c1 + c2 + (y - (c1 % TWO_64 + c2 % TWO_64) % TWO_64)
    ensures x % TWO_64 == y % TWO_64
  {
    var s := c1 % TWO_64 + c2 % TWO_64;
    assert c1 == (c1 / TWO_64) * TWO_64 + c1 % TWO_64;
    assert c2 == (c2 / TWO_64) * TWO_64 + c2 % TWO_64;
    assert s == (s / TWO_64) * TWO_64 + s % TWO_64;
    assert x == (p + c1 / TWO_64 + c2 / TWO_64 + s / TWO_64) * TWO_64 + y;
    DivMulAdd(p + c1 / TWO_64 + c2 / TWO_64 + s / TWO_64, y, TWO_64);
  }

  /** `*` by a 64-bit value. */
  function MulU64(a: UInt128, b: u64): (r: UInt128)
    ensures r.Val() == (a.Val() * b) % TWO_128
  {
    var (hi, lower) := BigMul(a.lower, b);
    var upper := (hi + (a.upper * b) % TWO_64) % TWO_64;
    MulWord(a, b, hi, lower);
    UInt128(upper, lower)
  }

  lemma MulWord(a: UInt128, b: u64, hi: int, lower: int)
    requires hi * TWO_64 + lower == a.lower * b && 0 <= lower < TWO_64
    ensures (a.Val() * b) % TWO_128 == ((hi + (a.upper * b) % TWO_64) % TWO_64) * TWO_64 + lower
  {
    var w := UInt128(0, b);
    assert w.Val() == b && w.lower == b && w.upper == 0;
    MulHalves(a, w, hi, lower, (a.upper * b) % TWO_64);
  }

  // ---------------------------------------------------------------------
  // Shifts. The amount is masked with `& 0x7F`; Dafny's Euclidean `% 128`
  // agrees with that mask for every int, negative ones included.

  /** `<<`. */
  function ShiftLeft(v: UInt128, amount: int): (r: UInt128)
    ensures r.Val() == (v.Val() * Pow2(amount % 128)) % TWO_128
  {
    var s := amount % 128;
    if s >= 64 then
      ShiftLeftHigh(v, s);
      UInt128(Shl64(v.lower, s), 0)
    else if s != 0 then
      var hi, lo, lower := Shl64(v.upper, s), Shr64(v.lower, 64 - s), Shl64(v.lower, s);
      ShiftByWordAmount(v.upper, s);
      ShiftByWordAmount(v.lower, s);
      ShiftByWordAmount(v.lower, 64 - s);
      ShiftLeftLow(v, s, hi, lo, lower);
      UInt128(Or(hi, lo), lower)
    else
      v
  }

  lemma ShiftLeftHigh(v: UInt128, s: int)
    requires 64 <= s < 128
    ensures (v.Val() * Pow2(s)) % TWO_128 == Shl64(v.lower, s) * TWO_64
  {
    assert s % 64 == s - 64;
    var p := Pow2(s - 64);
    Pow2Add(s - 64, 64);
    Pow2Is64();
    var x := v.upper * p * TWO_64 + v.lower * p;
    RingHigh(v.upper, v.lower, p);
    Mod128(x, 0);
    DivMulAdd(v.upper * p, v.lower * p, TWO_64);
  }

  lemma RingHigh(u: int, l: int, p: int)
    ensures (u * TWO_64 + l) * (p * TWO_64) == (u * p * TWO_64 + l * p) * TWO_64 + 0
  {
  }

  lemma ShiftLeftLow(v: UInt128, s: int, hi: nat, lo: nat, lower: int)
    requires 0 < s < 64
    requires hi == (v.upper * Pow2(s)) % TWO_64 && lo == v.lower / Pow2(64 - s)
    requires lower == (v.lower * Pow2(s)) % TWO_64
    ensures hi + lo < TWO_64 && Or(hi, lo) == hi + lo
    ensures (v.Val() * Pow2(s)) % TWO_128 == (hi + lo) * TWO_64 + lower
  {
    var u, l := v.upper, v.lower;
    var p, q := Pow2(s), Pow2(64 - s);
    SplitWord(s, p, q);
    MultipleOfPow2Mod(u, p, q);
    DivBelow(l, q, p);
    OrDisjoint(hi, lo, s);
    ShlLowArith(u, l, p, q);
    UpPlusBelow(hi, lo, p, q);
  }

  lemma ShlLowArith(u: u64, l: u64, p: int, q: int)
    requires p > 0 && q > 0 && p * q == TWO_64
    ensures ((u * TWO_64 + l) * p) % TWO_128 == ((u * p) % TWO_64 + l / q) * TWO_64 + (l * p) % TWO_64
  {
    var lh, ll := l / q, l % q;
    DivBelow(l, q, p);
    LowerTimesPow2(l, p, q);
    RingLow(u, l, p, q, lh, ll);
    MulLe(ll + 1, q, p);
    Mod128(u * p + lh, ll * p);
    UpperTimesPow2(u, lh, p, q);
  }

  lemma RingLow(u: int, l: int, p: int, q: int, lh: int, ll: int)
    requires l == lh * q + ll && p * q == TWO_64
    ensures (u * TWO_64 + l) * p == (u * p + lh) * TWO_64 + ll * p
  {
    assert lh * q * p == lh * TWO_64;
  }

  /** 2^s * 2^(64 - s) == 2^64. */
  lemma SplitWord(s: int, p: int, q: int)
    requires 0 <= s <= 64 && p == Pow2(s) && q == Pow2(64 - s)
    ensures p * q == TWO_64
  {
    Pow2Add(s, 64 - s);
    Pow2Is64();
  }

  /** Shifting a word left by s: the bits above 64 - s leave the word. */
  lemma LowerTimesPow2(lower: u64, p: int, q: int)
    requires p > 0 && q > 0 && p * q == TWO_64
    ensures (lower * p) % TWO_64 == (lower % q) * p
  {
    var lh, ll := lower / q, lower % q;
    RingLow(0, lower, p, q, lh, ll);
    MulLe(ll + 1, q, p);
    DivMulAdd(lh, ll * p, TWO_64);
    SmallMod(ll * p, TWO_64);
  }

  /** The wrapped upper half plus the bits carried in from the lower half. */
  lemma UpperTimesPow2(upper: u64, lh: int, p: int, q: int)
    requires p > 0 && q > 0 && p * q == TWO_64 && 0 <= lh < p
    ensures (upper * p + lh) % TWO_64 == (upper * p) % TWO_64 + lh
  {
    var up := (upper * p) % TWO_64;
    MultipleOfPow2Mod(upper, p, q);
    var k := (upper * p) / TWO_64;
    assert upper * p + lh == k * TWO_64 + (up + lh);
    UpPlusBelow(up, lh, p, q);
    DivModUnique(upper * p + lh, TWO_64, k, up + lh);
  }

  lemma MultipleOfPow2Mod(x: int, p: int, q: int)
    requires p > 0 && q > 0 && p * q == TWO_64
    ensures ((x * p) % TWO_64) % p == 0
  {
    var k := (x * p) / TWO_64;
    assert x * p == k * TWO_64 + (x * p) % TWO_64;
    assert (x * p) % TWO_64 == (x - k * q) * p;
    DivMulAdd(x - k * q, 0, p);
  }

  lemma UpPlusBelow(up: int, lh: int, p: int, q: int)
    requires p > 0 && q > 0 && p * q == TWO_64
    requires 0 <= up < TWO_64 && up % p == 0 && 0 <= lh < p
    ensures up + lh < TWO_64
  {
    var j := up / p;
    assert up == j * p;
    DivBelow(up, p, q);
    MulLe(j + 1, q, p);
  }

  /** `>>` and `>>>`: both shift in zeros, as the value is unsigned. */
  function ShiftRight(v: UInt128, amount: int): (r: UInt128)
    ensures r.Val() == v.Val() / Pow2(amount % 128)
  {
    var s := amount % 128;
    if s >= 64 then
      ShiftRightHigh(v, s);
      UInt128(0, Shr64(v.upper, s))
    else if s != 0 then
      var upper, lo, hi := Shr64(v.upper, s), Shr64(v.lower, s), Shl64(v.upper, 64 - s);
      ShiftByWordAmount(v.upper, s);
      ShiftByWordAmount(v.lower, s);
      ShiftByWordAmount(v.upper, 64 - s);
      ShiftRightLow(v.upper, v.lower, s, upper, lo, hi);
      UInt128(upper, Or(lo, hi))
    else
      v
  }

  /** A shift left by one doubles the value, dropping the top bit. */
  lemma ShiftLeftByOne(v: UInt128)
    ensures ShiftLeft(v, 1).Val() == (2 * v.Val()) % TWO_128
  {
    assert 1 % 128 == 1 && Pow2(1) == 2;
  }

  /** Shifting right by one whole word leaves the upper half. */
  lemma ShiftRightWord(v: UInt128)
    ensures ShiftRight(v, 64) == UInt128(0, v.upper)
  {
    assert 64 % 128 == 64 && 64 % 64 == 0;
    assert Shr64(v.upper, 64) == v.upper;
  }

  lemma ShiftRightHigh(v: UInt128, s: int)
    requires 64 <= s < 128
    ensures v.Val() / Pow2(s) == Shr64(v.upper, s)
  {
    assert s % 64 == s - 64;
    Pow2Add(64, s - 64);
    Pow2Is64();
    DivDiv(v.Val(), TWO_64, Pow2(s - 64));
    DivMulAdd(v.upper, v.lower, TWO_64);
    SmallMod(v.lower, TWO_64);
  }

  lemma ShiftRightLow(u: u64, l: u64, s: int, upper: int, lo: nat, hi: nat)
    requires 0 < s < 64
    requires upper == u / Pow2(s) && lo == l / Pow2(s) && hi == (u * Pow2(64 - s)) % TWO_64
    ensures lo + hi < TWO_64 && Or(lo, hi) == lo + hi
    ensures (u * TWO_64 + l) / Pow2(s) == upper * TWO_64 + lo + hi
  {
    var p, q := Pow2(s), Pow2(64 - s);
    SplitWord(s, p, q);
    ShrParts(u, l, p, q, hi, lo);
    OrLowHigh(lo, hi, 64 - s);
  }

  lemma ShrParts(u: u64, l: u64, p: int, q: int, hi: int, lo: int)
    requires p > 0 && q > 0 && p * q == TWO_64
    requires hi == (u * q) % TWO_64 && lo == l / p
    ensures hi % q == 0 && lo < q && lo + hi < TWO_64
    ensures (u * TWO_64 + l) / p == (u / p) * TWO_64 + lo + hi
  {
    ShrLowArith(u, l, p, q);
  }

  lemma OrLowHigh(lo: nat, hi: nat, k: nat)
    requires hi % Pow2(k) == 0 && lo < Pow2(k)
    ensures Or(lo, hi) == lo + hi
  {
    OrDisjoint(hi, lo, k);
    OrCommutative(lo, hi);
  }

  /** A shift amount below 64 passes the mask unchanged. */
  lemma ShiftByWordAmount(x: u64, k: int)
    requires 0 <= k < 64
    ensures Shl64(x, k) == (x * Pow2(k)) % TWO_64
    ensures Shr64(x, k) == x / Pow2(k)
  {
    assert k % 64 == k;
  }

  lemma ShrLowArith(u: u64, l: u64, p: int, q: int)
    requires p > 0 && q > 0 && p * q == TWO_64
    ensures (u * q) % TWO_64 == (u % p) * q
    ensures ((u % p) * q) % q == 0
    ensures l / p < q
    ensures l / p + (u % p) * q < TWO_64
    ensures (u * TWO_64 + l) / p == (u / p) * TWO_64 + l / p + (u % p) * q
  {
    assert q * p == TWO_64;
    LowerTimesPow2(u, q, p);
    DivMulAdd(u % p, 0, q);
    ShrBound(u, l, p, q);
    RingRight(u, l, p, q, u / p, u % p);
    DivMulAdd((u / p) * TWO_64 + (u % p) * q, l, p);
  }

  lemma ShrBound(u: u64, l: u64, p: int, q: int)
    requires p > 0 && q > 0 && p * q == TWO_64
    ensures l / p < q
    ensures l / p + (u % p) * q < TWO_64
  {
    DivBelow(l, p, q);
    MulLe(u % p + 1, p, q);
  }

  lemma RingRight(u: int, l: int, p: int, q: int, a: int, b: int)
    requires u == a * p + b && p * q == TWO_64
    ensures u * TWO_64 + l == (a * TWO_64 + b * q) * p + l
  {
    assert a * p * TWO_64 == a * TWO_64 * p;
    assert b * TWO_64 == b * q * p;
  }

  // ---------------------------------------------------------------------
  // Leading zeros

  /** LeadingZeroCount: the number of zero bits above the highest set bit. */
  function LeadingZeroCount(v: UInt128): (r: nat)
    ensures r <= 128
    ensures v.Val() == 0 <==> r == 128
    ensures v.Val() > 0 ==> Pow2(127 - r) <= v.Val() < Pow2(128 - r)
  {
    if v.upper == 0 then
      64 + LeadingZeroCount64(v.lower)
    else
      var z := LeadingZeroCount64(v.upper);
      UpperBits(v, z);
      z
  }

  lemma UpperBits(v: UInt128, z: nat)
    requires v.upper > 0 && z < 64
    requires Pow2(63 - z) <= v.upper < Pow2(64 - z)
    ensures Pow2(127 - z) <= v.Val() < Pow2(128 - z)
  {
    Pow2Add(63 - z, 64);
    Pow2Add(64 - z, 64);
    Pow2Is64();
    MulLe(Pow2(63 - z), v.upper, TWO_64);
    MulLe(v.upper + 1, Pow2(64 - z), TWO_64);
  }
}
