/** Machine integers as C# sees them: fixed-width words over Dafny's unbounded
    `int`, two's-complement reinterpretation, the masked shift operators,
    truncating division, bitwise OR, leading-zero counts and Math.BigMul. */
module Machine {

  const TWO_8: int := 0x100
  const TWO_16: int := 0x1_0000
  const TWO_31: int := 0x8000_0000
  const TWO_32: int := 0x1_0000_0000
  const TWO_63: int := 0x8000_0000_0000_0000
  const TWO_64: int := 0x1_0000_0000_0000_0000
  const TWO_96: int := 0x1_0000_0000_0000_0000_0000_0000
  const TWO_127: int := 0x8000_0000_0000_0000_0000_0000_0000_0000
  const TWO_128: int := 0x1_0000_0000_0000_0000_0000_0000_0000_0000

  type u8 = x: int | 0 <= x < 0x100
  type u32 = x: int | 0 <= x < 0x1_0000_0000
  type u64 = x: int | 0 <= x < 0x1_0000_0000_0000_0000
  type i32 = x: int | -0x8000_0000 <= x < 0x8000_0000
  type i64 = x: int | -0x8000_0000_0000_0000 <= x < 0x8000_0000_0000_0000

  // ---------------------------------------------------------------------
  // Powers

  function Pow2(n: nat): (r: nat)
    ensures r >= 1
  {
    if n == 0 then 1 else 2 * Pow2(n - 1)
  }

  function Pow10(n: nat): (r: nat)
    ensures r >= 1
  {
    if n == 0 then 1 else 10 * Pow10(n - 1)
  }

  lemma {:induction false} Pow2Add(a: nat, b: nat)
    ensures Pow2(a + b) == Pow2(a) * Pow2(b)
  {
    if a > 0 {
      Pow2Add(a - 1, b);
    }
  }

  lemma {:induction false} Pow10Add(a: nat, b: nat)
    ensures Pow10(a + b) == Pow10(a) * Pow10(b)
  {
    if a > 0 {
      Pow10Add(a - 1, b);
    }
  }

  lemma Pow2Monotone(a: nat, b: nat)
    requires a <= b
    ensures Pow2(a) <= Pow2(b)
    ensures Pow2(b) % Pow2(a) == 0
  {
    Pow2Add(b - a, a);
    MulLe(1, Pow2(b - a), Pow2(a));
    DivMulAdd(Pow2(b - a), 0, Pow2(a));
  }

  lemma Pow2Le(a: nat, b: nat)
    requires a <= b
    ensures Pow2(a) <= Pow2(b)
  {
    Pow2Monotone(a, b);
  }

  lemma Pow10Monotone(a: nat, b: nat)
    requires a <= b
    ensures Pow10(a) <= Pow10(b)
    ensures Pow10(b) % Pow10(a) == 0
  {
    Pow10Add(b - a, a);
    MulLe(1, Pow10(b - a), Pow10(a));
    DivMulAdd(Pow10(b - a), 0, Pow10(a));
  }

  // The powers of two that name the machine word sizes, one lemma each so
  // that a proof brings in only the literals it needs.

  lemma Pow2Is8() ensures Pow2(8) == TWO_8 { assert Pow2(4) == 16; }
  lemma Pow2Is16() ensures Pow2(16) == TWO_16 { Pow2Is8(); Pow2Add(8, 8); }
  lemma Pow2Is32() ensures Pow2(32) == TWO_32 { Pow2Is16(); Pow2Add(16, 16); }
  lemma Pow2Is31() ensures Pow2(31) == TWO_31 { Pow2Is32(); }
  lemma Pow2Is64() ensures Pow2(64) == TWO_64 { Pow2Is32(); Pow2Add(32, 32); }
  lemma Pow2Is63() ensures Pow2(63) == TWO_63 { Pow2Is64(); }
  lemma Pow2Is96() ensures Pow2(96) == TWO_96 { Pow2Is64(); Pow2Is32(); Pow2Add(64, 32); }
  lemma Pow2Is128() ensures Pow2(128) == TWO_128 { Pow2Is64(); Pow2Add(64, 64); }
  lemma Pow2Is127() ensures Pow2(127) == TWO_127 { Pow2Is128(); }

  // ---------------------------------------------------------------------
  // Division facts used throughout

  lemma MulLe(a: int, b: int, c: int)
    requires a <= b && c >= 0
    ensures a * c <= b * c
  {
  }

  /** x == q * d + r with 0 <= r < d determines the quotient and the remainder. */
  lemma DivModUnique(x: int, d: int, q: int, r: int)
    requires d > 0 && 0 <= r < d && x == q * d + r
    ensures x / d == q && x % d == r
  {
    var q', r' := x / d, x % d;
    assert x == q' * d + r';
    if q' > q {
      MulLe(q + 1, q', d);
      assert false;
    } else if q' < q {
      MulLe(q' + 1, q, d);
      assert false;
    }
  }

  lemma SmallMod(x: int, d: int)
    requires 0 <= x < d
    ensures x % d == x && x / d == 0
  {
    DivModUnique(x, d, 0, x);
  }

  lemma DivBelow(x: int, d: int, q: int)
    requires d > 0 && 0 <= x < q * d
    ensures x / d < q
  {
    var q', r' := x / d, x % d;
    assert x == q' * d + r';
    if q' >= q {
      MulLe(q, q', d);
      assert false;
    }
  }

  lemma DivAtLeast(x: int, d: int, q: int)
    requires d > 0 && q * d <= x
    ensures q <= x / d
  {
    var q', r' := x / d, x % d;
    assert x == q' * d + r';
    if q' < q {
      MulLe(q' + 1, q, d);
      assert false;
    }
  }

  lemma DivMulAdd(a: int, b: int, d: int)
    requires d > 0
    ensures (a * d + b) / d == a + b / d
    ensures (a * d + b) % d == b % d
  {
    DivModUnique(a * d + b, d, a + b / d, b % d);
  }

  lemma DivDiv(x: int, a: int, b: int)
    requires x >= 0 && a > 0 && b > 0
    ensures x / a / b == x / (a * b)
  {
    var q := x / a / b;
    var r1 := x % a;
    var r2 := (x / a) % b;
    assert x / a == q * b + r2;
    assert x == (q * b + r2) * a + r1;
    assert x == q * (a * b) + (r2 * a + r1);
    MulLe(r2, b - 1, a);
    DivModUnique(x, a * b, q, r2 * a + r1);
  }

  lemma ModMod(x: int, a: int, b: int)
    requires a > 0 && b > 0
    ensures (x % (a * b)) % a == x % a
  {
    var q := x / (a * b);
    assert x == (q * b) * a + x % (a * b);
    DivMulAdd(q * b, x % (a * b), a);
  }

  lemma DivBounds(x: int, d: int)
    requires x >= 0 && d > 0
    ensures 0 <= x / d <= x
    ensures (x / d) * d <= x < (x / d) * d + d
  {
    var q := x / d;
    assert x == q * d + x % d;
    if q < 0 {
      MulLe(q, -1, d);
      assert false;
    }
    MulLe(1, d, q);
  }

  // ---------------------------------------------------------------------
  // Two's complement and the C# conversions

  /** Reinterprets the low 64 bits of x as a signed `long` (an unchecked cast). */
  function ToInt64(x: int): (r: i64)
    ensures (x - r) % TWO_64 == 0
    ensures -TWO_63 <= x < TWO_63 ==> r == x
  {
    var m := x % TWO_64;
    if m < TWO_63 then m else m - TWO_64
  }

  /** Reinterprets the low 32 bits of x as a signed `int` (an unchecked cast). */
  function ToInt32(x: int): (r: i32)
    ensures (x - r) % TWO_32 == 0
    ensures -TWO_31 <= x < TWO_31 ==> r == x
  {
    var m := x % TWO_32;
    if m < TWO_31 then m else m - TWO_32
  }

  /** Two integers congruent modulo 2^64 reinterpret to the same `long`. */
  lemma ToInt64Congruent(x: int, y: int)
    requires (x - y) % TWO_64 == 0
    ensures ToInt64(x) == ToInt64(y)
  {
    var k := (x - y) / TWO_64;
    assert x == y + k * TWO_64;
    DivMulAdd(k, y, TWO_64);
  }

  /** Two integers congruent modulo 2^32 reinterpret to the same `int`. */
  lemma ToInt32Congruent(x: int, y: int)
    requires (x - y) % TWO_32 == 0
    ensures ToInt32(x) == ToInt32(y)
  {
    var k := (x - y) / TWO_32;
    assert x == y + k * TWO_32;
    DivMulAdd(k, y, TWO_32);
  }

  /** The number a magnitude and a sign stand for. */
  function Signed(m: int, negative: bool): int
  {
    if negative then -m else m
  }

  function Abs(x: int): (r: nat)
    ensures r == x || r == -x
  {
    if x < 0 then -x else x
  }

  /** Truncating remainder, C#'s `%` on signed integers: it takes the sign of the dividend. */
  function TruncRem(a: int, b: int): (r: int)
    requires b != 0
    ensures Abs(r) < Abs(b)
    ensures a >= 0 ==> r >= 0
    ensures a <= 0 ==> r <= 0
  {
    if a >= 0 then a % Abs(b) else -((-a) % Abs(b))
  }

  /** Truncating division, C#'s `/` on signed integers: the quotient rounds toward zero. */
  function TruncDiv(a: int, b: int): (q: int)
    requires b != 0
    ensures q * b + TruncRem(a, b) == a
  {
    var m := Abs(a) / Abs(b);
    var q := if (a >= 0) == (b > 0) then m else -m;
    TruncDivides(a, b, m, q);
    q
  }

  lemma MulNeg(x: int, y: int)
    ensures (-x) * y == -(x * y) && x * (-y) == -(x * y)
  {
  }

  lemma TruncDivides(a: int, b: int, m: int, q: int)
    requires b != 0 && m == Abs(a) / Abs(b)
    requires q == if (a >= 0) == (b > 0) then m else -m
    ensures q * b + TruncRem(a, b) == a
  {
    var A, B := Abs(a), Abs(b);
    var r: int := A % B;
    assert A == m * B + r;
    MulNeg(m, b);
    if a >= 0 {
      assert TruncRem(a, b) == r;
      if b > 0 {
        assert B == b;
      } else {
        assert B == -b;
      }
    } else {
      assert TruncRem(a, b) == -r;
      if b > 0 {
        assert B == b;
      } else {
        assert B == -b;
      }
    }
  }

  /** For a positive divisor, a truncating remainder is zero exactly when the
      Euclidean one is, and then the truncating quotient is exact. */
  lemma TruncRemZero(a: int, b: int)
    requires b > 0
    ensures TruncRem(a, b) == 0 <==> a % b == 0
    ensures TruncRem(a, b) == 0 ==> TruncDiv(a, b) * b == a
  {
    assert Abs(b) == b;
    if a < 0 {
      NegModZero(a, b);
    }
  }

  lemma NegModZero(a: int, b: int)
    requires b > 0
    ensures (-a) % b == 0 <==> a % b == 0
  {
    if a % b == 0 {
      assert a == (a / b) * b;
      DivModUnique(-a, b, -(a / b), 0);
    }
    if (-a) % b == 0 {
      assert -a == ((-a) / b) * b;
      DivModUnique(a, b, -((-a) / b), 0);
    }
  }

  // ---------------------------------------------------------------------
  // Shifts. C# masks the shift count: `& 63` for 64-bit operands and `& 31`
  // for 32-bit ones; Dafny's `%` is Euclidean, so `s % 64 == s & 63` also for
  // negative counts.

  lemma ShiftedBelow(x: int, k: nat, w: nat)
    requires k <= w && 0 <= x < Pow2(w)
    ensures x / Pow2(k) < Pow2(w - k)
  {
    Pow2Add(k, w - k);
    DivBelow(x, Pow2(k), Pow2(w - k));
  }

  function Shl64(x: u64, s: int): (r: u64)
    ensures r == (x * Pow2(s % 64)) % TWO_64
  {
    (x * Pow2(s % 64)) % TWO_64
  }

  function Shr64(x: u64, s: int): (r: u64)
    ensures r == x / Pow2(s % 64)
  {
    DivBounds(x, Pow2(s % 64));
    x / Pow2(s % 64)
  }

  function Shl32(x: u32, s: int): (r: u32)
    ensures r == (x * Pow2(s % 32)) % TWO_32
  {
    (x * Pow2(s % 32)) % TWO_32
  }

  function Shr32(x: u32, s: int): (r: u32)
    ensures r == x / Pow2(s % 32)
  {
    DivBounds(x, Pow2(s % 32));
    x / Pow2(s % 32)
  }

  /** `ulong << s` is the one `ulong` congruent to `x * 2^(s mod 64)`
      modulo 2^64: the bits shifted past the top are dropped. */
  lemma Shl64Congruent(x: u64, s: int)
    ensures (Shl64(x, s) - x * Pow2(s % 64)) % TWO_64 == 0
  {
    var p := x * Pow2(s % 64);
    DivBounds(p, TWO_64);
    DivModUnique(p % TWO_64 - p, TWO_64, -(p / TWO_64), 0);
  }

  /** `ulong >> s` is the floor of `x / 2^(s mod 64)`: the largest `r` with
      `r * 2^(s mod 64) <= x`. */
  lemma Shr64Floor(x: u64, s: int)
    ensures Shr64(x, s) * Pow2(s % 64) <= x < (Shr64(x, s) + 1) * Pow2(s % 64)
  {
    DivBounds(x, Pow2(s % 64));
  }

  /** `uint << s` is the one `uint` congruent to `x * 2^(s mod 32)` modulo
      2^32. */
  lemma Shl32Congruent(x: u32, s: int)
    ensures (Shl32(x, s) - x * Pow2(s % 32)) % TWO_32 == 0
  {
    var p := x * Pow2(s % 32);
    DivBounds(p, TWO_32);
    DivModUnique(p % TWO_32 - p, TWO_32, -(p / TWO_32), 0);
  }

  /** `uint >> s` is the floor of `x / 2^(s mod 32)`. */
  lemma Shr32Floor(x: u32, s: int)
    ensures Shr32(x, s) * Pow2(s % 32) <= x < (Shr32(x, s) + 1) * Pow2(s % 32)
  {
    DivBounds(x, Pow2(s % 32));
  }

  /** A shift left by one doubles the word, dropping the top bit. */
  lemma Shl64ByOne(x: u64)
    ensures Shl64(x, 1) == (2 * x) % TWO_64
  {
    assert 1 % 64 == 1 && Pow2(1) == 2;
  }

  lemma ShiftedProductBelow(x: nat, s: nat, w: nat)
    requires s <= w && x < Pow2(w - s)
    ensures x * Pow2(s) < Pow2(w)
  {
    Pow2Add(w - s, s);
    MulLe(x + 1, Pow2(w - s), Pow2(s));
  }

  /** A left shift that moves no set bit past the word keeps the full product. */
  lemma Shl64Exact(x: u64, s: nat)
    requires s < 64 && x < Pow2(64 - s)
    ensures Shl64(x, s) == x * Pow2(s)
  {
    assert s % 64 == s;
    ShiftedProductBelow(x, s, 64);
    Pow2Is64();
    SmallMod(x * Pow2(s), TWO_64);
  }

  lemma Shl32Exact(x: u32, s: nat)
    requires s < 32 && x < Pow2(32 - s)
    ensures Shl32(x, s) == x * Pow2(s)
  {
    assert s % 32 == s;
    ShiftedProductBelow(x, s, 32);
    Pow2Is32();
    SmallMod(x * Pow2(s), TWO_32);
  }

  // ---------------------------------------------------------------------
  // Bitwise OR on naturals

  /** The `|` operator on unsigned words. */
  function Or(a: nat, b: nat): nat
  {
    if a == 0 then b
    else if b == 0 then a
    else 2 * Or(a / 2, b / 2) + (if a % 2 == 1 || b % 2 == 1 then 1 else 0)
  }

  /** OR of two values whose set bits do not overlap is their sum. */
  lemma {:induction false} OrDisjoint(a: nat, b: nat, k: nat)
    requires a % Pow2(k) == 0 && b < Pow2(k)
    ensures Or(a, b) == a + b
  {
    if a != 0 && b != 0 {
      assert k > 0;
      assert Pow2(k) == 2 * Pow2(k - 1);
      ModMod(a, 2, Pow2(k - 1));
      assert a % 2 == 0;
      var a' := a / 2;
      assert a == 2 * a';
      DivMulAdd(a', 0, Pow2(k - 1));
      assert a' % Pow2(k - 1) == 0 by {
        var j := a / Pow2(k);
        assert a == j * Pow2(k);
        assert a' == j * Pow2(k - 1);
        DivMulAdd(j, 0, Pow2(k - 1));
      }
      DivBelow(b, 2, Pow2(k - 1));
      OrDisjoint(a', b / 2, k - 1);
    }
  }

  lemma {:induction false} OrCommutative(a: nat, b: nat)
    ensures Or(a, b) == Or(b, a)
  {
    if a != 0 && b != 0 {
      OrCommutative(a / 2, b / 2);
    }
  }

  // ---------------------------------------------------------------------
  // Bit lengths and leading zero counts

  function BitLength(x: nat): nat
  {
    if x == 0 then 0 else 1 + BitLength(x / 2)
  }

  lemma {:induction false} BitLengthBounds(x: nat)
    ensures x < Pow2(BitLength(x))
    ensures x > 0 ==> Pow2(BitLength(x) - 1) <= x
  {
    if x > 0 {
      BitLengthBounds(x / 2);
    }
  }

  lemma {:induction false} BitLengthAtMost(x: nat, w: nat)
    requires x < Pow2(w)
    ensures BitLength(x) <= w
  {
    if x > 0 {
      assert w > 0;
      DivBelow(x, 2, Pow2(w - 1));
      BitLengthAtMost(x / 2, w - 1);
    }
  }

  /** ulong.LeadingZeroCount. */
  function LeadingZeroCount64(x: u64): (r: nat)
    ensures r <= 64
    ensures x == 0 <==> r == 64
    ensures x > 0 ==> Pow2(63 - r) <= x < Pow2(64 - r)
  {
    Pow2Is64();
    BitLengthAtMost(x, 64);
    BitLengthBounds(x);
    64 - BitLength(x)
  }

  /** uint.LeadingZeroCount. */
  function LeadingZeroCount32(x: u32): (r: nat)
    ensures r <= 32
    ensures x == 0 <==> r == 32
    ensures x > 0 ==> Pow2(31 - r) <= x < Pow2(32 - r)
  {
    Pow2Is32();
    BitLengthAtMost(x, 32);
    BitLengthBounds(x);
    32 - BitLength(x)
  }

  // ---------------------------------------------------------------------
  // Math.BigMul

  /** A 128-bit value splits into its high and low ulong. */
  lemma WordPair(x: int)
    requires 0 <= x < TWO_128
    ensures 0 <= x / TWO_64 < TWO_64 && 0 <= x % TWO_64 < TWO_64
    ensures (x / TWO_64) * TWO_64 + x % TWO_64 == x
  {
    assert TWO_64 * TWO_64 == TWO_128;
    DivBelow(x, TWO_64, TWO_64);
  }

  lemma ProductBelow(a: int, b: int, W: int)
    requires 0 <= a < W && 0 <= b < W
    ensures 0 <= a * b < W * W
  {
    MulLe(0, a, b);
    MulLe(a, W, b);
    MulLe(b + 1, W, W);
  }

  /** x * k / (k * s) == x / s for positive k and s. */
  lemma ScaledNumber(x: int, k: int, s: int)
    requires k > 0 && s > 0
    ensures (x * k) as real / (k * s) as real == x as real / s as real
  {
    assert (x * k) as real == x as real * k as real;
    assert (k * s) as real == k as real * s as real;
  }

  /** Taking q times b units away from a units, in whole units of p. */
  lemma LessMultipleUnits(a: int, q: int, b: int, p: nat)
    requires p > 0
    ensures (a - q * b) as real / p as real == a as real / p as real - q as real * (b as real / p as real)
  {
    var pr := p as real;
    assert (a - q * b) as real == a as real - q as real * b as real;
    assert (a as real - q as real * b as real) / pr == a as real / pr - (q as real * b as real) / pr;
    assert (q as real * b as real) / pr == q as real * (b as real / pr);
  }

  /** v units of p stand for v, and p more stand for one more. */
  lemma WholeUnits(v: int, p: nat)
    requires p > 0
    ensures (v * p) as real / p as real == v as real
    ensures (v + p) as real / p as real == v as real / p as real + 1.0
  {
    var pr := p as real;
    assert (v * p) as real / pr == v as real by {
      assert (v * p) as real == v as real * pr;
    }
    assert (v + p) as real / pr == v as real / pr + 1.0 by {
      assert (v + p) as real == v as real + pr;
      assert pr / pr == 1.0;
      assert (v as real + pr) / pr == v as real / pr + pr / pr;
    }
  }

  /** `Math.DivRem` on two `ulong` values. */
  function DivRemU64(x: u64, y: u64): (r: (u64, u64))
    requires y > 0
    ensures r.0 == x / y && r.1 == x % y
  {
    MulLe(1, y, TWO_64);
    DivBelow(x, y, TWO_64);
    (x / y, x % y)
  }

  /** `Math.DivRem` gives a quotient and a remainder below the divisor that
      together make up the dividend. */
  lemma DivRemIdentity(x: u64, y: u64)
    requires y > 0
    ensures DivRemU64(x, y).0 * y + DivRemU64(x, y).1 == x && DivRemU64(x, y).1 < y
  {
    DivBounds(x, y);
  }

  /** Math.BigMul(ulong, ulong, out ulong low): the full 128-bit product, as (high, low). */
  function BigMul(a: u64, b: u64): (r: (u64, u64))
    ensures r.0 * TWO_64 + r.1 == a * b
  {
    var x := a * b;
    ProductBelow(a, b, TWO_64);
    assert TWO_64 * TWO_64 == TWO_128;
    WordPair(x);
    (x / TWO_64, x % TWO_64)
  }
}
