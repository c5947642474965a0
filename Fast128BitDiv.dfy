/** Division of a 128-bit value by 10^digits through multiplication by a
    precomputed reciprocal ("magic number") and shifts, after Granlund and
    Montgomery, "Division by invariant integers using multiplication" (1994).
    The tables hold 10^digits split into 64-bit halves, the pre- and
    post-shifts and the halves of the multiplier. */
module Fast128BitDiv {
  import opened Machine
  import opened U128

  // ---------------------------------------------------------------------
  // Constant tables, indexed by the number of decimal digits. Reading
  // past the end of a table throws in the source; the preconditions keep
  // the index inside it. `GetSh1` has 33 entries, the others 39.

  /** Lower 64 bits of 10^digits. */
  function GetDivisorLow(digits: int): u64
    requires 0 <= digits < 39
  {
    match digits
    case 0 => 0x1
    case 1 => 0xA
    case 2 => 0x64
    case 3 => 0x3E8
    case 4 => 0x2710
    case 5 => 0x186A0
    case 6 => 0xF4240
    case 7 => 0x989680
    case 8 => 0x5F5E100
    case 9 => 0x3B9ACA00
    case 10 => 0x2540BE400
    case 11 => 0x174876E800
    case 12 => 0xE8D4A51000
    case 13 => 0x9184E72A000
    case 14 => 0x5AF3107A4000
    case 15 => 0x38D7EA4C68000
    case 16 => 0x2386F26FC10000
    case 17 => 0x16345785D8A0000
    case 18 => 0xDE0B6B3A7640000
    case 19 => 0x8AC7230489E80000
    case 20 => 0x6BC75E2D63100000
    case 21 => 0x35C9ADC5DEA00000
    case 22 => 0x19E0C9BAB2400000
    case 23 => 0x2C7E14AF6800000
    case 24 => 0x1BCECCEDA1000000
    case 25 => 0x161401484A000000
    case 26 => 0xDCC80CD2E4000000
    case 27 => 0x9FD0803CE8000000
    case 28 => 0x3E25026110000000
    case 29 => 0x6D7217CAA0000000
    case 30 => 0x4674EDEA40000000
    case 31 => 0xC0914B2680000000
    case 32 => 0x85ACEF8100000000
    case 33 => 0x38C15B0A00000000
    case 34 => 0x378D8E6400000000
    case 35 => 0x2B878FE800000000
    case 36 => 0xB34B9F1000000000
    case 37 => 0xF436A000000000
    case _ => 0x98A224000000000
  }

  /** Upper 64 bits of 10^digits. */
  function GetDivisorHigh(digits: int): u64
    requires 0 <= digits < 39
  {
    match digits
    case 0 => 0x0
    case 1 => 0x0
    case 2 => 0x0
    case 3 => 0x0
    case 4 => 0x0
    case 5 => 0x0
    case 6 => 0x0
    case 7 => 0x0
    case 8 => 0x0
    case 9 => 0x0
    case 10 => 0x0
    case 11 => 0x0
    case 12 => 0x0
    case 13 => 0x0
    case 14 => 0x0
    case 15 => 0x0
    case 16 => 0x0
    case 17 => 0x0
    case 18 => 0x0
    case 19 => 0x0
    case 20 => 0x5
    case 21 => 0x36
    case 22 => 0x21E
    case 23 => 0x152D
    case 24 => 0xD3C2
    case 25 => 0x84595
    case 26 => 0x52B7D2
    case 27 => 0x33B2E3C
    case 28 => 0x204FCE5E
    case 29 => 0x1431E0FAE
    case 30 => 0xC9F2C9CD0
    case 31 => 0x7E37BE2022
    case 32 => 0x4EE2D6D415B
    case 33 => 0x314DC6448D93
    case 34 => 0x1ED09BEAD87C0
    case 35 => 0x13426172C74D82
    case 36 => 0xC097CE7BC90715
    case 37 => 0x785EE10D5DA46D9
    case _ => 0x4B3B4CA85A86C47A
  }

  /** Post-shift applied to the high product. */
  function GetSh2(digits: int): (r: nat)
    requires 0 <= digits < 39
    ensures r < 128
  {
    match digits
    case 0 => 0
    case 1 => 3
    case 2 => 4
    case 3 => 4
    case 4 => 13
    case 5 => 14
    case 6 => 15
    case 7 => 23
    case 8 => 11
    case 9 => 29
    case 10 => 31
    case 11 => 36
    case 12 => 37
    case 13 => 42
    case 14 => 46
    case 15 => 20
    case 16 => 51
    case 17 => 56
    case 18 => 23
    case 19 => 62
    case 20 => 24
    case 21 => 28
    case 22 => 73
    case 23 => 74
    case 24 => 79
    case 25 => 83
    case 26 => 85
    case 27 => 88
    case 28 => 93
    case 29 => 96
    case 30 => 39
    case 31 => 41
    case 32 => 41
    case 33 => 109
    case 34 => 112
    case 35 => 116
    case 36 => 118
    case 37 => 122
    case _ => 125
  }

  /** Pre-shift applied to the dividend; defined for 33 entries only. */
  function GetSh1(digits: int): (r: nat)
    requires 0 <= digits < 33
    ensures r <= digits
  {
    match digits
    case 0 => 0
    case 1 => 0
    case 2 => 0
    case 3 => 3
    case 4 => 0
    case 5 => 0
    case 6 => 0
    case 7 => 0
    case 8 => 8
    case 9 => 0
    case 10 => 0
    case 11 => 0
    case 12 => 0
    case 13 => 0
    case 14 => 0
    case 15 => 15
    case 16 => 0
    case 17 => 0
    case 18 => 18
    case 19 => 0
    case 20 => 20
    case 21 => 21
    case 22 => 0
    case 23 => 0
    case 24 => 0
    case 25 => 0
    case 26 => 0
    case 27 => 0
    case 28 => 0
    case 29 => 0
    case 30 => 30
    case 31 => 31
    case _ => 32
  }

  /** Lower 64 bits of the magic multiplier. */
  function GetMLow(digits: int): u64
    requires 0 <= digits < 39
  {
    match digits
    case 0 => 0x0
    case 1 => 0xCCCCCCCCCCCCCCCD
    case 2 => 0x8F5C28F5C28F5C29
    case 3 => 0xD916872B020C49BB
    case 4 => 0xD3C36113404EA4A9
    case 5 => 0xC3F3E0370CDC8755
    case 6 => 0x5A63F9A49C2C1B11
    case 7 => 0x3D32907604691B4D
    case 8 => 0xF9FB841A566D74F9
    case 9 => 0x31680A88F8953031
    case 10 => 0xAD5CD10396A21347
    case 11 => 0xF78F69A51539D749
    case 12 => 0xFE4FE1EDD10B9175
    case 13 => 0x9432D2F9035837DD
    case 14 => 0x538484C19EF38C95
    case 15 => 0xB3643E74DC052FD9
    case 16 => 0xD30BAF9A1E626A6D
    case 17 => 0x9BEFEB9FAD487C3
    case 18 => 0x5741CEBFCC8B9891
    case 19 => 0x9598F4F1E8361973
    case 20 => 0x446BAA23D2EC729B
    case 21 => 0xA7BEED3F6FC16EBD
    case 22 => 0x5324C68B12DD6339
    case 23 => 0xDD6DC14F03C5E0A5
    case 24 => 0xC4926A9672793543
    case 25 => 0x3A83DDBD83F52205
    case 26 => 0x4A9B257F019540CF
    case 27 => 0x3BAF513267AA9A3F
    case 28 => 0x8BCA9D6E188853FD
    case 29 => 0x96EE45813A04331
    case 30 => 0x7853F0C684960DE7
    case 31 => 0x2D0FF3D203AB3E53
    case 32 => 0xA29CCA5D33EF0C77
    case 33 => 0xECB1AD8AEACDD58F
    case 34 => 0xBD5AF13BEF0B113F
    case 35 => 0x955E4EC64B44E865
    case 36 => 0x6EF285E8EAE85CF5
    case 37 => 0x7E50D64177DA2E55
    case _ => 0xCB73DE9AC6482511
  }

  /** Upper 64 bits of the magic multiplier. */
  function GetMHigh(digits: int): u64
    requires 0 <= digits < 39
  {
    match digits
    case 0 => 0x0
    case 1 => 0xCCCCCCCCCCCCCCCC
    case 2 => 0x28F5C28F5C28F5C2
    case 3 => 0x20C49BA5E353F7CE
    case 4 => 0xD1B71758E219652B
    case 5 => 0x29F16B11C6D1E108
    case 6 => 0x8637BD05AF6C69B
    case 7 => 0xD6BF94D5E57A42BC
    case 8 => 0x15798EE2308C39D
    case 9 => 0x89705F4136B4A597
    case 10 => 0x36F9BFB3AF7B756F
    case 11 => 0xAFEBFF0BCB24AAFE
    case 12 => 0x232F33025BD42232
    case 13 => 0x709709A125DA0709
    case 14 => 0xB424DC35095CD80F
    case 15 => 0x24075F3DCEAC2
    case 16 => 0x39A5652FB1137856
    case 17 => 0xB877AA3236A4B449
    case 18 => 0x24E4BBA3A487
    case 19 => 0x760F253EDB4AB0D2
    case 20 => 0x2F394219248
    case 21 => 0x971DA05074D
    case 22 => 0xF1C90080BAF72CB1
    case 23 => 0x305B66802564A289
    case 24 => 0x9ABE14CD44753B52
    case 25 => 0xF79687AED3EEC551
    case 26 => 0x63090312BB2C4EED
    case 27 => 0x4F3A68DBC8F03F24
    case 28 => 0xFD87B5F28300CA0D
    case 29 => 0xCAD2F7F5359A3B3E
    case 30 => 0x289097FDD
    case 31 => 0x2073ACCB1
    case 32 => 0x67D88F56
    case 33 => 0xA6274BBDD0FADD61
    case 34 => 0x84EC3C97DA624AB4
    case 35 => 0xD4AD2DBFC3D07787
    case 36 => 0x5512124CB4B9C969
    case 37 => 0x881CEA14545C7575
    case _ => 0x6CE3EE76A9E3912A
  }

  /** 10^digits as a 128-bit value. */
  function Divisor(digits: int): UInt128
    requires 0 <= digits <= 38
  {
    UInt128(GetDivisorHigh(digits), GetDivisorLow(digits))
  }

  /** Each divisor entry is ten times the one before it. */
  lemma DivisorStep(digits: int)
    requires 1 <= digits <= 38
    ensures Divisor(digits).Val() == 10 * Divisor(digits - 1).Val()
  {
  }

  /** The divisor tables hold 10^digits. */
  lemma {:induction false} DivisorIsPow10(digits: int)
    requires 0 <= digits <= 38
    ensures Divisor(digits).Val() == Pow10(digits)
  {
    if digits > 0 {
      DivisorIsPow10(digits - 1);
      DivisorStep(digits);
    }
  }

  /** Up to 10^19 the upper half is zero and the lower half alone is 10^digits. */
  lemma DivisorFitsLow(digits: int)
    requires 0 <= digits <= 19
    ensures GetDivisorHigh(digits) == 0 && GetDivisorLow(digits) == Pow10(digits)
  {
    DivisorIsPow10(digits);
  }

  // ---------------------------------------------------------------------
  // Powers by repeated squaring. The recursion is only logarithmically
  // deep, so the verifier can evaluate it on the table's literal exponents.

  function Pow5(n: nat): nat
  {
    if n == 0 then 1 else 5 * Pow5(n - 1)
  }

  function Pow2BySquaring(n: nat): nat
  {
    if n == 0 then 1
    else
      var h := Pow2BySquaring(n / 2);
      if n % 2 == 0 then h * h else 2 * (h * h)
  }

  function Pow5BySquaring(n: nat): nat
  {
    if n == 0 then 1
    else
      var h := Pow5BySquaring(n / 2);
      if n % 2 == 0 then h * h else 5 * (h * h)
  }

  lemma {:induction false} Pow5Add(a: nat, b: nat)
    ensures Pow5(a + b) == Pow5(a) * Pow5(b)
  {
    if a > 0 {
      Pow5Add(a - 1, b);
    }
  }

  lemma {:induction false} Pow2BySquaringIsPow2(n: nat)
    ensures Pow2BySquaring(n) == Pow2(n)
  {
    if n > 0 {
      Pow2BySquaringIsPow2(n / 2);
      Pow2Add(n / 2, n / 2);
      if n % 2 == 1 {
        Pow2Add(1, n / 2 + n / 2);
      }
    }
  }

  lemma {:induction false} Pow5BySquaringIsPow5(n: nat)
    ensures Pow5BySquaring(n) == Pow5(n)
  {
    if n > 0 {
      Pow5BySquaringIsPow5(n / 2);
      Pow5Add(n / 2, n / 2);
      if n % 2 == 1 {
        Pow5Add(1, n / 2 + n / 2);
      }
    }
  }

  /** 10^n = 2^n * 5^n. */
  lemma {:induction false} Pow10Split(n: nat)
    ensures Pow10(n) == Pow2(n) * Pow5(n)
  {
    if n > 0 {
      Pow10Split(n - 1);
    }
  }

  // ---------------------------------------------------------------------
  // The condition on each table entry. With a = sh1, b = sh2, m the
  // multiplier and d' = 10^digits / 2^a = 5^digits * 2^(digits - a) (what
  // is left of the divisor once the pre-shift has taken out a factors of
  // two), the entry is exact for every 128-bit dividend when
  // 2^(128+b) <= m * d' <= 2^(128+b) + 2^(a+b).

  predicate MagicCondition(digits: nat, a: nat, b: nat, m: nat)
  {
    var pb := Pow2BySquaring(b);
    a <= digits &&
    TWO_128 * pb <= m * (Pow5BySquaring(digits) * Pow2BySquaring(digits - a)) <= TWO_128 * pb + Pow2BySquaring(a) * pb
  }

  /** The condition for the table entry of `digits`. */
  predicate MagicOk(digits: int)
    requires 1 <= digits <= 32
  {
    MagicCondition(digits, GetSh1(digits), GetSh2(digits), GetMHigh(digits) * TWO_64 + GetMLow(digits))
  }

  lemma MagicEntry1()
    ensures MagicOk(1)
  {
    assert GetSh1(1) == 0 && GetSh2(1) == 3;
    assert GetMHigh(1) * TWO_64 + GetMLow(1) == 272225893536750770770699685945414569165;
    assert Pow2BySquaring(3) == 8 && Pow2BySquaring(0) == 1;
    assert Pow5BySquaring(1) * Pow2BySquaring(1) == 10;
  }

  lemma MagicEntry2()
    ensures MagicOk(2)
  {
    assert GetSh1(2) == 0 && GetSh2(2) == 4;
    assert GetMHigh(2) * TWO_64 + GetMLow(2) == 54445178707350154154139937189082913833;
    assert Pow2BySquaring(4) == 16 && Pow2BySquaring(0) == 1;
    assert Pow5BySquaring(2) * Pow2BySquaring(2) == 100;
  }

  lemma MagicEntry3()
    ensures MagicOk(3)
  {
    assert GetSh1(3) == 3 && GetSh2(3) == 4;
    assert GetMHigh(3) * TWO_64 + GetMLow(3) == 43556142965880123323311949751266331067;
    assert Pow2BySquaring(4) == 16 && Pow2BySquaring(3) == 8;
    assert Pow5BySquaring(3) * Pow2BySquaring(0) == 125;
  }

  lemma MagicEntry4()
    ensures MagicOk(4)
  {
    assert GetSh1(4) == 0 && GetSh2(4) == 13;
    assert GetMHigh(4) * TWO_64 + GetMLow(4) == 278759314981632789269196478408104518825;
    assert Pow2BySquaring(13) == 8192 && Pow2BySquaring(0) == 1;
    assert Pow5BySquaring(4) * Pow2BySquaring(4) == 10000;
  }

  lemma MagicEntry5()
    ensures MagicOk(5)
  {
    assert GetSh1(5) == 0 && GetSh2(5) == 14;
    assert GetMHigh(5) * TWO_64 + GetMLow(5) == 55751862996326557853839295681620903765;
    assert Pow2BySquaring(14) == 16384 && Pow2BySquaring(0) == 1;
    assert Pow5BySquaring(5) * Pow2BySquaring(5) == 100000;
  }

  lemma MagicEntry6()
    ensures MagicOk(6)
  {
    assert GetSh1(6) == 0 && GetSh2(6) == 15;
    assert GetMHigh(6) * TWO_64 + GetMLow(6) == 11150372599265311570767859136324180753;
    assert Pow2BySquaring(15) == 32768 && Pow2BySquaring(0) == 1;
    assert Pow5BySquaring(6) * Pow2BySquaring(6) == 1000000;
  }

  lemma MagicEntry7()
    ensures MagicOk(7)
  {
    assert GetSh1(7) == 0 && GetSh2(7) == 23;
    assert GetMHigh(7) * TWO_64 + GetMLow(7) == 285449538541191976211657193889899027277;
    assert Pow2BySquaring(23) == 8388608 && Pow2BySquaring(0) == 1;
    assert Pow5BySquaring(7) * Pow2BySquaring(7) == 10000000;
  }

  lemma MagicEntry8()
    ensures MagicOk(8)
  {
    assert GetSh1(8) == 8 && GetSh2(8) == 11;
    assert GetMHigh(8) * TWO_64 + GetMLow(8) == 1784059615882449851322857461811868921;
    assert Pow2BySquaring(11) == 2048 && Pow2BySquaring(8) == 256;
    assert Pow5BySquaring(8) * Pow2BySquaring(0) == 390625;
  }

  lemma MagicEntry9()
    ensures MagicOk(9)
  {
    assert GetSh1(9) == 0 && GetSh2(9) == 29;
    assert GetMHigh(9) * TWO_64 + GetMLow(9) == 182687704666362864775460604089535377457;
    assert Pow2BySquaring(29) == 536870912 && Pow2BySquaring(0) == 1;
    assert Pow5BySquaring(9) * Pow2BySquaring(9) == 1000000000;
  }

  lemma MagicEntry10()
    ensures MagicOk(10)
  {
    assert GetSh1(10) == 0 && GetSh2(10) == 31;
    assert GetMHigh(10) * TWO_64 + GetMLow(10) == 73075081866545145910184241635814150983;
    assert Pow2BySquaring(31) == 2147483648 && Pow2BySquaring(0) == 1;
    assert Pow5BySquaring(10) * Pow2BySquaring(10) == 10000000000;
  }

  lemma MagicEntry11()
    ensures MagicOk(11)
  {
    assert GetSh1(11) == 0 && GetSh2(11) == 36;
    assert GetMHigh(11) * TWO_64 + GetMLow(11) == 233840261972944466912589573234605283145;
    assert Pow2BySquaring(36) == 68719476736 && Pow2BySquaring(0) == 1;
    assert Pow5BySquaring(11) * Pow2BySquaring(11) == 100000000000;
  }

  lemma MagicEntry12()
    ensures MagicOk(12)
  {
    assert GetSh1(12) == 0 && GetSh2(12) == 37;
    assert GetMHigh(12) * TWO_64 + GetMLow(12) == 46768052394588893382517914646921056629;
    assert Pow2BySquaring(37) == 137438953472 && Pow2BySquaring(0) == 1;
    assert Pow5BySquaring(12) * Pow2BySquaring(12) == 1000000000000;
  }

  lemma MagicEntry13()
    ensures MagicOk(13)
  {
    assert GetSh1(13) == 0 && GetSh2(13) == 42;
    assert GetMHigh(13) * TWO_64 + GetMLow(13) == 149657767662684458824057326870147381213;
    assert Pow2BySquaring(42) == 4398046511104 && Pow2BySquaring(0) == 1;
    assert Pow5BySquaring(13) * Pow2BySquaring(13) == 10000000000000;
  }

  lemma MagicEntry14()
    ensures MagicOk(14)
  {
    assert GetSh1(14) == 0 && GetSh2(14) == 46;
    assert GetMHigh(14) * TWO_64 + GetMLow(14) == 239452428260295134118491722992235809941;
    assert Pow2BySquaring(46) == 70368744177664 && Pow2BySquaring(0) == 1;
    assert Pow5BySquaring(14) * Pow2BySquaring(14) == 100000000000000;
  }

  lemma MagicEntry15()
    ensures MagicOk(15)
  {
    assert GetSh1(15) == 15 && GetSh2(15) == 20;
    assert GetMHigh(15) * TWO_64 + GetMLow(15) == 11692013098647223345629478661730265;
    assert Pow2BySquaring(20) == 1048576 && Pow2BySquaring(15) == 32768;
    assert Pow5BySquaring(15) * Pow2BySquaring(0) == 30517578125;
  }

  lemma MagicEntry16()
    ensures MagicOk(16)
  {
    assert GetSh1(16) == 0 && GetSh2(16) == 51;
    assert GetMHigh(16) * TWO_64 + GetMLow(16) == 76624777043294442917917351357515459181;
    assert Pow2BySquaring(51) == 2251799813685248 && Pow2BySquaring(0) == 1;
    assert Pow5BySquaring(16) * Pow2BySquaring(16) == 10000000000000000;
  }

  lemma MagicEntry17()
    ensures MagicOk(17)
  {
    assert GetSh1(17) == 0 && GetSh2(17) == 56;
    assert GetMHigh(17) * TWO_64 + GetMLow(17) == 245199286538542217337335524344049469379;
    assert Pow2BySquaring(56) == 72057594037927936 && Pow2BySquaring(0) == 1;
    assert Pow5BySquaring(17) * Pow2BySquaring(17) == 100000000000000000;
  }

  lemma MagicEntry18()
    ensures MagicOk(18)
  {
    assert GetSh1(18) == 18 && GetSh2(18) == 23;
    assert GetMHigh(18) * TWO_64 + GetMLow(18) == 748288838313422294120286634350737;
    assert Pow2BySquaring(23) == 8388608 && Pow2BySquaring(18) == 262144;
    assert Pow5BySquaring(18) * Pow2BySquaring(0) == 3814697265625;
  }

  lemma MagicEntry19()
    ensures MagicOk(19)
  {
    assert GetSh1(19) == 0 && GetSh2(19) == 62;
    assert GetMHigh(19) * TWO_64 + GetMLow(19) == 156927543384667019095894735580191660403;
    assert Pow2BySquaring(62) == 4611686018427387904 && Pow2BySquaring(0) == 1;
    assert Pow5BySquaring(19) * Pow2BySquaring(19) == 10000000000000000000;
  }

  lemma MagicEntry20()
    ensures MagicOk(20)
  {
    assert GetSh1(20) == 20 && GetSh2(20) == 24;
    assert GetMHigh(20) * TWO_64 + GetMLow(20) == 59863107065073783529622930748059;
    assert Pow2BySquaring(24) == 16777216 && Pow2BySquaring(20) == 1048576;
    assert Pow5BySquaring(20) * Pow2BySquaring(0) == 95367431640625;
  }

  lemma MagicEntry21()
    ensures MagicOk(21)
  {
    assert GetSh1(21) == 21 && GetSh2(21) == 28;
    assert GetMHigh(21) * TWO_64 + GetMLow(21) == 191561942608236107294793378393789;
    assert Pow2BySquaring(28) == 268435456 && Pow2BySquaring(21) == 2097152;
    assert Pow5BySquaring(21) * Pow2BySquaring(0) == 476837158203125;
  }

  lemma MagicEntry22()
    ensures MagicOk(22)
  {
    assert GetSh1(22) == 0 && GetSh2(22) == 73;
    assert GetMHigh(22) * TWO_64 + GetMLow(22) == 321387608851798055108392418468232520505;
    assert Pow2BySquaring(73) == 9444732965739290427392 && Pow2BySquaring(0) == 1;
    assert Pow5BySquaring(22) * Pow2BySquaring(22) == 10000000000000000000000;
  }

  lemma MagicEntry23()
    ensures MagicOk(23)
  {
    assert GetSh1(23) == 0 && GetSh2(23) == 74;
    assert GetMHigh(23) * TWO_64 + GetMLow(23) == 64277521770359611021678483693646504101;
    assert Pow2BySquaring(74) == 18889465931478580854784 && Pow2BySquaring(0) == 1;
    assert Pow5BySquaring(23) * Pow2BySquaring(23) == 100000000000000000000000;
  }

  lemma MagicEntry24()
    ensures MagicOk(24)
  {
    assert GetSh1(24) == 0 && GetSh2(24) == 79;
    assert GetMHigh(24) * TWO_64 + GetMLow(24) == 205688069665150755269371147819668813123;
    assert Pow2BySquaring(79) == 604462909807314587353088 && Pow2BySquaring(0) == 1;
    assert Pow5BySquaring(24) * Pow2BySquaring(24) == 1000000000000000000000000;
  }

  lemma MagicEntry25()
    ensures MagicOk(25)
  {
    assert GetSh1(25) == 0 && GetSh2(25) == 83;
    assert GetMHigh(25) * TWO_64 + GetMLow(25) == 329100911464241208430993836511470100997;
    assert Pow2BySquaring(83) == 9671406556917033397649408 && Pow2BySquaring(0) == 1;
    assert Pow5BySquaring(25) * Pow2BySquaring(25) == 10000000000000000000000000;
  }

  lemma MagicEntry26()
    ensures MagicOk(26)
  {
    assert GetSh1(26) == 0 && GetSh2(26) == 85;
    assert GetMHigh(26) * TWO_64 + GetMLow(26) == 131640364585696483372397534604588040399;
    assert Pow2BySquaring(85) == 38685626227668133590597632 && Pow2BySquaring(0) == 1;
    assert Pow5BySquaring(26) * Pow2BySquaring(26) == 100000000000000000000000000;
  }

  lemma MagicEntry27()
    ensures MagicOk(27)
  {
    assert GetSh1(27) == 0 && GetSh2(27) == 88;
    assert GetMHigh(27) * TWO_64 + GetMLow(27) == 105312291668557186697918027683670432319;
    assert Pow2BySquaring(88) == 309485009821345068724781056 && Pow2BySquaring(0) == 1;
    assert Pow5BySquaring(27) * Pow2BySquaring(27) == 1000000000000000000000000000;
  }

  lemma MagicEntry28()
    ensures MagicOk(28)
  {
    assert GetSh1(28) == 0 && GetSh2(28) == 93;
    assert GetMHigh(28) * TWO_64 + GetMLow(28) == 336999333339382997433337688587745383421;
    assert Pow2BySquaring(0) == 1;
    assert Pow2BySquaring(1) == 2;
    assert Pow2BySquaring(2) == 4;
    assert Pow2BySquaring(5) == 32;
    assert Pow2BySquaring(11) == 2048;
    assert Pow2BySquaring(23) == 8388608;
    assert Pow2BySquaring(46) == 70368744177664;
    assert Pow2BySquaring(93) == 9903520314283042199192993792;
    assert Pow5BySquaring(1) == 5;
    assert Pow5BySquaring(3) == 125;
    assert Pow5BySquaring(7) == 78125;
    assert Pow5BySquaring(14) == 6103515625;
    assert Pow5BySquaring(28) == 37252902984619140625 && Pow2BySquaring(28) == 268435456;
    assert Pow5BySquaring(28) * Pow2BySquaring(28) == 10000000000000000000000000000;
  }

  lemma MagicEntry29()
    ensures MagicOk(29)
  {
    assert GetSh1(29) == 0 && GetSh2(29) == 96;
    assert GetMHigh(29) * TWO_64 + GetMLow(29) == 269599466671506397946670150870196306737;
    assert Pow2BySquaring(96) == 79228162514264337593543950336 && Pow2BySquaring(0) == 1;
    assert Pow5BySquaring(29) * Pow2BySquaring(29) == 100000000000000000000000000000;
  }

  lemma MagicEntry30()
    ensures MagicOk(30)
  {
    assert GetSh1(30) == 30 && GetSh2(30) == 39;
    assert GetMHigh(30) * TWO_64 + GetMLow(30) == 200867255532373784442745261543;
    assert Pow2BySquaring(39) == 549755813888 && Pow2BySquaring(30) == 1073741824;
    assert Pow5BySquaring(30) * Pow2BySquaring(0) == 931322574615478515625;
  }

  lemma MagicEntry31()
    ensures MagicOk(31)
  {
    assert GetSh1(31) == 31 && GetSh2(31) == 41;
    assert GetMHigh(31) * TWO_64 + GetMLow(31) == 160693804425899027554196209235;
    assert Pow2BySquaring(41) == 2199023255552 && Pow2BySquaring(31) == 2147483648;
    assert Pow5BySquaring(31) * Pow2BySquaring(0) == 4656612873077392578125;
  }

  lemma MagicEntry32()
    ensures MagicOk(32)
  {
    assert GetSh1(32) == 32 && GetSh2(32) == 41;
    assert GetMHigh(32) * TWO_64 + GetMLow(32) == 32138760885179805510839241847;
    assert Pow2BySquaring(41) == 2199023255552 && Pow2BySquaring(32) == 4294967296;
    assert Pow5BySquaring(32) * Pow2BySquaring(0) == 23283064365386962890625;
  }

  /** Every entry for 1..32 digits meets the condition, checked entry by entry. */
  lemma MagicTable(digits: int)
    requires 1 <= digits <= 32
    ensures MagicOk(digits)
  {
    match digits
    case 1 => MagicEntry1();
    case 2 => MagicEntry2();
    case 3 => MagicEntry3();
    case 4 => MagicEntry4();
    case 5 => MagicEntry5();
    case 6 => MagicEntry6();
    case 7 => MagicEntry7();
    case 8 => MagicEntry8();
    case 9 => MagicEntry9();
    case 10 => MagicEntry10();
    case 11 => MagicEntry11();
    case 12 => MagicEntry12();
    case 13 => MagicEntry13();
    case 14 => MagicEntry14();
    case 15 => MagicEntry15();
    case 16 => MagicEntry16();
    case 17 => MagicEntry17();
    case 18 => MagicEntry18();
    case 19 => MagicEntry19();
    case 20 => MagicEntry20();
    case 21 => MagicEntry21();
    case 22 => MagicEntry22();
    case 23 => MagicEntry23();
    case 24 => MagicEntry24();
    case 25 => MagicEntry25();
    case 26 => MagicEntry26();
    case 27 => MagicEntry27();
    case 28 => MagicEntry28();
    case 29 => MagicEntry29();
    case 30 => MagicEntry30();
    case 31 => MagicEntry31();
    case _ => MagicEntry32();
  }

  // ---------------------------------------------------------------------
  // The invariant-division theorem

  lemma CancelLe(x: int, y: int, c: int)
    requires c > 0 && x * c <= y * c
    ensures x <= y
  {
    if x > y {
      MulLe(y + 1, x, c);
    }
  }

  lemma CancelLt(x: int, y: int, c: int)
    requires c > 0 && x * c < y * c
    ensures x < y
  {
    if x >= y {
      MulLe(y, x, c);
    }
  }

  lemma Swap(x: int, y: int, z: int)
    ensures (x * y) * z == (x * z) * y && x * (y * z) == (x * y) * z
  {
  }

  /** floor(N * m / (2^128 * pb)) = floor(N / d') for every N with
      N * pa < 2^128, when m * d' exceeds 2^128 * pb by at most pa * pb. */
  lemma InvariantDivision(n: nat, m: nat, dp: nat, pa: nat, pb: nat)
    requires dp > 0 && pa > 0 && pb > 0 && n * pa < TWO_128
    requires TWO_128 * pb <= m * dp <= TWO_128 * pb + pa * pb
    ensures n * m / (TWO_128 * pb) == n / dp
  {
    var k := TWO_128 * pb;
    var e := m * dp - k;
    var q := n / dp;
    ErrorBelow(n, e, pa, pb, k);
    var nm, ne := n * m, n * e;
    Swap(n, m, dp);
    assert nm * dp == n * k + ne;
    Sandwich(nm, n, k, ne, q, dp);
    assert (q + 1) * k == q * k + k;
    DivModUnique(nm, k, q, nm - q * k);
  }

  /** n * e < 2^128 * pb: the error term stays below one unit of the quotient. */
  lemma ErrorBelow(n: nat, e: int, pa: nat, pb: nat, k: int)
    requires 0 <= e <= pa * pb && pb > 0 && n * pa < TWO_128 && k == TWO_128 * pb
    ensures 0 <= n * e < k
  {
    MulLe(e, pa * pb, n);
    MulLe(n * pa + 1, TWO_128, pb);
    MulLe(0, e, n);
    Swap(n, pa, pb);
  }

  /** From nm * d' = n * k + ne with 0 <= ne < k and q = floor(n / d'):
      q * k <= nm < (q + 1) * k. */
  lemma Sandwich(nm: int, n: nat, k: int, ne: int, q: int, dp: int)
    requires dp > 0 && k > 0 && 0 <= ne < k && nm * dp == n * k + ne
    requires q * dp <= n < (q + 1) * dp
    ensures q * k <= nm < (q + 1) * k
  {
    MulLe(q * dp, n, k);
    Swap(q, dp, k);
    assert (q * k) * dp <= nm * dp;
    CancelLe(q * k, nm, dp);
    assert nm * dp < (n + 1) * k;
    MulLe(n + 1, (q + 1) * dp, k);
    Swap(q + 1, dp, k);
    assert nm * dp < ((q + 1) * k) * dp;
    CancelLt(nm, (q + 1) * k, dp);
  }

  // ---------------------------------------------------------------------
  // The multiplication

  /** The sum of the four partial products of the shifted dividend and the
      multiplier, with the carry term `t4` gathered from the three low
      halves: the upper 128 bits of the 256-bit product. */
  function MagicMultiplyHigh(nShifted: UInt128, mHigh: u64, mLow: u64): (t: UInt128)
    ensures t.Val() == nShifted.Val() * (mHigh * TWO_64 + mLow) / TWO_128
  {
    var p1 := BigMul(mHigh, nShifted.lower);
    var p2 := BigMul(nShifted.upper, mLow);
    var p3 := BigMul(nShifted.upper, mHigh);
    var p4 := BigMul(nShifted.lower, mLow);
    var upper := Add(Add(UInt128(0, p1.0), UInt128(0, p2.0)), UInt128(p3.0, p3.1));
    var t4 := ShiftRight(Add(Add(UInt128(0, p1.1), UInt128(0, p2.1)), UInt128(0, p4.0)), 64);
    CarryWord(p1.1, p2.1, p4.0, t4);
    UpperValue(nShifted.upper, mHigh, p1.0, p2.0, p3, upper);
    var t := Add(upper, t4);
    PartialProducts(nShifted, mHigh, mLow, p1, p2, p3, p4, upper, t4, t);
    t
  }

  /** The partial products, the sum of the high halves and the carry word
      add up to the upper 128 bits of the product. */
  lemma PartialProducts(nShifted: UInt128, mHigh: u64, mLow: u64, p1: (u64, u64), p2: (u64, u64),
                        p3: (u64, u64), p4: (u64, u64), upper: UInt128, t4: UInt128, t: UInt128)
    requires p1.0 * TWO_64 + p1.1 == mHigh * nShifted.lower
    requires p2.0 * TWO_64 + p2.1 == nShifted.upper * mLow
    requires p3.0 * TWO_64 + p3.1 == nShifted.upper * mHigh
    requires p4.0 * TWO_64 + p4.1 == nShifted.lower * mLow
    requires upper.Val() == p3.0 * TWO_64 + p3.1 + p1.0 + p2.0
    requires t4.Val() == (p1.1 + p2.1 + p4.0) / TWO_64
    requires t == Add(upper, t4)
    ensures t.Val() == nShifted.Val() * (mHigh * TWO_64 + mLow) / TWO_128
  {
    ProductHigh(nShifted.upper, nShifted.lower, mHigh, mLow, nShifted.Val(), mHigh * TWO_64 + mLow,
                p1.0, p1.1, p2.0, p2.1, p3.0 * TWO_64 + p3.1, p4.0, p4.1, upper.Val(), t4.Val(), t.Val());
  }

  /** `upper`: the high product plus the two high halves, which cannot wrap. */
  lemma UpperValue(nh: u64, mh: u64, h1: u64, h2: u64, p3: (u64, u64), upper: UInt128)
    requires p3 == BigMul(nh, mh)
    requires upper == Add(Add(UInt128(0, h1), UInt128(0, h2)), UInt128(p3.0, p3.1))
    ensures upper.Val() == p3.0 * TWO_64 + p3.1 + h1 + h2
  {
    ProductMax(nh, mh);
    UpperSum(h1, h2, p3.0, p3.1, upper);
  }

  /** `t4`: the carry out of the sum of the three low halves. */
  lemma CarryWord(low1: u64, low2: u64, to: u64, t4: UInt128)
    requires t4 == ShiftRight(Add(Add(UInt128(0, low1), UInt128(0, low2)), UInt128(0, to)), 64)
    ensures t4.Val() == (low1 + low2 + to) / TWO_64
  {
    var s1 := Add(UInt128(0, low1), UInt128(0, low2));
    var s2 := Add(s1, UInt128(0, to));
    SmallMod(low1 + low2, TWO_128);
    assert s1.Val() == low1 + low2;
    SmallMod(low1 + low2 + to, TWO_128);
    assert s2.Val() == low1 + low2 + to;
    ShiftRightWord(s2);
    DivMulAdd(s2.upper, s2.lower, TWO_64);
    SmallMod(s2.lower, TWO_64);
  }

  /** `upper`: the two high halves plus the full high product, without wrapping. */
  lemma UpperSum(h1: u64, h2: u64, u3h: u64, u3l: u64, upper: UInt128)
    requires u3h * TWO_64 + u3l <= TWO_128 - 2 * TWO_64 + 1
    requires upper == Add(Add(UInt128(0, h1), UInt128(0, h2)), UInt128(u3h, u3l))
    ensures upper.Val() == u3h * TWO_64 + u3l + h1 + h2
  {
    var p3 := u3h * TWO_64 + u3l;
    assert upper.Val() == ((h1 + h2) % TWO_128 + p3) % TWO_128;
    SmallMod(h1 + h2, TWO_128);
    SmallMod(p3 + h1 + h2, TWO_128);
  }

  lemma ProductHigh(nh: u64, nl: u64, mh: u64, ml: u64, x: int, y: int, h1: u64, low1: u64, h2: u64, low2: u64,
                    p3: int, to: u64, ulow: u64, upper: int, t4: int, t: int)
    requires x == nh * TWO_64 + nl && y == mh * TWO_64 + ml
    requires h1 * TWO_64 + low1 == mh * nl
    requires h2 * TWO_64 + low2 == nh * ml
    requires p3 == nh * mh
    requires to * TWO_64 + ulow == nl * ml
    requires upper == p3 + h1 + h2 && t4 == (low1 + low2 + to) / TWO_64
    requires t == (upper + t4) % TWO_128
    ensures t == x * y / TWO_128
  {
    ProductSplit(nh, nl, mh, ml, x, y, h1, low1, h2, low2, p3, to, ulow);
    HighWord(x * y, upper, low1 + low2 + to, ulow, t4);
    ProductBelow(x, y, TWO_128);
    DivBelow(x * y, TWO_128, TWO_128);
    SmallMod(upper + t4, TWO_128);
  }

  lemma ProductMax(a: int, b: int)
    requires 0 <= a < TWO_64 && 0 <= b < TWO_64
    ensures a * b <= TWO_128 - 2 * TWO_64 + 1
  {
    MulLe(a, TWO_64 - 1, b);
    MulLe(b, TWO_64 - 1, TWO_64 - 1);
  }

  /** Splitting p = hiSum * 2^128 + s * 2^64 + low at 2^128 carries s / 2^64 upward. */
  lemma HighWord(p: int, hiSum: int, s: int, low: int, c: int)
    requires 0 <= s < TWO_128 && 0 <= low < TWO_64 && c == s / TWO_64
    requires p == hiSum * TWO_128 + s * TWO_64 + low
    ensures p / TWO_128 == hiSum + c
  {
    var s0 := s % TWO_64;
    assert s == c * TWO_64 + s0;
    assert s * TWO_64 == c * TWO_128 + s0 * TWO_64;
    MulLe(s0, TWO_64 - 1, TWO_64);
    DivMulAdd(hiSum + c, s0 * TWO_64 + low, TWO_128);
    SmallMod(s0 * TWO_64 + low, TWO_128);
  }

  lemma ProductSplit(nh: int, nl: int, mh: int, ml: int, x: int, y: int, h1: int, low1: int,
                     h2: int, low2: int, p3: int, to: int, ulow: int)
    requires x == nh * TWO_64 + nl && y == mh * TWO_64 + ml
    requires h1 * TWO_64 + low1 == mh * nl && h2 * TWO_64 + low2 == nh * ml
    requires p3 == nh * mh && to * TWO_64 + ulow == nl * ml
    ensures x * y == (p3 + h1 + h2) * TWO_128 + (low1 + low2 + to) * TWO_64 + ulow
  {
    assert x * y == p3 * (TWO_64 * TWO_64) + (mh * nl + nh * ml) * TWO_64 + nl * ml;
    assert TWO_64 * TWO_64 == TWO_128;
  }

  // ---------------------------------------------------------------------
  // The division

  /** `DecDivRem128By128`: the quotient and remainder of the 128-bit value
      nHigh * 2^64 + nLow by 10^digits, by the table entry for `digits`. At
      zero digits every entry is zero, so the quotient is zero and the
      remainder the whole value. */
  function DecDivRem128By128(nHigh: u64, nLow: u64, digits: int): (r: (UInt128, UInt128))
    requires 0 <= digits <= 32
    ensures digits == 0 ==> r == (UInt128(0, 0), UInt128(nHigh, nLow))
    ensures digits > 0 ==>
      r.0.Val() == UInt128(nHigh, nLow).Val() / Pow10(digits) &&
      r.1.Val() == UInt128(nHigh, nLow).Val() % Pow10(digits)
  {
    EntryFacts(digits);
    DivideByEntry(UInt128(nHigh, nLow), digits, GetSh1(digits), GetSh2(digits),
                  GetMHigh(digits), GetMLow(digits), Divisor(digits))
  }

  /** The zero entry is all zeros; every other entry meets the condition
      and sits beside the divisor 10^digits. */
  lemma EntryFacts(digits: int)
    requires 0 <= digits <= 32
    ensures digits == 0 ==> GetSh1(0) == 0 && GetSh2(0) == 0 && GetMHigh(0) == 0 && GetMLow(0) == 0
    ensures digits > 0 ==>
      MagicCondition(digits, GetSh1(digits), GetSh2(digits), GetMHigh(digits) * TWO_64 + GetMLow(digits)) &&
      Divisor(digits).Val() == Pow10(digits)
  {
    if digits > 0 {
      MagicTable(digits);
      DivisorIsPow10(digits);
    }
  }

  /** Pre-shift by sh1, multiply-high by m = mHigh * 2^64 + mLow, post-shift
      by sh2, and take the remainder by wrapping subtraction of the product
      with the divisor. With an all-zero entry the quotient is zero and the
      remainder the dividend; with an entry meeting the condition for
      `digits` and the divisor 10^digits, they are the true quotient and
      remainder. */
  function DivideByEntry(n: UInt128, digits: int, sh1: nat, sh2: nat, mHigh: u64, mLow: u64, divisor: UInt128)
    : (r: (UInt128, UInt128))
    ensures digits == 0 && sh1 == 0 && sh2 == 0 && mHigh == 0 && mLow == 0 ==> r == (UInt128(0, 0), n)
    ensures 1 <= digits <= 32 && sh1 <= digits && sh2 < 128 && MagicCondition(digits, sh1, sh2, mHigh * TWO_64 + mLow) &&
            divisor.Val() == Pow10(digits) ==>
      r.0.Val() == n.Val() / Pow10(digits) && r.1.Val() == n.Val() % Pow10(digits)
  {
    var nShifted := ShiftRight(n, sh1);
    var t := MagicMultiplyHigh(nShifted, mHigh, mLow);
    var q := ShiftRight(t, sh2);
    var rem := Sub(n, Mul(q, divisor));
    EntrySteps(n, digits, sh1, sh2, mHigh, mLow, divisor, nShifted, t, q, rem);
    (q, rem)
  }

  /** The two cases of `DivideByEntry`, from the value of each step. */
  lemma EntrySteps(n: UInt128, digits: int, sh1: nat, sh2: nat, mHigh: u64, mLow: u64, divisor: UInt128,
                   nShifted: UInt128, t: UInt128, q: UInt128, rem: UInt128)
    requires nShifted == ShiftRight(n, sh1) && t == MagicMultiplyHigh(nShifted, mHigh, mLow)
    requires q == ShiftRight(t, sh2) && rem == Sub(n, Mul(q, divisor))
    ensures digits == 0 && sh1 == 0 && sh2 == 0 && mHigh == 0 && mLow == 0 ==> q == UInt128(0, 0) && rem == n
    ensures 1 <= digits <= 32 && sh1 <= digits && sh2 < 128 && MagicCondition(digits, sh1, sh2, mHigh * TWO_64 + mLow) &&
            divisor.Val() == Pow10(digits) ==>
      q.Val() == n.Val() / Pow10(digits) && rem.Val() == n.Val() % Pow10(digits)
  {
    ShiftValue(n, sh1, nShifted);
    MultiplyHighValue(nShifted, mHigh, mLow, t);
    ShiftValue(t, sh2, q);
    WrappedRemainder(n, q, divisor, rem);
    EntryValues(n, digits, sh1, sh2, mHigh, mLow, divisor, Mul(q, divisor).Val(), nShifted, t, q, rem);
  }

  /** `EntrySteps` on the values of the steps alone. */
  lemma EntryValues(n: UInt128, digits: int, sh1: nat, sh2: nat, mHigh: u64, mLow: u64, divisor: UInt128, qd: int,
                    nShifted: UInt128, t: UInt128, q: UInt128, rem: UInt128)
    requires nShifted.Val() == n.Val() / Pow2(sh1 % 128)
    requires t.Val() == nShifted.Val() * (mHigh * TWO_64 + mLow) / TWO_128
    requires q.Val() == t.Val() / Pow2(sh2 % 128)
    requires qd == (q.Val() * divisor.Val()) % TWO_128 && rem.Val() == (n.Val() - qd) % TWO_128
    ensures digits == 0 && sh1 == 0 && sh2 == 0 && mHigh == 0 && mLow == 0 ==> q == UInt128(0, 0) && rem == n
    ensures 1 <= digits <= 32 && sh1 <= digits && sh2 < 128 && MagicCondition(digits, sh1, sh2, mHigh * TWO_64 + mLow) &&
            divisor.Val() == Pow10(digits) ==>
      q.Val() == n.Val() / Pow10(digits) && rem.Val() == n.Val() % Pow10(digits)
  {
    if digits == 0 && sh1 == 0 && sh2 == 0 && mHigh == 0 && mLow == 0 {
      ZeroDigits(n, nShifted, t, q, rem, sh1, sh2, mHigh * TWO_64 + mLow, divisor.Val(), qd);
    }
    if 1 <= digits <= 32 && sh1 <= digits && sh2 < 128 && MagicCondition(digits, sh1, sh2, mHigh * TWO_64 + mLow) &&
       divisor.Val() == Pow10(digits) {
      MagicQuotient(n, digits, nShifted, t, q, rem, sh1, sh2, mHigh * TWO_64 + mLow, divisor.Val(), qd);
    }
  }

  lemma ShiftValue(v: UInt128, amount: int, r: UInt128)
    requires r == ShiftRight(v, amount)
    ensures r.Val() == v.Val() / Pow2(amount % 128)
  {
  }

  /** The value facts of the steps, taken from their calls one at a time. */
  lemma MultiplyHighValue(nShifted: UInt128, mHigh: u64, mLow: u64, t: UInt128)
    requires t == MagicMultiplyHigh(nShifted, mHigh, mLow)
    ensures t.Val() == nShifted.Val() * (mHigh * TWO_64 + mLow) / TWO_128
  {
  }

  lemma WrappedRemainder(n: UInt128, q: UInt128, divisor: UInt128, rem: UInt128)
    requires rem == Sub(n, Mul(q, divisor))
    ensures Mul(q, divisor).Val() == (q.Val() * divisor.Val()) % TWO_128
    ensures rem.Val() == (n.Val() - Mul(q, divisor).Val()) % TWO_128
  {
  }

  /** With the all-zero entry the steps give quotient 0 and the whole value
      as remainder. */
  lemma ZeroDigits(n: UInt128, nShifted: UInt128, t: UInt128, q: UInt128, rem: UInt128,
                  a: nat, b: nat, m: nat, dv: nat, qd: int)
    requires a == 0 && b == 0 && m == 0
    requires nShifted.Val() == n.Val() / Pow2(a % 128)
    requires t.Val() == nShifted.Val() * m / TWO_128
    requires q.Val() == t.Val() / Pow2(b % 128)
    requires qd == (q.Val() * dv) % TWO_128 && rem.Val() == (n.Val() - qd) % TWO_128
    ensures q == UInt128(0, 0) && rem == n
  {
    assert Pow2(a % 128) == 1 && Pow2(b % 128) == 1;
    var v := n.Val();
    assert nShifted.Val() == v;
    assert t.Val() == 0;
    ValInjective(q, UInt128(0, 0));
    SmallMod(v, TWO_128);
    ValInjective(rem, n);
  }

  /** Pre-shift, multiply-high and post-shift by an entry meeting the
      condition give the quotient, and the wrapping subtraction the remainder. */
  lemma MagicQuotient(n: UInt128, digits: nat, nShifted: UInt128, t: UInt128, q: UInt128, rem: UInt128,
                      a: nat, b: nat, m: nat, dv: nat, qd: int)
    requires a <= digits <= 32 && b < 128 && MagicCondition(digits, a, b, m) && dv == Pow10(digits)
    requires nShifted.Val() == n.Val() / Pow2(a % 128)
    requires t.Val() == nShifted.Val() * m / TWO_128
    requires q.Val() == t.Val() / Pow2(b % 128)
    requires qd == (q.Val() * dv) % TWO_128 && rem.Val() == (n.Val() - qd) % TWO_128
    ensures q.Val() == n.Val() / Pow10(digits) && rem.Val() == n.Val() % Pow10(digits)
  {
    var N := n.Val();
    var pa, pb := Pow2(a), Pow2(b);
    var dp := Pow5(digits) * Pow2(digits - a);
    PowersOfEntry(digits, a, b, m, pa, pb, dp);
    var ns, tv := nShifted.Val(), t.Val();
    SmallMod(a, 128);
    SmallMod(b, 128);
    assert ns == N / pa;
    assert q.Val() == tv / pb;
    DivDiv(ns * m, TWO_128, pb);
    DivBounds(N, pa);
    InvariantDivision(ns, m, dp, pa, pb);
    DivDiv(N, pa, dp);
    assert q.Val() == N / dv;
    Remainder(N, dv, q.Val(), qd, rem.Val());
  }

  /** The entry's powers of two and the shifted divisor, as plain numbers. */
  lemma PowersOfEntry(digits: nat, a: nat, b: nat, m: nat, pa: nat, pb: nat, dp: int)
    requires MagicCondition(digits, a, b, m)
    requires pa == Pow2(a) && pb == Pow2(b)
    requires dp == Pow5(digits) * Pow2(digits - a)
    ensures a <= digits && dp > 0 && pa * dp == Pow10(digits)
    ensures TWO_128 * pb <= m * dp <= TWO_128 * pb + pa * pb
  {
    Pow2BySquaringIsPow2(a);
    Pow2BySquaringIsPow2(b);
    Pow2BySquaringIsPow2(digits - a);
    Pow5BySquaringIsPow5(digits);
    ShiftedDivisor(digits, a, pa, dp);
  }

  /** 10^digits = 2^a * (5^digits * 2^(digits - a)). */
  lemma ShiftedDivisor(digits: nat, a: nat, pa: nat, dp: int)
    requires a <= digits && pa == Pow2(a) && dp == Pow5(digits) * Pow2(digits - a)
    ensures dp > 0 && pa * dp == Pow10(digits)
  {
    var p5, p2 := Pow5(digits), Pow2(digits - a);
    Pow5Positive(digits);
    MulLe(1, p2, p5);
    Pow10Split(digits);
    Pow2Add(a, digits - a);
    assert Pow10(digits) == (pa * p2) * p5;
    Swap(pa, p2, p5);
  }

  lemma {:induction false} Pow5Positive(n: nat)
    ensures Pow5(n) > 0
  {
    if n > 0 {
      Pow5Positive(n - 1);
    }
  }

  /** The wrapping n - q * D is the remainder once q is the quotient. */
  lemma Remainder(n: nat, d: nat, q: nat, qd: int, rem: int)
    requires 0 < d && n < TWO_128 && q == n / d
    requires qd == (q * d) % TWO_128 && rem == (n - qd) % TWO_128
    ensures rem == n % d
  {
    DivBounds(n, d);
    SmallMod(q * d, TWO_128);
    SmallMod(n - q * d, TWO_128);
  }

  /** The division with the zero-digit case handled: dividing by 10^0 = 1
      gives the value itself and no remainder. */
  function DecDivRemCorrected(nHigh: u64, nLow: u64, digits: int): (r: (UInt128, UInt128))
    requires 0 <= digits <= 32
    ensures r.0.Val() == UInt128(nHigh, nLow).Val() / Pow10(digits)
    ensures r.1.Val() == UInt128(nHigh, nLow).Val() % Pow10(digits)
  {
    if digits == 0 then
      (UInt128(nHigh, nLow), UInt128(0, 0))
    else
      DecDivRem128By128(nHigh, nLow, digits)
  }
}
