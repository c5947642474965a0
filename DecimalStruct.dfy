/** The bit-level view of a host decimal: its 16 bytes, little-endian, read
    through fields at fixed byte offsets. The flags word sits at offset 0
    (scale in bits 16..23, sign in bit 31); the 96-bit magnitude is a
    32-bit word at offset 4 above a 64-bit word at offset 8. Two more
    fields overlay the same bytes: a 64-bit word at offset 4 and a 32-bit
    word at offset 12. */
module DecimalStruct {
  import opened Machine
  import opened Rounding

  /** The 16 bytes of a decimal. */
  type DecimalBytes = b: seq<u8> | |b| == 16 witness [0, 0, 0, 0, 0, 0, 0, 0, 0, 0, 0, 0, 0, 0, 0, 0]

  /** The unsigned number a little-endian byte sequence stands for. */
  function ReadLE(s: seq<u8>): (r: nat)
    ensures r < Pow2(8 * |s|)
  {
    if |s| == 0 then 0
    else
      var rest := ReadLE(s[1..]);
      Pow2Add(8, 8 * (|s| - 1));
      Pow2Is8();
      MulLe(rest + 1, Pow2(8 * (|s| - 1)), TWO_8);
      s[0] + TWO_8 * rest
  }

  /** The `n` bytes of x, least significant first. */
  function WriteLE(x: nat, n: nat): (r: seq<u8>)
    ensures |r| == n
  {
    if n == 0 then [] else [x % TWO_8] + WriteLE(x / TWO_8, n - 1)
  }

  /** Writing then reading gives the number back, when it fits. */
  lemma {:induction false} ReadWriteLE(x: nat, n: nat)
    requires x < Pow2(8 * n)
    ensures ReadLE(WriteLE(x, n)) == x
  {
    if n > 0 {
      var w := WriteLE(x, n);
      assert w[1..] == WriteLE(x / TWO_8, n - 1);
      Pow2Add(8, 8 * (n - 1));
      Pow2Is8();
      DivBelow(x, TWO_8, Pow2(8 * (n - 1)));
      ReadWriteLE(x / TWO_8, n - 1);
    }
  }

  /** Reading a concatenation: the second part sits above the first. */
  lemma {:induction false} ReadLEAppend(s: seq<u8>, t: seq<u8>)
    ensures ReadLE(s + t) == ReadLE(s) + Pow2(8 * |s|) * ReadLE(t)
  {
    if |s| > 0 {
      var rest := s[1..];
      assert (s + t)[1..] == rest + t && (s + t)[0] == s[0];
      ReadLEAppend(rest, t);
      assert 8 * |s| == 8 + 8 * |rest|;
      Pow2Add(8, 8 * |rest|);
      Pow2Is8();
      Regroup(s[0], ReadLE(rest + t), ReadLE(rest), Pow2(8 * |rest|), ReadLE(t));
    } else {
      assert s + t == t;
    }
  }

  /** One step of the induction above, on plain numbers: with u = a + p*b,
      the byte x below 256*u is x + 256*a below (256*p)*b. */
  lemma Regroup(x: int, u: int, a: int, p: int, b: int)
    requires u == a + p * b
    ensures x + TWO_8 * u == (x + TWO_8 * a) + (TWO_8 * p) * b
  {
  }

  // ---------------------------------------------------------------------
  // The fields, at their byte offsets

  /** `_flags`, the signed 32-bit word at offset 0. */
  function Flags(d: DecimalBytes): i32
  {
    ToInt32(ReadLE(d[0..4]))
  }

  /** `_high32` at offset 4. */
  function High32(d: DecimalBytes): u32
  {
    Pow2Is32();
    ReadLE(d[4..8])
  }

  /** `_low64` at offset 8. */
  function Low64(d: DecimalBytes): u64
  {
    Pow2Is64();
    ReadLE(d[8..16])
  }

  /** `_high64` at offset 4, overlapping `_high32` and the low half of `_low64`. */
  function High64(d: DecimalBytes): u64
  {
    Pow2Is64();
    ReadLE(d[4..12])
  }

  /** `_low32` at offset 12, overlapping the high half of `_low64`. */
  function Low32(d: DecimalBytes): u32
  {
    Pow2Is32();
    ReadLE(d[12..16])
  }

  /** `Scale`: `(byte)(_flags >> 16)`, an arithmetic shift then a truncation
      to the low eight bits. */
  function Scale(d: DecimalBytes): u8
  {
    (Flags(d) / TWO_16) % TWO_8
  }

  /** `Negative`: the flags word is negative. */
  predicate Negative(d: DecimalBytes)
  {
    Flags(d) < 0
  }

  // ---------------------------------------------------------------------
  // What the accessors mean for the bytes

  /** The scale is byte 2 and the sign is the top bit of byte 3. */
  lemma ScaleAndSign(d: DecimalBytes)
    ensures Scale(d) == d[2]
    ensures Negative(d) <==> d[3] >= 128
  {
    FourBytes(d[0..4]);
    FlagsBytes(d[0], d[1], d[2], d[3], ReadLE(d[0..4]));
  }

  /** The flags word from its four bytes: the scale byte and the sign bit. */
  lemma FlagsBytes(b0: u8, b1: u8, b2: u8, b3: u8, raw: int)
    requires raw == b0 + TWO_8 * b1 + TWO_16 * b2 + (TWO_16 * TWO_8) * b3
    ensures (ToInt32(raw) / TWO_16) % TWO_8 == b2
    ensures ToInt32(raw) < 0 <==> b3 >= 128
  {
    var low := b0 + TWO_8 * b1;
    if raw < TWO_31 {
      DivMulAdd(b2 + TWO_8 * b3, low, TWO_16);
      SmallMod(low, TWO_16);
      DivMulAdd(b3, b2, TWO_8);
      SmallMod(b2, TWO_8);
    } else {
      assert ToInt32(raw) == raw - TWO_32;
      DivMulAdd(b2 + TWO_8 * (b3 - TWO_8), low, TWO_16);
      SmallMod(low, TWO_16);
      DivMulAdd(b3 - TWO_8, b2, TWO_8);
      SmallMod(b2, TWO_8);
    }
  }

  lemma FourBytes(s: seq<u8>)
    requires |s| == 4
    ensures ReadLE(s) == s[0] + TWO_8 * s[1] + TWO_16 * s[2] + (TWO_16 * TWO_8) * s[3]
  {
    var s1, s2, s3 := s[1..], s[2..], s[3..];
    assert s1[1..] == s2 && s2[1..] == s3 && s3[1..] == [];
    assert ReadLE(s3) == s[3];
    assert ReadLE(s2) == s[2] + TWO_8 * s[3];
    assert ReadLE(s1) == s[1] + TWO_8 * s[2] + TWO_16 * s[3];
  }

  /** The overlapping fields rearrange the same bytes: `_high64` is
      `_high32` below the low half of `_low64`, and `_low32` is the high
      half of `_low64`. */
  lemma OverlappingFields(d: DecimalBytes)
    ensures High64(d) == High32(d) + TWO_32 * (Low64(d) % TWO_32)
    ensures Low32(d) == Low64(d) / TWO_32
  {
    TwoWords(d, 4);
    TwoWords(d, 8);
    Pow2Is32();
    OverlapArith(High64(d), High32(d), Low64(d), ReadLE(d[8..12]), ReadLE(d[12..16]));
  }

  lemma OverlapArith(h64: int, h32: int, l64: int, w2: int, w3: int)
    requires h64 == h32 + TWO_32 * w2 && l64 == w2 + TWO_32 * w3 && 0 <= w2 < TWO_32
    ensures h64 == h32 + TWO_32 * (l64 % TWO_32) && w3 == l64 / TWO_32
  {
    DivModUnique(l64, TWO_32, w3, w2);
  }

  /** Eight bytes read as two 32-bit words, the lower one first. */
  lemma TwoWords(d: DecimalBytes, i: nat)
    requires i + 8 <= 16
    ensures ReadLE(d[i..i + 8]) == ReadLE(d[i..i + 4]) + TWO_32 * ReadLE(d[i + 4..i + 8])
  {
    assert d[i..i + 8] == d[i..i + 4] + d[i + 4..i + 8];
    ReadLEAppend(d[i..i + 4], d[i + 4..i + 8]);
    Pow2Is32();
  }

  /** The magnitude `_high32 * 2^64 + _low64` is a 96-bit number made of
      bytes 4..15, and reading it changes nothing. */
  lemma Magnitude(d: DecimalBytes)
    ensures High32(d) * TWO_64 + Low64(d) == ReadLE(d[8..16]) + TWO_64 * ReadLE(d[4..8]) < TWO_96
  {
    MulLe(High32(d), TWO_32 - 1, TWO_64);
  }

  // ---------------------------------------------------------------------
  // Building a decimal

  /** A scale the host decimal accepts. */
  const MaxScale: int := 28

  /** The bytes `new decimal(lo, mid, hi, isNegative, scale)` lays out: the
      flags word with the scale in bits 16..23 and the sign in bit 31, then
      `hi` at offset 4, `lo` at offset 8 and `mid` at offset 12. */
  function MakeDecimal(lo: u32, mid: u32, hi: u32, negative: bool, scale: u8): (d: DecimalBytes)
    requires scale <= MaxScale
  {
    var flags := scale * TWO_16 + (if negative then TWO_31 else 0);
    WriteLE(flags, 4) + WriteLE(hi, 4) + WriteLE(lo, 4) + WriteLE(mid, 4)
  }

  /** Reading the fields of a built decimal gives back what went in. */
  lemma MakeDecimalFields(lo: u32, mid: u32, hi: u32, negative: bool, scale: u8)
    requires scale <= MaxScale
    ensures Scale(MakeDecimal(lo, mid, hi, negative, scale)) == scale
    ensures Negative(MakeDecimal(lo, mid, hi, negative, scale)) == negative
    ensures High32(MakeDecimal(lo, mid, hi, negative, scale)) == hi
    ensures Low64(MakeDecimal(lo, mid, hi, negative, scale)) == lo + TWO_32 * mid
    ensures High64(MakeDecimal(lo, mid, hi, negative, scale)) == hi + TWO_32 * lo
    ensures Low32(MakeDecimal(lo, mid, hi, negative, scale)) == mid
  {
    var d := MakeDecimal(lo, mid, hi, negative, scale);
    var flags := scale * TWO_16 + (if negative then TWO_31 else 0);
    MakeDecimalWords(lo, mid, hi, flags, d);
    FlagsWord(scale, negative, flags);
    TwoWords(d, 4);
    TwoWords(d, 8);
  }

  /** Each 32-bit word of a built decimal reads back as written. */
  lemma MakeDecimalWords(lo: u32, mid: u32, hi: u32, flags: nat, d: DecimalBytes)
    requires flags < TWO_32 && d == WriteLE(flags, 4) + WriteLE(hi, 4) + WriteLE(lo, 4) + WriteLE(mid, 4)
    ensures ReadLE(d[0..4]) == flags && ReadLE(d[4..8]) == hi && ReadLE(d[8..12]) == lo && ReadLE(d[12..16]) == mid
  {
    Pow2Is32();
    ReadWriteLE(flags, 4);
    ReadWriteLE(hi, 4);
    ReadWriteLE(lo, 4);
    ReadWriteLE(mid, 4);
    Quarters(WriteLE(flags, 4), WriteLE(hi, 4), WriteLE(lo, 4), WriteLE(mid, 4));
  }

  lemma Quarters(a: seq<u8>, b: seq<u8>, c: seq<u8>, e: seq<u8>)
    requires |a| == |b| == |c| == |e| == 4
    ensures (a + b + c + e)[0..4] == a && (a + b + c + e)[4..8] == b
    ensures (a + b + c + e)[8..12] == c && (a + b + c + e)[12..16] == e
  {
  }

  /** The flags word the constructor builds decodes to its scale and sign. */
  lemma FlagsWord(scale: u8, negative: bool, flags: nat)
    requires scale <= MaxScale && flags == scale * TWO_16 + (if negative then TWO_31 else 0)
    ensures flags < TWO_32
    ensures (ToInt32(flags) / TWO_16) % TWO_8 == scale
    ensures ToInt32(flags) < 0 <==> negative
  {
    var f := ToInt32(flags);
    SmallMod(flags, TWO_32);
    if negative {
      assert f == scale * TWO_16 - TWO_31;
      assert f == (scale - 32768) * TWO_16;
      DivMulAdd(scale - 32768, 0, TWO_16);
      DivMulAdd(-128, scale, TWO_8);
    } else {
      DivMulAdd(scale, 0, TWO_16);
    }
  }

  // ---------------------------------------------------------------------
  // What a decimal stands for

  /** The 96-bit coefficient, `_high32 * 2^64 + _low64`. */
  function Coefficient(d: DecimalBytes): (m: nat)
    ensures m < TWO_96
  {
    Magnitude(d);
    High32(d) * TWO_64 + Low64(d)
  }

  /** The number a decimal stands for: the signed coefficient over 10^scale. */
  ghost function DecimalValue(d: DecimalBytes): real
  {
    Signed(Coefficient(d), Negative(d)) as real / Pow10(Scale(d)) as real
  }

  /** The coefficient brought to `digits` fractional digits: scaled up
      exactly when the decimal has no more digits than that, otherwise
      divided down and rounded half to even. */
  function Rescaled(d: DecimalBytes, digits: nat): nat
  {
    Rescale(Coefficient(d), Scale(d), digits, Negative(d))
  }

  /** A coefficient `m` at `scale` brought to `digits` fractional digits. */
  function Rescale(m: nat, scale: nat, digits: nat, negative: bool): nat
  {
    if scale <= digits then m * Pow10(digits - scale)
    else RoundedQuotient(m, Pow10(scale - digits), negative, ToEven)
  }

  /** Scaling up keeps the number exactly; scaling down rounds it correctly
      half to even. */
  lemma RescaledIsCorrect(d: DecimalBytes, digits: nat)
    ensures Scale(d) <= digits ==>
      Signed(Rescaled(d, digits), Negative(d)) as real / Pow10(digits) as real == DecimalValue(d)
    ensures Scale(d) > digits ==>
      CorrectlyRounded(Coefficient(d), Pow10(Scale(d) - digits), Negative(d), ToEven, Rescaled(d, digits))
  {
    var m, s := Coefficient(d), Scale(d);
    if s <= digits {
      var k := digits - s;
      Pow10Add(k, s);
      assert k + s == digits;
      var v := Signed(m, Negative(d));
      assert Signed(m * Pow10(k), Negative(d)) == v * Pow10(k) by {
        MulNeg(m, Pow10(k));
      }
      ScaledNumber(v, Pow10(k), Pow10(s));
    } else {
      RoundedQuotientIsCorrect(m, Pow10(s - digits), Negative(d), ToEven);
    }
  }
}
