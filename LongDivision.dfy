/** The schoolbook division of a 128-bit unsigned integer by a 64-bit one
    (`UInt128.DivideSlow` and its helpers `SubtractDivisor`, `AddDivisor`
    and `DivideGuessTooBig`, with `operator /` and `DivRem` on top).
    Numbers are held as little-endian arrays of 32-bit limbs, exactly as the
    C# code lays them out on the stack. */
module LongDivision {
  import opened Machine
  import opened Outcome
  import opened U128

  // ---------------------------------------------------------------------
  // Limb sequences

  /** The weight of limb `k`: (2^32)^k. */
  function Base(k: nat): (r: nat)
    ensures r >= 1
  {
    if k == 0 then 1 else TWO_32 * Base(k - 1)
  }

  /** The number a little-endian sequence of 32-bit limbs stands for. */
  function LimbsVal(s: seq<u32>): nat
  {
    if |s| == 0 then 0 else s[0] + TWO_32 * LimbsVal(s[1..])
  }

  lemma {:induction false} BaseIsPow2(k: nat)
    ensures Base(k) == Pow2(32 * k)
  {
    if k > 0 {
      BaseIsPow2(k - 1);
      Pow2Is32();
      Pow2Add(32, 32 * (k - 1));
    }
  }

  lemma {:induction false} BaseAdd(a: nat, b: nat)
    ensures Base(a + b) == Base(a) * Base(b)
  {
    if a > 0 {
      BaseAdd(a - 1, b);
      assert Base(a + b) == TWO_32 * Base(a - 1 + b);
      assert Base(a) == TWO_32 * Base(a - 1);
      Associate(TWO_32, Base(a - 1), Base(b));
    }
  }

  lemma {:induction false} LimbsValBound(s: seq<u32>)
    ensures LimbsVal(s) < Base(|s|)
  {
    if |s| > 0 {
      LimbsValBound(s[1..]);
    }
  }

  lemma Associate(x: int, y: int, z: int)
    ensures x * (y * z) == (x * y) * z
  {
  }

  lemma Commute(x: int, y: int)
    ensures x * y == y * x
  {
  }

  lemma Distribute(k: int, x: int, b: int, y: int)
    ensures k * (x + b * y) == k * x + (k * b) * y
  {
  }

  lemma {:induction false} LimbsValAppend(s: seq<u32>, t: seq<u32>)
    ensures LimbsVal(s + t) == LimbsVal(s) + Base(|s|) * LimbsVal(t)
  {
    if |s| > 0 {
      assert (s + t)[1..] == s[1..] + t;
      LimbsValAppend(s[1..], t);
      var B := Base(|s| - 1);
      var x, y := LimbsVal(s[1..]), LimbsVal(t);
      assert LimbsVal(s + t) == s[0] + TWO_32 * (x + B * y);
      assert Base(|s|) == TWO_32 * B;
      Distribute(TWO_32, x, B, y);
    } else {
      assert s + t == t;
    }
  }

  lemma LimbsValSnoc(s: seq<u32>, x: u32)
    ensures LimbsVal(s + [x]) == LimbsVal(s) + Base(|s|) * x
    ensures Base(|s| + 1) == TWO_32 * Base(|s|)
  {
    LimbsValAppend(s, [x]);
    assert LimbsVal([x]) == x + TWO_32 * LimbsVal([]);
  }

  /** `x >> 32` on a ulong is its high word. */
  lemma Shr64By32(x: u64)
    ensures Shr64(x, 32) == x / TWO_32 < TWO_32
  {
    Pow2Is32();
    DivBelow(x, TWO_32, TWO_32);
  }

  /** Splitting a limb sequence at `k` splits its value at weight Base(k). */
  lemma LimbsValSplit(s: seq<u32>, k: nat)
    requires k <= |s|
    ensures LimbsVal(s) == LimbsVal(s[..k]) + Base(k) * LimbsVal(s[k..])
  {
    assert s == s[..k] + s[k..];
    LimbsValAppend(s[..k], s[k..]);
  }

  /** A limb sequence stands for zero exactly when every limb is zero. */
  lemma {:induction false} LimbsValZero(s: seq<u32>)
    ensures LimbsVal(s) == 0 <==> forall j :: 0 <= j < |s| ==> s[j] == 0
  {
    if |s| > 0 {
      LimbsValZero(s[1..]);
      if LimbsVal(s) == 0 {
        forall j | 0 <= j < |s| ensures s[j] == 0 {
          if j > 0 { assert s[j] == s[1..][j - 1]; }
        }
      }
      if forall j :: 0 <= j < |s| ==> s[j] == 0 {
        assert forall j :: 0 <= j < |s| - 1 ==> s[1..][j] == 0 by {
          forall j | 0 <= j < |s| - 1 ensures s[1..][j] == 0 {
            assert s[1..][j] == s[j + 1];
          }
        }
      }
    }
  }

  // ---------------------------------------------------------------------
  // SubtractDivisor: left[start..start + |right|] -= q * right

  /** One limb of `SubtractDivisor`: subtracts the low word of
      `carry + r * q` from the limb `l`, and returns the new limb and the new
      carry (the high word plus one if the subtraction borrowed). */
  function MulSubLimb(l: u32, r: u32, q: u64, carry: u64): (res: (u32, u64))
    requires carry <= q <= 0xFFFF_FFFF
    ensures res.0 + q * r == l + res.1 * TWO_32 - carry
    ensures res.1 <= q
  {
    MulSubLimbArith(carry, r, q);
    var sum: u64 := (carry + r * q) % TWO_64;
    var digit: u32 := sum % TWO_32;
    Shr64By32(sum);
    var high: u64 := Shr64(sum, 32);
    var borrow := if l < digit then 1 else 0;
    DivModUnique(l - digit, TWO_32, -borrow, l - digit + borrow * TWO_32);
    ((l - digit) % TWO_32, high + borrow)
  }

  /** The product-and-carry of `MulSubLimb` does not wrap, and its high word
      is at most `q`, and exactly `q` only when the low word is zero. */
  lemma MulSubLimbArith(c: int, r: int, q: int)
    requires 0 <= c <= q < TWO_32 && 0 <= r < TWO_32
    ensures (c + r * q) % TWO_64 == c + r * q
    ensures (c + r * q) / TWO_32 <= q
    ensures (c + r * q) / TWO_32 == q ==> (c + r * q) % TWO_32 == 0
  {
    var rq := r * q;
    MulLe(r, TWO_32 - 1, q);
    assert rq <= TWO_32 * q - q;
    var prod := c + rq;
    assert prod <= TWO_32 * q < TWO_64;
    SmallMod(prod, TWO_64);
    var c1, digit := prod / TWO_32, prod % TWO_32;
    assert prod == c1 * TWO_32 + digit;
  }


  lemma SubtractRing(V: int, R: int, L: int, B: int, c: int, c2: int, oldL: int, newL: int, q: int, r: int,
                      V1: int, R1: int, L1: int, B1: int)
    requires V + q * R == L + c * B
    requires newL + q * r == oldL + c2 * TWO_32 - c
    requires V1 == V + B * newL && R1 == R + B * r && L1 == L + B * oldL && B1 == TWO_32 * B
    ensures V1 + q * R1 == L1 + c2 * B1
  {
    calc {
      (V + B * newL) + q * (R + B * r);
      V + q * R + B * (newL + q * r);
      L + c * B + B * (oldL + c2 * TWO_32 - c);
      (L + B * oldL) + c2 * (TWO_32 * B);
    }
  }

  /** The sum identity `SubtractDivisor` keeps, carried over one more limb. */
  lemma SubtractStep(V: seq<u32>, R: seq<u32>, L: seq<u32>, c: int, c2: int, oldL: u32, newL: u32, q: int, r: u32)
    requires |V| == |R| == |L|
    requires LimbsVal(V) + q * LimbsVal(R) == LimbsVal(L) + c * Base(|V|)
    requires newL + q * r == oldL + c2 * TWO_32 - c
    ensures LimbsVal(V + [newL]) + q * LimbsVal(R + [r]) == LimbsVal(L + [oldL]) + c2 * Base(|V| + 1)
  {
    LimbsValSnoc(V, newL);
    LimbsValSnoc(R, r);
    LimbsValSnoc(L, oldL);
    SubtractRing(LimbsVal(V), LimbsVal(R), LimbsVal(L), Base(|V|), c, c2, oldL, newL, q, r,
      LimbsVal(V + [newL]), LimbsVal(R + [r]), LimbsVal(L + [oldL]), Base(|V| + 1));
  }

  /** What `SubtractDivisor` keeps after `i` limbs: the limbs outside the
      processed part of the slice are untouched, and the processed part plus
      `q` times the processed divisor limbs equals the original part plus the
      carry at weight Base(i). */
  ghost predicate SubtractInvariant(cur: seq<u32>, L0: seq<u32>, R: seq<u32>, start: nat, i: nat, q: int, carry: int)
  {
    |cur| == |L0| && start + i <= |cur| && i <= |R|
    && (forall j :: 0 <= j < |cur| && !(start <= j < start + i) ==> cur[j] == L0[j])
    && LimbsVal(cur[start..start + i]) + q * LimbsVal(R[..i]) == LimbsVal(L0[start..start + i]) + carry * Base(i)
  }

  lemma SubtractInvariantStep(cur: seq<u32>, L0: seq<u32>, R: seq<u32>, start: nat, i: nat, q: int, c: int, c2: int, newL: u32)
    requires SubtractInvariant(cur, L0, R, start, i, q, c)
    requires start + i < |cur| && i < |R|
    requires newL + q * R[i] == cur[start + i] + c2 * TWO_32 - c
    ensures SubtractInvariant(cur[start + i := newL], L0, R, start, i + 1, q, c2)
  {
    var nxt := cur[start + i := newL];
    assert nxt[start..start + i + 1] == cur[start..start + i] + [newL];
    assert L0[start..start + i + 1] == L0[start..start + i] + [cur[start + i]];
    assert R[..i + 1] == R[..i] + [R[i]];
    SubtractStep(cur[start..start + i], R[..i], L0[start..start + i], c, c2, cur[start + i], newL, q, R[i]);
  }

  /** `left[start..]` -= `q` * `right[..rightLen]`, limb by limb; the
      returned borrow is what the subtraction took beyond the slice. */
  method SubtractDivisor(left: array<u32>, start: nat, right: array<u32>, rightLen: nat, q: u64) returns (borrow: u32)
    requires left != right
    requires start + rightLen <= left.Length && rightLen <= right.Length
    requires q <= 0xFFFF_FFFF
    modifies left
    ensures forall j :: 0 <= j < left.Length && !(start <= j < start + rightLen) ==> left[j] == old(left[j])
    ensures LimbsVal(left[start..start + rightLen]) + q * LimbsVal(right[..rightLen])
         == LimbsVal(old(left[start..start + rightLen])) + borrow * Base(rightLen)
    ensures borrow <= q
  {
    ghost var L0 := left[..];
    var carry: u64 := 0;
    var i := 0;
    assert right[..rightLen][..0] == [];
    while i < rightLen
      invariant 0 <= i <= rightLen && carry <= q
      invariant SubtractInvariant(left[..], L0, right[..rightLen], start, i, q, carry)
    {
      ghost var cur := left[..];
      var step := MulSubLimb(left[start + i], right[i], q, carry);
      left[start + i] := step.0;
      SubtractInvariantStep(cur, L0, right[..rightLen], start, i, q, carry, step.1, step.0);
      carry := step.1;
      assert left[..] == cur[start + i := step.0];
      i := i + 1;
    }
    assert right[..rightLen][..rightLen] == right[..rightLen];
    borrow := carry;
  }

  // ---------------------------------------------------------------------
  // AddDivisor: left[start..start + |right|] += right

  lemma AddRing(V: int, R: int, L: int, B: int, c: int, c2: int, oldL: int, newL: int, r: int,
                 V1: int, R1: int, L1: int, B1: int)
    requires V + c * B == L + R
    requires newL + c2 * TWO_32 == oldL + c + r
    requires V1 == V + B * newL && R1 == R + B * r && L1 == L + B * oldL && B1 == TWO_32 * B
    ensures V1 + c2 * B1 == L1 + R1
  {
    calc {
      (V + B * newL) + c2 * (TWO_32 * B);
      V + B * (newL + c2 * TWO_32);
      V + B * (oldL + c + r);
      (V + c * B) + B * oldL + B * r;
    }
  }

  /** One limb of `AddDivisor`: the limb plus the carry plus `r`, split
      into the new limb and the new carry. */
  function AddLimb(l: u32, r: u32, carry: u64): (res: (u32, u64))
    requires carry <= 1
    ensures res.0 + res.1 * TWO_32 == l + carry + r
    ensures res.1 <= 1
  {
    var sum := l + carry + r;
    SmallMod(sum, TWO_64);
    var digit: u64 := sum % TWO_64;
    Shr64By32(digit);
    DivBelow(digit, TWO_32, 2);
    (digit % TWO_32, Shr64(digit, 32))
  }

  /** The sum identity `AddDivisor` keeps, carried over one more limb. */
  lemma AddStep(V: seq<u32>, R: seq<u32>, L: seq<u32>, c: int, c2: int, oldL: u32, newL: u32, r: u32)
    requires |V| == |R| == |L|
    requires LimbsVal(V) + c * Base(|V|) == LimbsVal(L) + LimbsVal(R)
    requires newL + c2 * TWO_32 == oldL + c + r
    ensures LimbsVal(V + [newL]) + c2 * Base(|V| + 1) == LimbsVal(L + [oldL]) + LimbsVal(R + [r])
  {
    LimbsValSnoc(V, newL);
    LimbsValSnoc(R, r);
    LimbsValSnoc(L, oldL);
    AddRing(LimbsVal(V), LimbsVal(R), LimbsVal(L), Base(|V|), c, c2, oldL, newL, r,
      LimbsVal(V + [newL]), LimbsVal(R + [r]), LimbsVal(L + [oldL]), Base(|V| + 1));
  }

  /** What `AddDivisor` keeps after `i` limbs, in the manner of
      `SubtractInvariant`. */
  ghost predicate AddInvariant(cur: seq<u32>, L0: seq<u32>, R: seq<u32>, start: nat, i: nat, carry: int)
  {
    |cur| == |L0| && start + i <= |cur| && i <= |R|
    && (forall j :: 0 <= j < |cur| && !(start <= j < start + i) ==> cur[j] == L0[j])
    && LimbsVal(cur[start..start + i]) + carry * Base(i) == LimbsVal(L0[start..start + i]) + LimbsVal(R[..i])
  }

  lemma AddInvariantStep(cur: seq<u32>, L0: seq<u32>, R: seq<u32>, start: nat, i: nat, c: int, c2: int, newL: u32)
    requires AddInvariant(cur, L0, R, start, i, c)
    requires start + i < |cur| && i < |R|
    requires newL + c2 * TWO_32 == cur[start + i] + c + R[i]
    ensures AddInvariant(cur[start + i := newL], L0, R, start, i + 1, c2)
  {
    var nxt := cur[start + i := newL];
    assert nxt[start..start + i + 1] == cur[start..start + i] + [newL];
    assert L0[start..start + i + 1] == L0[start..start + i] + [cur[start + i]];
    assert R[..i + 1] == R[..i] + [R[i]];
    AddStep(cur[start..start + i], R[..i], L0[start..start + i], c, c2, cur[start + i], newL, R[i]);
  }

  /** `left[start..]` += `right[..rightLen]`; the returned carry is the limb
      that falls off the top of the slice. */
  method AddDivisor(left: array<u32>, start: nat, right: array<u32>, rightLen: nat) returns (carryOut: u32)
    requires left != right
    requires start + rightLen <= left.Length && rightLen <= right.Length
    modifies left
    ensures forall j :: 0 <= j < left.Length && !(start <= j < start + rightLen) ==> left[j] == old(left[j])
    ensures LimbsVal(left[start..start + rightLen]) + carryOut * Base(rightLen)
         == LimbsVal(old(left[start..start + rightLen])) + LimbsVal(right[..rightLen])
    ensures carryOut <= 1
  {
    ghost var L0 := left[..];
    var carry: u64 := 0;
    var i := 0;
    assert right[..rightLen][..0] == [];
    while i < rightLen
      invariant 0 <= i <= rightLen && carry <= 1
      invariant AddInvariant(left[..], L0, right[..rightLen], start, i, carry)
    {
      ghost var cur := left[..];
      var step := AddLimb(left[start + i], right[i], carry);
      left[start + i] := step.0;
      AddInvariantStep(cur, L0, right[..rightLen], start, i, carry, step.1, step.0);
      carry := step.1;
      assert left[..] == cur[start + i := step.0];
      i := i + 1;
    }
    assert right[..rightLen][..rightLen] == right[..rightLen];
    carryOut := carry;
  }

  // ---------------------------------------------------------------------
  // DivideGuessTooBig

  /** The two partial products of `DivideGuessTooBig` recombined: the high
      word plus the carry out of the low word, then the low word. */
  lemma GuessProduct(q: nat, divHi: nat, divLo: nat, hiProd: nat, loProd: nat)
    requires q < TWO_32 && divHi < TWO_32 && divLo < TWO_32
    requires hiProd == divHi * q && loProd == divLo * q
    ensures hiProd < TWO_64 && loProd < TWO_64 && hiProd + loProd / TWO_32 < TWO_64
    ensures q * (divHi * TWO_32 + divLo) == (hiProd + loProd / TWO_32) * TWO_32 + loProd % TWO_32
  {
    MulLe(divHi, TWO_32 - 1, q);
    MulLe(divLo, TWO_32 - 1, q);
    MulLe(q, TWO_32 - 1, TWO_32 - 1);
    assert loProd == (loProd / TWO_32) * TWO_32 + loProd % TWO_32;
    calc {
      q * (divHi * TWO_32 + divLo);
      hiProd * TWO_32 + loProd;
    }
  }

  /** Whether the guess `q` times the two top limbs of the (normalised)
      divisor exceeds the three top limbs of the (normalised) dividend. */
  function DivideGuessTooBig(q: u64, valHi: u64, valLo: u32, divHi: u32, divLo: u32): (r: bool)
    requires q <= 0xFFFF_FFFF
    ensures r <==> q * (divHi * TWO_32 + divLo) > valHi * TWO_32 + valLo
  {
    var hiProd, loProd := divHi * q, divLo * q;
    GuessProduct(q, divHi, divLo, hiProd, loProd);
    SmallMod(hiProd, TWO_64);
    SmallMod(loProd, TWO_64);
    var chkHi0: u64 := (divHi * q) % TWO_64;
    var chkLo0: u64 := (divLo * q) % TWO_64;
    Shr64By32(chkLo0);
    SmallMod(hiProd + loProd / TWO_32, TWO_64);
    var chkHi: u64 := (chkHi0 + Shr64(chkLo0, 32)) % TWO_64;
    var chkLo: u64 := chkLo0 % TWO_32;
    LexCompare(chkHi, chkLo, valHi, valLo, q * (divHi * TWO_32 + divLo));
    (chkHi > valHi) || ((chkHi == valHi) && (chkLo > valLo))
  }

  /** Comparing two numbers of the form hi * 2^32 + lo word by word. */
  lemma LexCompare(a: int, b: int, c: int, d: int, x: int)
    requires 0 <= b < TWO_32 && 0 <= d < TWO_32 && x == a * TWO_32 + b
    ensures (a > c || (a == c && b > d)) <==> x > c * TWO_32 + d
  {
  }


  // ---------------------------------------------------------------------
  // Normalising shifts: (hi, lo) << s with the bits of the next word
  // shifted in from below

  /** p = 2^s and q = 2^(32 - s) split a 32-bit word. */
  lemma WordSplit(s: nat)
    requires 0 < s < 32
    ensures Pow2(s) * Pow2(32 - s) == TWO_32
  {
    Pow2Add(s, 32 - s);
    Pow2Is32();
  }

  /** The arithmetic of shifting the pair (h, lo) left by s bits and
      filling in the top bits of nx, with p = 2^s and q = 2^(32 - s). */
  lemma ShiftPairArith(h: nat, lo: nat, nx: nat, p: nat, q: nat)
    requires p >= 1 && q >= 1 && p * q == TWO_32
    requires lo < TWO_32 && nx < TWO_32
    ensures lo / q < p && nx / q < p
    ensures (lo * p) % TWO_32 == (lo % q) * p && (lo % q) * p + nx / q < TWO_32
    ensures ((lo * p) % TWO_32) % p == 0 && (h * p) % p == 0
    ensures (h * p + lo / q) * TWO_32 + ((lo * p) % TWO_32 + nx / q) == (h * TWO_32 + lo) * p + nx / q
  {
    DivBelow(lo, q, p);
    DivBelow(nx, q, p);
    LowShift(lo, p, q);
    DivMulAdd(h, 0, p);
    PairArith(h, lo, lo / q, lo % q, nx / q, p);
  }

  /** `lo << s` on a uint: the bits that stay are the low 32 - s bits of
      lo moved up, the rest is `lo >> (32 - s)` times 2^32. */
  lemma LowShift(lo: int, p: int, q: int)
    requires p >= 1 && q >= 1 && p * q == TWO_32 && 0 <= lo < TWO_32
    ensures lo * p == (lo / q) * TWO_32 + (lo % q) * p
    ensures (lo * p) % TWO_32 == (lo % q) * p <= TWO_32 - p
    ensures ((lo * p) % TWO_32) % p == 0
  {
    var a, b := lo / q, lo % q;
    assert lo == a * q + b;
    assert lo * p == a * TWO_32 + b * p by {
      assert lo * p == (a * q) * p + b * p;
      Associate(a, q, p);
    }
    MulLe(b, q - 1, p);
    assert (q - 1) * p == TWO_32 - p;
    DivModUnique(lo * p, TWO_32, a, b * p);
    DivMulAdd(b, 0, p);
  }

  lemma PairArith(h: int, lo: int, a: int, b: int, y: int, p: int)
    requires lo * p == a * TWO_32 + b * p
    ensures (h * p + a) * TWO_32 + (b * p + y) == (h * TWO_32 + lo) * p + y
  {
    calc {
      (h * p + a) * TWO_32 + (b * p + y);
      (h * TWO_32) * p + a * TWO_32 + b * p + y;
      (h * TWO_32) * p + lo * p + y;
      (h * TWO_32 + lo) * p + y;
    }
  }

  /** A number below P, scaled by p, leaves room for anything below p. */
  lemma RoomBelow(h: int, P: int, p: int, a: int, W: int)
    requires 0 <= h < P && 0 <= a < p && P * p == W
    ensures h * p + a < W
  {
    MulLe(h, P - 1, p);
  }

  /** The two halves of `(h << s) | (lo >> (32 - s))` do not overlap. */
  lemma ShiftedParts(h: int, lo: int, p: int, q: int)
    requires p >= 1 && q >= 1 && p * q == TWO_32 && 0 <= lo < TWO_32
    ensures lo / q < p && (h * p) % p == 0
  {
    DivBelow(lo, q, p);
    DivMulAdd(h, 0, p);
  }

  /** `(h << s) | (lo >> (32 - s))` on a ulong h that the shift does not overflow. */
  lemma OrShifted64(h: u64, lo: u32, s: nat)
    requires 0 < s < 32 && h < Pow2(64 - s)
    ensures Or(Shl64(h, s), Shr32(lo, 32 - s)) == h * Pow2(s) + lo / Pow2(32 - s) < TWO_64
  {
    var x, y := Shl64(h, s), Shr32(lo, 32 - s);
    ShiftedHalves64(h, lo, s, x, y);
    OrDisjoint(x, y, s);
  }

  lemma ShiftedHalves64(h: u64, lo: u32, s: nat, x: int, y: int)
    requires 0 < s < 32 && h < Pow2(64 - s)
    requires x == Shl64(h, s) && y == Shr32(lo, 32 - s)
    ensures x == h * Pow2(s) && y == lo / Pow2(32 - s) && x + y < TWO_64
    ensures x % Pow2(s) == 0 && y < Pow2(s)
  {
    var p, q := Pow2(s), Pow2(32 - s);
    WordSplit(s);
    ShiftedParts(h, lo, p, q);
    Shl64Exact(h, s);
    assert (32 - s) % 32 == 32 - s;
    HeadRoom64(h, s, y);
  }

  /** A ulong below 2^(64 - s), shifted up by s, leaves room for s bits. */
  lemma HeadRoom64(h: int, s: nat, y: int)
    requires s <= 64 && 0 <= h < Pow2(64 - s) && 0 <= y < Pow2(s)
    ensures h * Pow2(s) + y < TWO_64
  {
    Pow2Add(64 - s, s);
    Pow2Is64();
    RoomBelow(h, Pow2(64 - s), Pow2(s), y, TWO_64);
  }

  /** `(h << s) | (lo >> (32 - s))` on a uint h that the shift does not overflow. */
  lemma OrShiftedHigh32(h: u32, lo: u32, s: nat)
    requires 0 < s < 32 && h < Pow2(32 - s)
    ensures Or(Shl32(h, s), Shr32(lo, 32 - s)) == h * Pow2(s) + lo / Pow2(32 - s) < TWO_32
  {
    var x, y := Shl32(h, s), Shr32(lo, 32 - s);
    ShiftedHalvesHigh32(h, lo, s, x, y);
    OrDisjoint(x, y, s);
  }

  lemma ShiftedHalvesHigh32(h: u32, lo: u32, s: nat, x: int, y: int)
    requires 0 < s < 32 && h < Pow2(32 - s)
    requires x == Shl32(h, s) && y == Shr32(lo, 32 - s)
    ensures x == h * Pow2(s) && y == lo / Pow2(32 - s) && x + y < TWO_32
    ensures x % Pow2(s) == 0 && y < Pow2(s)
  {
    var p, q := Pow2(s), Pow2(32 - s);
    WordSplit(s);
    ShiftedParts(h, lo, p, q);
    Shl32Exact(h, s);
    assert (32 - s) % 32 == 32 - s;
    RoomBelow(h, q, p, y, TWO_32);
  }

  /** `(lo << s) | (nx >> (32 - s))` on uints. */
  lemma OrShiftedLow32(lo: u32, nx: u32, s: nat)
    requires 0 < s < 32
    ensures Or(Shl32(lo, s), Shr32(nx, 32 - s)) == (lo * Pow2(s)) % TWO_32 + nx / Pow2(32 - s) < TWO_32
  {
    var x, y := Shl32(lo, s), Shr32(nx, 32 - s);
    ShiftedHalvesLow32(lo, nx, s, x, y);
    OrDisjoint(x, y, s);
  }

  lemma ShiftedHalvesLow32(lo: u32, nx: u32, s: nat, x: int, y: int)
    requires 0 < s < 32
    requires x == Shl32(lo, s) && y == Shr32(nx, 32 - s)
    ensures x == (lo * Pow2(s)) % TWO_32 && y == nx / Pow2(32 - s) && x + y < TWO_32
    ensures x % Pow2(s) == 0 && y < Pow2(s)
  {
    var p, q := Pow2(s), Pow2(32 - s);
    WordSplit(s);
    LowShift(lo, p, q);
    DivBelow(nx, q, p);
    assert s % 32 == s && (32 - s) % 32 == 32 - s;
  }

  // ---------------------------------------------------------------------
  // Guessing one quotient digit

  /** `((ulong)t << 32) | l`: two limbs glued into a ulong. */
  lemma OrWord(t: u32, l: u32)
    ensures Shl64(t, 32) == t * TWO_32
    ensures Or(Shl64(t, 32), l) == t * TWO_32 + l < TWO_64
  {
    Pow2Is32();
    RoomBelow(t, TWO_32, TWO_32, l, TWO_64);
    SmallMod(t * TWO_32, TWO_64);
    DivMulAdd(t, 0, TWO_32);
    OrDisjoint(t * TWO_32, l, 32);
  }

  lemma LimbsValOne(a: u32)
    ensures LimbsVal([a]) == a
  {
    assert [a][1..] == [];
  }

  lemma LimbsValTwo(a: u32, b: u32)
    ensures LimbsVal([a, b]) == a + TWO_32 * b
  {
    assert [a, b][1..] == [b];
    LimbsValOne(b);
  }

  /** The top of the current window of the dividend, as the three (two)
      limbs the guess looks at: for a two-limb divisor the window is
      t:left[i-1]:left[i-2], for a one-limb divisor t:left[i-1]. */
  lemma WindowLimbs(left: seq<u32>, i: nat, rightLen: nat, t: u32, window: nat, valHi: nat, valLo: nat)
    requires |left| == 4 && 1 <= rightLen <= 2 && rightLen <= i <= 4
    requires window == t * Base(rightLen) + LimbsVal(left[i - rightLen..i])
    requires valHi == t * TWO_32 + left[i - 1]
    requires valLo == (if i > 1 then left[i - 2] else 0)
    ensures rightLen == 2 ==> window == valHi * TWO_32 + valLo
    ensures rightLen == 1 ==> window == valHi
  {
    if rightLen == 2 {
      assert left[i - 2..i] == [left[i - 2], left[i - 1]];
      LimbsValTwo(left[i - 2], left[i - 1]);
      assert Base(2) == TWO_32 * TWO_32;
    } else {
      assert left[i - 1..i] == [left[i - 1]];
      LimbsValOne(left[i - 1]);
    }
  }

  /** The top word of the window leaves room for the normalising shift. */
  lemma HighWordFits(window: nat, valHi: nat, valLo: nat, D: nat, s: nat, rightLen: nat)
    requires 1 <= rightLen <= 2 && s < 32 && valLo < TWO_32
    requires rightLen == 2 ==> window == valHi * TWO_32 + valLo
    requires rightLen == 1 ==> window == valHi
    requires window < D * TWO_32 && D < Pow2(32 * rightLen - s)
    ensures valHi < Pow2(64 - s)
  {
    Pow2Is32();
    if rightLen == 2 {
      if valHi >= D {
        MulLe(D, valHi, TWO_32);
      }
    } else {
      Pow2Add(32 - s, 32);
      MulLe(D, Pow2(32 - s), TWO_32);
    }
  }

  /** Once shifted, the window read from the top words is the true window
      times C plus a fraction below C. */
  lemma NormalizedWindow(window: nat, valHi: nat, valLo: nat, g: nat, s: nat, rightLen: nat, C: int, W: int)
    requires 1 <= rightLen <= 2 && valLo < TWO_32 && g < Pow2(s)
    requires rightLen == 2 ==> window == valHi * TWO_32 + valLo
    requires rightLen == 1 ==> window == valHi
    requires C == Pow2(s) * (if rightLen == 1 then TWO_32 else 1)
    requires W == (valHi * TWO_32 + valLo) * Pow2(s) + g
    ensures window * C <= W < window * C + C
  {
    var p := Pow2(s);
    if rightLen == 1 {
      assert W == window * (p * TWO_32) + (valLo * p + g) by {
        assert (valHi * TWO_32 + valLo) * p == valHi * (p * TWO_32) + valLo * p;
      }
      RoomBelow(valLo, TWO_32, p, g, TWO_32 * p);
    }
  }

  /** The first guess valHi / divHi is never below the true digit. */
  lemma GuessNotTooSmall(window: nat, D: nat, C: nat, W: int, valHi: nat, valLo: nat, divHi: nat, divLo: nat)
    requires D > 0 && divHi > 0 && valLo < TWO_32
    requires window * C <= W < window * C + C
    requires W == valHi * TWO_32 + valLo
    requires divHi * TWO_32 + divLo == D * C
    requires window < D * TWO_32
    ensures window / D <= valHi / divHi
    ensures window / D < TWO_32
    ensures (window / D) * (divHi * TWO_32 + divLo) <= W
  {
    var q := window / D;
    DivBounds(window, D);
    MulLe(q * D, window, C);
    assert q * (divHi * TWO_32 + divLo) == (q * D) * C;
    assert (q * divHi) * TWO_32 <= q * (divHi * TWO_32 + divLo);
    if q * divHi > valHi {
      MulLe(valHi + 1, q * divHi, TWO_32);
    }
    DivAtLeast(valHi, divHi, q);
    DivBelow(window, D, TWO_32);
  }

  /** A guess that is too big lies above the true digit q. */
  lemma TooBigMeansAbove(q: nat, digit: nat, Dp: int, W: int)
    requires Dp >= 0 && q * Dp <= W < digit * Dp
    ensures q < digit
  {
    if digit <= q {
      MulLe(digit, q, Dp);
    }
  }

  /** A guess that is not too big is at most the true digit. */
  lemma GuessExact(window: nat, D: nat, C: nat, W: int, digit: nat, Dp: int)
    requires D > 0 && C > 0 && Dp == D * C
    requires window * C <= W < window * C + C
    requires digit * Dp <= W
    ensures digit <= window / D
  {
    assert digit * Dp == (digit * D) * C;
    if digit * D > window {
      MulLe(window + 1, digit * D, C);
    }
    DivAtLeast(window, D, digit);
  }

  /** The top `shift` bits of the limb `l3`, the bits shifted into the low
      word when the window is normalised. */
  function ShiftIn(l3: u32, shift: nat): (r: nat)
    requires shift < 32
    ensures r < Pow2(shift)
  {
    if shift > 0 then
      WordSplit(shift);
      DivBelow(l3, Pow2(32 - shift), Pow2(shift));
      l3 / Pow2(32 - shift)
    else 0
  }

  /** Shifting the word pair h:lo left by 0 < s < 32, with the top bits
      of nx shifted in, multiplies it by 2^s and adds those bits. */
  lemma ShiftedPair(h: u64, lo: u32, nx: u32, s: nat, hi: nat, low: nat)
    requires 0 < s < 32 && h < Pow2(64 - s)
    requires hi == Or(Shl64(h, s), Shr32(lo, 32 - s))
    requires low == Or(Shl32(lo, s), Shr32(nx, 32 - s))
    ensures hi < TWO_64 && low < TWO_32
    ensures hi * TWO_32 + low == (h * TWO_32 + lo) * Pow2(s) + ShiftIn(nx, s)
  {
    OrShifted64(h, lo, s);
    OrShiftedLow32(lo, nx, s);
    WordSplit(s);
    ShiftPairArith(h, lo, nx, Pow2(s), Pow2(32 - s));
  }

  /** The three top limbs `t:l1:l2` of the window, shifted left by `shift`
      with the top bits of the next limb `l3` shifted in: the (valHi, valLo)
      pair the digit guess works on. */
  function ShiftedWindowTop(t: u32, l1: u32, l2: u32, l3: u32, shift: nat): (r: (u64, u32))
    requires shift < 32 && t * TWO_32 + l1 < Pow2(64 - shift)
    ensures r.0 * TWO_32 + r.1
         == ((t * TWO_32 + l1) * TWO_32 + l2) * Pow2(shift) + ShiftIn(l3, shift)
  {
    OrWord(t, l1);
    var valHi: u64 := Or(Shl64(t, 32), l1);
    if shift > 0 then
      var backShift := 32 - shift;
      var hi := Or(Shl64(valHi, shift), Shr32(l2, backShift));
      var lo := Or(Shl32(l2, shift), Shr32(l3, backShift));
      ShiftedPair(valHi, l2, l3, shift, hi, lo);
      (hi, lo)
    else
      (valHi, l2)
  }

  /** The shifted top words of a window whose top limbs are t:l1(:l2) are
      the window times C plus a fraction below C. */
  lemma ShiftedWindowNormalized(t: u32, l1: u32, l2: u32, l3: u32, shift: nat, window: nat, rightLen: nat, C: nat)
    requires 1 <= rightLen <= 2 && shift < 32 && t * TWO_32 + l1 < Pow2(64 - shift)
    requires rightLen == 2 ==> window == (t * TWO_32 + l1) * TWO_32 + l2
    requires rightLen == 1 ==> window == t * TWO_32 + l1
    requires C == Pow2(shift) * (if rightLen == 1 then TWO_32 else 1)
    ensures var r := ShiftedWindowTop(t, l1, l2, l3, shift);
            window * C <= r.0 * TWO_32 + r.1 < window * C + C
  {
    var r := ShiftedWindowTop(t, l1, l2, l3, shift);
    var valHi, g, W := t * TWO_32 + l1, ShiftIn(l3, shift), r.0 * TWO_32 + r.1;
    assert W == (valHi * TWO_32 + l2) * Pow2(shift) + g;
    NormalizedWindow(window, valHi, l2, g, shift, rightLen, C, W);
  }

  /** The facts about the window `EstimateQuotientDigit` relies on: the top
      word leaves room for the shift, and the shifted top words are the
      window times C plus a fraction below C. */
  lemma WindowTop(left: seq<u32>, i: nat, rightLen: nat, t: u32, window: nat, D: nat, shift: nat, C: nat)
    requires |left| == 4 && 1 <= rightLen <= 2 && rightLen <= i <= 4 && shift < 32
    requires window == t * Base(rightLen) + LimbsVal(left[i - rightLen..i])
    requires window < D * TWO_32 && D < Pow2(32 * rightLen - shift)
    requires C == Pow2(shift) * (if rightLen == 1 then TWO_32 else 1)
    ensures t * TWO_32 + left[i - 1] < Pow2(64 - shift)
    ensures var r := ShiftedWindowTop(t, left[i - 1], if i > 1 then left[i - 2] else 0, if i > 2 then left[i - 3] else 0, shift);
            window * C <= r.0 * TWO_32 + r.1 < window * C + C
  {
    var valHi, valLo := t * TWO_32 + left[i - 1], if i > 1 then left[i - 2] else 0;
    WindowLimbs(left, i, rightLen, t, window, valHi, valLo);
    HighWordFits(window, valHi, valLo, D, shift, rightLen);
    ShiftedWindowNormalized(t, left[i - 1], valLo, if i > 2 then left[i - 3] else 0, shift, window, rightLen, C);
  }

  /** Guesses the next quotient digit from the normalised top words of the
      window (valHi:valLo, the window times C plus a fraction below C) and
      of the divisor (divHi:divLo, the divisor D times C): the first guess
      valHi / divHi, capped at 32 bits, is decreased while it is too big. */
  method EstimateQuotientDigit(valHi: u64, valLo: u32, divHi: u32, divLo: u32,
                               ghost D: nat, ghost C: nat, ghost window: nat) returns (digit: u64)
    requires D > 0 && C > 0 && divHi > 0
    requires divHi * TWO_32 + divLo == D * C
    requires window * C <= valHi * TWO_32 + valLo < window * C + C
    requires window < D * TWO_32
    ensures digit <= 0xFFFF_FFFF
    ensures window / D <= digit <= window / D + 1
  {
    ghost var W: int := valHi * TWO_32 + valLo;
    ghost var Dp: int := divHi * TWO_32 + divLo;
    ghost var q: nat := window / D;
    GuessNotTooSmall(window, D, C, W, valHi, valLo, divHi, divLo);
    digit := valHi / divHi;
    if digit > 0xFFFF_FFFF {
      digit := 0xFFFF_FFFF;
    }
    while DivideGuessTooBig(digit, valHi, valLo, divHi, divLo)
      invariant q <= digit <= 0xFFFF_FFFF
      decreases digit
    {
      TooBigMeansAbove(q, digit, Dp, W);
      digit := digit - 1;
    }
    GuessExact(window, D, C, W, digit, Dp);
  }

  // ---------------------------------------------------------------------
  // DivideSlow: limb layout

  /** `(uint)(x >> 0)`: the low 32 bits of a ulong. */
  function Low32(x: u64): u32
  {
    Shr64(x, 0) % TWO_32
  }

  /** `(uint)(x >> 32)`: the high 32 bits of a ulong. */
  function High32(x: u64): u32
  {
    Shr64(x, 32) % TWO_32
  }

  lemma Shr64By0(x: u64)
    ensures Shr64(x, 0) == x
  {
    assert Pow2(0 % 64) == 1;
  }

  /** The two 32-bit halves of a ulong put it back together. */
  lemma WordLimbs(x: u64)
    ensures Low32(x) + TWO_32 * High32(x) == x
    ensures High32(x) == x / TWO_32 && Low32(x) == x % TWO_32
  {
    Shr64By32(x);
    Shr64By0(x);
    var h := x / TWO_32;
    SmallMod(h, TWO_32);
  }

  lemma LimbsValFour(a: u32, b: u32, c: u32, d: u32)
    ensures LimbsVal([a, b, c, d]) == (a + TWO_32 * b) + TWO_64 * (c + TWO_32 * d)
  {
    assert [a, b, c, d][1..] == [b, c, d];
    assert [b, c, d][1..] == [c, d];
    LimbsValTwo(c, d);
  }

  /** The four limbs DivideSlow writes for the dividend stand for it. */
  lemma DividendLimbs(v: UInt128)
    ensures LimbsVal([Low32(v.lower), High32(v.lower), Low32(v.upper), High32(v.upper)]) == v.Val()
  {
    WordLimbs(v.lower);
    WordLimbs(v.upper);
    LimbsValFour(Low32(v.lower), High32(v.lower), Low32(v.upper), High32(v.upper));
  }

  /** Limbs at and above `k` of a value below Base(k) are zero. */
  lemma HighLimbsZero(s: seq<u32>, k: nat)
    requires k <= |s| && LimbsVal(s) < Base(k)
    ensures forall j :: k <= j < |s| ==> s[j] == 0
  {
    LimbsValSplit(s, k);
    if LimbsVal(s[k..]) > 0 {
      MulLe(1, LimbsVal(s[k..]), Base(k));
    }
    LimbsValZero(s[k..]);
    forall j | k <= j < |s| ensures s[j] == 0 {
      assert s[j] == s[k..][j - k];
    }
  }

  /** Zero limbs at and above `k` add nothing. */
  lemma LimbsValTopZero(s: seq<u32>, k: nat)
    requires k <= |s|
    requires forall j :: k <= j < |s| ==> s[j] == 0
    ensures LimbsVal(s) == LimbsVal(s[..k])
  {
    LimbsValSplit(s, k);
    forall j | 0 <= j < |s| - k ensures s[k..][j] == 0 {
      assert s[k..][j] == s[k + j];
    }
    LimbsValZero(s[k..]);
  }

  /** Writing x into a zero limb k adds Base(k) * x. */
  lemma LimbsValUpdate(s: seq<u32>, k: nat, x: u32)
    requires k < |s| && s[k] == 0
    ensures LimbsVal(s[k := x]) == LimbsVal(s) + Base(k) * x
  {
    var s' := s[k := x];
    LimbsValSplit(s, k);
    LimbsValSplit(s', k);
    assert s'[..k] == s[..k];
    assert s[k..][1..] == s'[k..][1..];
    var Y := LimbsVal(s[k..][1..]);
    assert LimbsVal(s[k..]) == 0 + TWO_32 * Y;
    assert LimbsVal(s'[k..]) == x + TWO_32 * Y;
    Distribute(Base(k), 0, TWO_32, Y);
    Distribute(Base(k), x, TWO_32, Y);
  }

  /** `4 - LeadingZeroCount(quotient) / 32`: the number of limbs of the
      dividend up to its highest non-zero one. */
  lemma LeftLength(v: UInt128, leftLen: int)
    requires leftLen == 4 - LeadingZeroCount(v) / 32
    ensures 0 <= leftLen <= 4
    ensures leftLen == 0 <==> v.Val() == 0
    ensures leftLen == 4 <==> v.Val() >= TWO_96
    ensures v.Val() < Base(leftLen)
  {
    var z := LeadingZeroCount(v);
    var V := v.Val();
    BaseIsPow2(leftLen);
    if z < 32 {
      Pow96Above(V, z);
    } else {
      Pow96Below(V, z);
    }
    if V > 0 {
      Pow2Le(128 - z, 32 * leftLen);
    }
  }

  lemma Pow96Above(V: int, z: nat)
    requires z < 32 && Pow2(127 - z) <= V
    ensures V >= TWO_96
  {
    Pow2Le(96, 127 - z);
    Pow2Is96();
  }

  lemma Pow96Below(V: int, z: nat)
    requires 32 <= z <= 128 && V < Pow2(128 - z)
    ensures V < TWO_96
  {
    Pow2Le(128 - z, 96);
    Pow2Is96();
  }

  /** `2 - LeadingZeroCount(divisor) / 32`: the number of limbs of the
      divisor up to its highest non-zero one. */
  lemma RightLength(d: u64, rightLen: int)
    requires rightLen == 2 - LeadingZeroCount64(d) / 32
    ensures 0 <= rightLen <= 2
    ensures rightLen == 0 <==> d == 0
    ensures rightLen == 2 <==> d >= TWO_32
  {
    var z := LeadingZeroCount64(d);
    Pow2Is32();
    if d > 0 {
      if z < 32 {
        Pow2Le(32, 63 - z);
      } else {
        Pow2Le(64 - z, 32);
      }
    }
  }

  /** The limbs of a non-zero divisor as DivideSlow lays them out. */
  lemma DivisorLimbs(d: u64, right: seq<u32>, rightLen: int)
    requires d > 0 && right == [Low32(d), High32(d)]
    requires rightLen == 2 - LeadingZeroCount64(d) / 32
    ensures 1 <= rightLen <= 2
    ensures LimbsVal(right[..rightLen]) == d
    ensures right[rightLen - 1] > 0
    ensures rightLen == 1 ==> d == right[0]
    ensures rightLen == 2 ==> d == right[1] * TWO_32 + right[0]
    ensures Base(rightLen - 1) <= d < Base(rightLen)
  {
    RightLength(d, rightLen);
    WordLimbs(d);
    if rightLen == 1 {
      SmallMod(d, TWO_32);
      assert right[..1] == [right[0]];
      LimbsValOne(right[0]);
    } else {
      DivAtLeast(d, TWO_32, 1);
      assert right[..2] == [right[0], right[1]];
      LimbsValTwo(right[0], right[1]);
      assert Base(2) == TWO_64;
    }
  }

  /** Shifting the divisor's top word pair left by its leading zero count
      multiplies it by 2^shift. */
  lemma TimesOne(x: int, p: int)
    requires p == 1
    ensures x * p == x
  {
  }

  /** `divHi = (divHi << shift) | (divLo >> backShift)` and
      `divLo = (divLo << shift) | (divNx >> backShift)` with divNx = 0. */
  lemma ShiftedDivisor(h: u32, lo: u32, s: nat, hi: u32, low: u32)
    requires 0 < s < 32 && 0 < h < Pow2(32 - s)
    requires hi == Or(Shl32(h, s), Shr32(lo, 32 - s))
    requires low == Or(Shl32(lo, s), Shr32(0, 32 - s))
    ensures hi > 0 && hi * TWO_32 + low == (h * TWO_32 + lo) * Pow2(s)
  {
    OrShiftedHigh32(h, lo, s);
    OrShiftedLow32(lo, 0, s);
    ShiftedDivisorArith(h, lo, s, hi, low, Pow2(s), Pow2(32 - s));
  }

  lemma ShiftedDivisorArith(h: u32, lo: u32, s: nat, hi: int, low: int, p: nat, q: nat)
    requires 0 < s < 32 && 0 < h && p == Pow2(s) && q == Pow2(32 - s)
    requires hi == h * p + lo / q
    requires low == (lo * p) % TWO_32 + 0 / q
    ensures hi > 0 && hi * TWO_32 + low == (h * TWO_32 + lo) * p
  {
    assert 0 / q == 0;
    WordSplit(s);
    ShiftPairArith(h, lo, 0, p, q);
    MulLe(1, h, p);
  }

  /** The normalised top words of the divisor are the divisor times C, and
      the divisor leaves room for the shift. */
  lemma NormalizedDivisor(divHi0: u32, divLo0: u32, shift: nat, rightLen: nat, D: nat, divHi: u32, divLo: u32, C: nat)
    requires 1 <= rightLen <= 2 && divHi0 > 0 && shift == LeadingZeroCount32(divHi0)
    requires rightLen == 1 ==> D == divHi0 && divLo0 == 0
    requires rightLen == 2 ==> D == divHi0 * TWO_32 + divLo0
    requires divHi > 0 && divHi * TWO_32 + divLo == (divHi0 * TWO_32 + divLo0) * Pow2(shift)
    requires C == Pow2(shift) * (if rightLen == 1 then TWO_32 else 1)
    ensures divHi > 0 && divHi * TWO_32 + divLo == D * C
    ensures D < Pow2(32 * rightLen - shift)
  {
    var p := Pow2(shift);
    if rightLen == 1 {
      DivisorTimesC(D, TWO_32, p, divHi * TWO_32 + divLo);
    } else {
      DivisorTimesC(D, 1, p, divHi * TWO_32 + divLo);
      DivisorRoom(divHi0, divLo0, shift);
    }
  }

  lemma DivisorTimesC(D: int, k: int, p: int, X: int)
    requires X == (D * k) * p
    ensures X == D * (p * k)
  {
  }

  /** A two-limb divisor whose top limb has `shift` leading zeros is below
      2^(64 - shift). */
  lemma DivisorRoom(divHi0: u32, divLo0: u32, shift: nat)
    requires shift < 32 && divHi0 < Pow2(32 - shift)
    ensures divHi0 * TWO_32 + divLo0 < Pow2(64 - shift)
  {
    Pow2Is32();
    Pow2Add(32 - shift, 32);
    MulLe(divHi0 + 1, Pow2(32 - shift), TWO_32);
  }

  // ---------------------------------------------------------------------
  // DivideSlow: one quotient digit

  /** The state of DivideSlow's loop before the iteration for limb i: the
      partial remainder sits in `left` below limb i + 1, the digits found so
      far in `bits` above limb i - rightLen, remainder plus divisor times
      digits is the dividend, and the remainder is below the divisor times
      the weight of the next digit. */
  ghost predicate DivisionInvariant(left: seq<u32>, bits: seq<u32>, N: nat, D: nat, leftLen: nat, rightLen: nat, i: int)
  {
    |left| == 4 && |bits| == 4 && 1 <= rightLen && rightLen - 1 <= i <= leftLen <= 4 &&
    (forall k :: i < k < 4 ==> left[k] == 0) &&
    (forall k :: leftLen <= k < 4 ==> left[k] == 0) &&
    (forall k :: 0 <= k <= i - rightLen ==> bits[k] == 0) &&
    LimbsVal(left) + D * LimbsVal(bits) == N &&
    LimbsVal(left) < D * Base(i - rightLen + 1)
  }

  /** The remainder seen from limb n: the limbs below n, then the window
      t:L[n..i] of rightLen + 1 limbs. */
  lemma RemainderWindow(L: seq<u32>, n: nat, i: nat, rightLen: nat, t: u32, window: int)
    requires n + rightLen == i <= |L|
    requires forall k :: i < k < |L| ==> L[k] == 0
    requires t == (if i < |L| then L[i] else 0)
    requires window == t * Base(rightLen) + LimbsVal(L[n..i])
    ensures LimbsVal(L) == LimbsVal(L[..n]) + Base(n) * window
  {
    var top: seq<u32> := if i < |L| then [t] else [];
    PaddedLimbs(L, n, i, top);
    WindowSplit(L[..n], L[n..i], top, t, n, rightLen, window);
  }

  /** The limbs of L are those below n, the window n..i and its top limb:
      the limbs above i are zero. */
  lemma PaddedLimbs(L: seq<u32>, n: nat, i: nat, top: seq<u32>)
    requires n <= i <= |L|
    requires forall k :: i < k < |L| ==> L[k] == 0
    requires top == if i < |L| then [L[i]] else []
    ensures LimbsVal(L) == LimbsVal(L[..n] + L[n..i] + top)
  {
    assert L[..n] + L[n..i] == L[..i];
    var P: seq<u32> := L[..i] + top;
    if i < |L| {
      assert P == L[..i + 1];
    } else {
      assert P == L[..i];
    }
    LimbsValTopZero(L, |P|);
  }

  /** Limbs below n, then a window of rightLen limbs under its top limb t
      (absent, and then zero, when the window reaches the last limb). */
  lemma WindowSplit(low: seq<u32>, s: seq<u32>, top: seq<u32>, t: u32, n: nat, rightLen: nat, window: int)
    requires top == [t] || (top == [] && t == 0)
    requires |low| == n && |s| == rightLen && window == t * Base(rightLen) + LimbsVal(s)
    ensures LimbsVal(low + s + top) == LimbsVal(low) + Base(n) * window
  {
    var ls: seq<u32> := low + s;
    LimbsValAppend(ls, top);
    assert LimbsVal(top) == t by {
      if top == [t] {
        assert LimbsVal(top) == t + TWO_32 * LimbsVal([]);
      }
    }
    LimbsValAppend(low, s);
    BaseAdd(n, rightLen);
    WindowArith(LimbsVal(ls + top), LimbsVal(ls), Base(n + rightLen), LimbsVal(low), Base(n), Base(rightLen), t, LimbsVal(s), window);
  }

  lemma WindowArith(V: int, X: int, B2: int, A: int, bn: int, b: int, t: int, S: int, w: int)
    requires V == X + B2 * t && B2 == bn * b && X == A + bn * S && w == t * b + S
    ensures V == A + bn * w
  {
    Distribute(bn, S, t, b);
  }

  /** A remainder below D * Base(n + 1) has a window below D * 2^32. */
  lemma WindowBelow(R: nat, P: nat, bn: nat, window: nat, D: nat)
    requires R == P + bn * window && bn >= 1 && R < D * (TWO_32 * bn)
    ensures window < D * TWO_32
  {
    if window >= D * TWO_32 {
      MulLe(D * TWO_32, window, bn);
    }
  }

  /** After subtracting digit * D from the window: the borrow equals the top
      limb t exactly when the digit was right, and otherwise the digit was
      one too big and the slice wrapped around by Base(rightLen). */
  lemma SubtractOutcome(window: nat, lo: nat, t: nat, B: nat, D: nat, digit: nat, s1: nat, borrow: nat)
    requires 0 < D < B && window == t * B + lo
    requires window / D <= digit <= window / D + 1
    requires s1 < B && s1 + digit * D == lo + borrow * B
    ensures borrow == t ==> digit == window / D && s1 == window % D
    ensures borrow != t ==> digit == window / D + 1 && s1 + D == window % D + B
  {
    var q, m := window / D, window % D;
    var k: int := borrow - t;
    assert borrow * B - t * B == k * B;
    assert s1 == window - digit * D + k * B;
    if digit == q {
      assert s1 == m + k * B;
      if k >= 1 {
        MulLe(1, k, B);
      } else if k <= -1 {
        MulLe(k, -1, B);
      }
    } else {
      assert s1 == m - D + k * B;
      if k >= 2 {
        MulLe(2, k, B);
      } else if k <= 0 {
        MulLe(k, 0, B);
      }
    }
  }

  /** Adding the divisor back after a digit one too big restores the exact
      remainder, with a carry of one out of the slice. */
  lemma AddBackOutcome(window: nat, D: nat, B: nat, s1: nat, s2: nat, c: nat)
    requires 0 < D < B && s1 + D == window % D + B
    requires s2 < B && c <= 1 && s2 + c * B == s1 + D
    ensures c == 1 && s2 == window % D
  {
  }

  /** The remainder and the digits after the iteration for limb i. */
  lemma StepArith(P: nat, bn: nat, window: nat, D: nat, Bits: nat, N: nat)
    requires D > 0 && P < bn && P + bn * window + D * Bits == N
    ensures P + bn * (window % D) + D * (Bits + bn * (window / D)) == N
    ensures P + bn * (window % D) < D * bn
  {
    var q, m := window / D, window % D;
    assert window == q * D + m;
    assert bn * window == bn * m + D * (bn * q);
    MulLe(m, D - 1, bn);
  }

  /** A zero digit leaves the window as it is: it is below the divisor, so
      its top limb is zero and it is its own remainder. */
  lemma ZeroDigitOutcome(window: nat, lo: nat, t: nat, B: nat, D: nat)
    requires 0 < D < B && window == t * B + lo && window / D <= 0
    ensures t == 0 && lo == window % D
  {
    DivBounds(window, D);
    if t >= 1 {
      MulLe(1, t, B);
    }
    SmallMod(window, D);
  }

  /** What the invariant says about the window t:L0[i-rightLen..i] the
      iteration for limb i works on: the remainder is the limbs below it
      plus the window at weight Base(i - rightLen), the window is below
      D * 2^32, and the normalised top words read from it are the window
      times C plus a fraction below C. */
  lemma DigitSetup(L0: seq<u32>, B0: seq<u32>, N: nat, D: nat, leftLen: nat, rightLen: nat, i: nat,
                   t: u32, window: nat, shift: nat, C: nat)
    requires DivisionInvariant(L0, B0, N, D, leftLen, rightLen, i) && 1 <= rightLen <= 2 && rightLen <= i
    requires t == (if i < leftLen then L0[i] else 0)
    requires window == t * Base(rightLen) + LimbsVal(L0[i - rightLen..i])
    requires shift < 32 && D < Pow2(32 * rightLen - shift)
    requires C == Pow2(shift) * (if rightLen == 1 then TWO_32 else 1)
    ensures LimbsVal(L0) == LimbsVal(L0[..i - rightLen]) + Base(i - rightLen) * window
    ensures window < D * TWO_32
    ensures t * TWO_32 + L0[i - 1] < Pow2(64 - shift)
    ensures var r := ShiftedWindowTop(t, L0[i - 1], if i > 1 then L0[i - 2] else 0, if i > 2 then L0[i - 3] else 0, shift);
            window * C <= r.0 * TWO_32 + r.1 < window * C + C
  {
    var n := i - rightLen;
    assert t == (if i < 4 then L0[i] else 0);
    RemainderWindow(L0, n, i, rightLen, t, window);
    assert Base(n + 1) == TWO_32 * Base(n);
    WindowBelow(LimbsVal(L0), LimbsVal(L0[..n]), Base(n), window, D);
    WindowTop(L0, i, rightLen, t, window, D, shift, C);
  }

  /** The loop invariant carries over to limb i - 1 once the window holds
      its remainder, the digit is stored and limb i is cleared. */
  lemma IterationInvariant(L0: seq<u32>, L2: seq<u32>, L3: seq<u32>, B0: seq<u32>, B1: seq<u32>,
                           N: nat, D: nat, leftLen: nat, rightLen: nat, i: nat, window: nat, digit: u32)
    requires DivisionInvariant(L0, B0, N, D, leftLen, rightLen, i) && rightLen <= i
    requires LimbsVal(L0) == LimbsVal(L0[..i - rightLen]) + Base(i - rightLen) * window
    requires |L2| == 4 && forall k :: 0 <= k < 4 && !(i - rightLen <= k < i) ==> L2[k] == L0[k]
    requires LimbsVal(L2[i - rightLen..i]) == window % D
    requires |L3| == 4 && forall k :: 0 <= k < 4 ==> L3[k] == (if k == i && i < leftLen then 0 else L2[k])
    requires D > 0 && digit == window / D && B1 == B0[i - rightLen := digit]
    ensures DivisionInvariant(L3, B1, N, D, leftLen, rightLen, i - 1)
  {
    var n := i - rightLen;
    RemainderAfter(L0, L2, L3, n, i);
    LimbsValBound(L0[..n]);
    LimbsValUpdate(B0, n, digit);
    StepArith(LimbsVal(L0[..n]), Base(n), window, D, LimbsVal(B0), N);
    IterationValue(LimbsVal(L0[..n]), Base(n), window, D, N, LimbsVal(L3), LimbsVal(B1), LimbsVal(B0), digit);
  }

  /** The remainder after the iteration: the untouched limbs below n, then
      the new window slice, with nothing above limb i. */
  lemma RemainderAfter(L0: seq<u32>, L2: seq<u32>, L3: seq<u32>, n: nat, i: nat)
    requires |L0| == 4 && |L2| == 4 && |L3| == 4 && n <= i <= 4
    requires forall k :: 0 <= k < n ==> L2[k] == L0[k]
    requires forall k :: 0 <= k < i ==> L3[k] == L2[k]
    requires forall k :: i <= k < 4 ==> L3[k] == 0
    ensures LimbsVal(L3) == LimbsVal(L0[..n]) + Base(n) * LimbsVal(L2[n..i])
  {
    LimbsValTopZero(L3, i);
    LimbsValSplit(L3[..i], n);
    assert L3[..i][..n] == L0[..n];
    assert L3[..i][n..] == L2[n..i];
  }

  lemma IterationValue(P: nat, bn: nat, window: nat, D: nat, N: nat, R3: nat, Bits1: nat, Bits0: nat, digit: nat)
    requires D > 0 && digit == window / D
    requires R3 == P + bn * (window % D) && Bits1 == Bits0 + bn * digit
    requires P + bn * (window % D) + D * (Bits0 + bn * (window / D)) == N
    requires P + bn * (window % D) < D * bn
    ensures R3 + D * Bits1 == N && R3 < D * bn
  {
  }

  /** The `if (digit > 0)` block of DivideSlow's loop: subtracts digit
      times the divisor from the window at limb n and, when that borrows
      more than the window's top limb t, adds the divisor back and takes
      one off the digit. Afterwards the digit is the window's quotient and
      the slice holds its remainder. */
  method SubtractDigit(left: array<u32>, right: array<u32>, n: nat, rightLen: nat, t: u32, digit0: u64,
                       ghost window: nat, ghost D: nat) returns (digit: u64)
    requires left != right && n + rightLen <= left.Length && rightLen <= right.Length
    requires 0 < D < Base(rightLen) && LimbsVal(right[..rightLen]) == D
    requires window == t * Base(rightLen) + LimbsVal(left[n..n + rightLen])
    requires digit0 <= 0xFFFF_FFFF && window / D <= digit0 <= window / D + 1
    modifies left
    ensures forall j :: 0 <= j < left.Length && !(n <= j < n + rightLen) ==> left[j] == old(left[j])
    ensures digit == window / D && LimbsVal(left[n..n + rightLen]) == window % D
  {
    ghost var lo := LimbsVal(left[n..n + rightLen]);
    ghost var B := Base(rightLen);
    digit := digit0;
    if digit > 0 {
      var carry := SubtractDivisor(left, n, right, rightLen, digit);
      ghost var s1 := LimbsVal(left[n..n + rightLen]);
      LimbsValBound(left[n..n + rightLen]);
      SubtractOutcome(window, lo, t, B, D, digit, s1, carry);
      if carry != t {
        carry := AddDivisor(left, n, right, rightLen);
        LimbsValBound(left[n..n + rightLen]);
        AddBackOutcome(window, D, B, s1, LimbsVal(left[n..n + rightLen]), carry);
        digit := digit - 1;
      }
    } else {
      ZeroDigitOutcome(window, lo, t, B, D);
    }
  }

  /** The first part of an iteration of DivideSlow's loop: reads the
      window t:left[n..i] (n = i - rightLen), guesses its quotient digit
      from the normalised top words, and subtracts that many divisors from
      it, adding one back if the guess was one too big. */
  method NextDigit(left: array<u32>, right: array<u32>, leftLen: nat, rightLen: nat,
                   divHi: u32, divLo: u32, shift: nat, i: nat,
                   ghost B0: seq<u32>, ghost N: nat, ghost D: nat, ghost C: nat)
    returns (digit: u64, ghost window: nat)
    requires left != right && left.Length == 4 && right.Length == 2
    requires 1 <= rightLen <= 2 && rightLen <= i
    requires shift < 32 && LimbsVal(right[..rightLen]) == D && D < Base(rightLen)
    requires D < Pow2(32 * rightLen - shift)
    requires C == Pow2(shift) * (if rightLen == 1 then TWO_32 else 1)
    requires divHi > 0 && divHi * TWO_32 + divLo == D * C
    requires DivisionInvariant(left[..], B0, N, D, leftLen, rightLen, i)
    modifies left
    ensures LimbsVal(old(left[..])) == LimbsVal(old(left[..])[..i - rightLen]) + Base(i - rightLen) * window
    ensures forall k :: 0 <= k < 4 && !(i - rightLen <= k < i) ==> left[k] == old(left[k])
    ensures LimbsVal(left[i - rightLen..i]) == window % D
    ensures D > 0 && digit == window / D && digit < TWO_32
  {
    var n := i - rightLen;
    var t: u32 := if i < leftLen then left[i] else 0;
    ghost var L0 := left[..];
    window := t * Base(rightLen) + LimbsVal(L0[n..i]);
    DigitSetup(L0, B0, N, D, leftLen, rightLen, i, t, window, shift, C);

    var valLo: u32 := if i > 1 then left[i - 2] else 0;
    var valNx: u32 := if i > 2 then left[i - 3] else 0;
    var top := ShiftedWindowTop(t, left[i - 1], valLo, valNx, shift);
    digit := EstimateQuotientDigit(top.0, top.1, divHi, divLo, D, C, window);
    digit := SubtractDigit(left, right, n, rightLen, t, digit, window, D);
  }

  /** One iteration of DivideSlow's loop: finds the quotient digit for limb
      n = i - rightLen, leaves the remainder of the window in place, stores
      the digit and clears limb i. */
  method DivideDigit(left: array<u32>, right: array<u32>, bits: array<u32>, leftLen: nat, rightLen: nat, bitsLen: nat,
                     divHi: u32, divLo: u32, shift: nat, i: nat, ghost N: nat, ghost D: nat, ghost C: nat)
    requires left != right && left != bits && right != bits
    requires left.Length == 4 && right.Length == 2 && bits.Length == 4
    requires 1 <= rightLen <= 2 && rightLen <= i && bitsLen == leftLen - rightLen + 1
    requires shift < 32 && LimbsVal(right[..rightLen]) == D && D < Base(rightLen)
    requires D < Pow2(32 * rightLen - shift)
    requires C == Pow2(shift) * (if rightLen == 1 then TWO_32 else 1)
    requires divHi > 0 && divHi * TWO_32 + divLo == D * C
    requires DivisionInvariant(left[..], bits[..], N, D, leftLen, rightLen, i)
    modifies left, bits
    ensures DivisionInvariant(left[..], bits[..], N, D, leftLen, rightLen, i - 1)
  {
    var n := i - rightLen;
    ghost var L0, B0 := left[..], bits[..];
    var digit;
    ghost var window;
    digit, window := NextDigit(left, right, leftLen, rightLen, divHi, divLo, shift, i, B0, N, D, C);

    ghost var L2 := left[..];
    if n < bitsLen {
      bits[n] := digit as u32;
    }
    if i < leftLen {
      left[i] := 0;
    }
    assert forall k :: 0 <= k < 4 ==> left[k] == (if k == i && i < leftLen then 0 else L2[k]);
    assert bits[..] == B0[n := digit as u32];
    IterationInvariant(L0, L2, left[..], B0, bits[..], N, D, leftLen, rightLen, i, window, digit as u32);
  }

  // ---------------------------------------------------------------------
  // DivideSlow, operator / and DivRem

  /** `((ulong)hi << 32) | lo`: two limbs joined into a ulong. */
  function JoinWords(hi: u32, lo: u32): (r: u64)
    ensures r == hi * TWO_32 + lo
  {
    OrWord(hi, lo);
    Or(Shl64(hi, 32), lo)
  }

  /** The four quotient limbs packed back into a UInt128. */
  lemma PackedQuotient(b: seq<u32>)
    requires |b| == 4
    ensures UInt128(JoinWords(b[3], b[2]), JoinWords(b[1], b[0])).Val() == LimbsVal(b)
  {
    assert b == [b[0], b[1], b[2], b[3]];
    LimbsValFour(b[0], b[1], b[2], b[3]);
  }

  /** Before the first iteration: the whole dividend is the remainder and
      no digit has been found. */
  lemma InitialInvariant(L: seq<u32>, Bits: seq<u32>, N: nat, D: nat, leftLen: nat, rightLen: nat)
    requires |L| == 4 && |Bits| == 4 && forall k :: 0 <= k < 4 ==> Bits[k] == 0
    requires LimbsVal(L) == N && N < Base(leftLen) && forall k :: leftLen <= k < 4 ==> L[k] == 0
    requires 1 <= rightLen && rightLen - 1 <= leftLen <= 4 && Base(rightLen - 1) <= D
    ensures DivisionInvariant(L, Bits, N, D, leftLen, rightLen, leftLen)
  {
    LimbsValZero(Bits);
    BaseAdd(rightLen - 1, leftLen - rightLen + 1);
    MulLe(Base(rightLen - 1), D, Base(leftLen - rightLen + 1));
  }

  /** After the last iteration the remainder is below the divisor, so the
      digits are the floor quotient. */
  lemma FinalQuotient(L: seq<u32>, Bits: seq<u32>, N: nat, D: nat, leftLen: nat, rightLen: nat)
    requires DivisionInvariant(L, Bits, N, D, leftLen, rightLen, rightLen - 1)
    ensures D > 0 && LimbsVal(Bits) == N / D && LimbsVal(L) == N % D
  {
    DivModUnique(N, D, LimbsVal(Bits), LimbsVal(L));
  }

  /** The `shift > 0` branch of the normalisation: shifts the pair
      (divHi, divLo) left by `shift` bits, filling in from a third limb that
      a divisor of at most two limbs does not have. */
  method ShiftDivisorWords(divHi: u32, divLo: u32, shift: nat, backShift: nat) returns (hi: u32, lo: u32)
    requires 0 < shift < 32 && backShift == 32 - shift && 0 < divHi < Pow2(32 - shift)
    ensures hi > 0 && hi * TWO_32 + lo == (divHi * TWO_32 + divLo) * Pow2(shift)
  {
    // the divisor has at most two limbs, so `right.Length > 2` never holds
    var divNx: u32 := 0;
    OrShiftedHigh32(divHi, divLo, shift);
    OrShiftedLow32(divLo, divNx, shift);
    hi, lo := Or(Shl32(divHi, shift), Shr32(divLo, backShift)), Or(Shl32(divLo, shift), Shr32(divNx, backShift));
    ShiftedDivisor(divHi, divLo, shift, hi, lo);
  }

  /** Shifts the top two limbs of the divisor left until the highest bit
      of the top limb is set; a one-limb divisor gets a zero low limb. The
      normalised pair is the divisor times C, a power of two. */
  method NormalizeDivisor(right: array<u32>, rightLen: nat, ghost D: nat) returns (divHi: u32, divLo: u32, shift: nat, ghost C: nat)
    requires right.Length == 2 && 1 <= rightLen <= 2 && right[rightLen - 1] > 0
    requires rightLen == 1 ==> D == right[0]
    requires rightLen == 2 ==> D == right[1] * TWO_32 + right[0]
    ensures shift < 32 && C == Pow2(shift) * (if rightLen == 1 then TWO_32 else 1)
    ensures divHi > 0 && divHi * TWO_32 + divLo == D * C
    ensures D < Pow2(32 * rightLen - shift)
  {
    divHi := right[rightLen - 1];
    divLo := if rightLen > 1 then right[rightLen - 2] else 0;
    shift := LeadingZeroCount32(divHi);
    var backShift := 32 - shift;
    ghost var divHi0, divLo0 := divHi, divLo;
    if shift > 0 {
      divHi, divLo := ShiftDivisorWords(divHi, divLo, shift, backShift);
    } else {
      TimesOne(divHi0 * TWO_32 + divLo0, Pow2(shift));
    }
    C := Pow2(shift) * (if rightLen == 1 then TWO_32 else 1);
    NormalizedDivisor(divHi0, divLo0, shift, rightLen, D, divHi, divLo, C);
  }

  /** DivideSlow's main loop: one quotient digit per limb of the dividend,
      from the top limb down to limb rightLen. */
  method DivideLimbs(left: array<u32>, right: array<u32>, bits: array<u32>, leftLen: nat, rightLen: nat, bitsLen: nat,
                     divHi: u32, divLo: u32, shift: nat, ghost N: nat, ghost D: nat, ghost C: nat)
    requires left != right && left != bits && right != bits
    requires left.Length == 4 && right.Length == 2 && bits.Length == 4
    requires 1 <= rightLen <= 2 && bitsLen == leftLen - rightLen + 1
    requires shift < 32 && LimbsVal(right[..rightLen]) == D && D < Base(rightLen)
    requires D < Pow2(32 * rightLen - shift)
    requires C == Pow2(shift) * (if rightLen == 1 then TWO_32 else 1)
    requires divHi > 0 && divHi * TWO_32 + divLo == D * C
    requires DivisionInvariant(left[..], bits[..], N, D, leftLen, rightLen, leftLen)
    modifies left, bits
    ensures DivisionInvariant(left[..], bits[..], N, D, leftLen, rightLen, rightLen - 1)
  {
    var i := leftLen;
    while i >= rightLen
      invariant DivisionInvariant(left[..], bits[..], N, D, leftLen, rightLen, i)
      decreases i
    {
      DivideDigit(left, right, bits, leftLen, rightLen, bitsLen, divHi, divLo, shift, i, N, D, C);
      i := i - 1;
    }
  }

  /** The division proper, once the operands are laid out: normalises the
      divisor, runs the loop and leaves the quotient's limbs in `bits` and
      the remainder's in `left`. */
  method QuotientLimbs(left: array<u32>, right: array<u32>, bits: array<u32>, leftLen: nat, rightLen: nat, bitsLen: nat,
                       ghost N: nat, ghost D: nat)
    requires left != right && left != bits && right != bits
    requires left.Length == 4 && right.Length == 2 && bits.Length == 4
    requires 1 <= rightLen <= 2 && rightLen - 1 <= leftLen <= 4 && bitsLen == leftLen - rightLen + 1
    requires forall k :: 0 <= k < 4 ==> bits[k] == 0
    requires LimbsVal(left[..]) == N && N < Base(leftLen) && forall k :: leftLen <= k < 4 ==> left[k] == 0
    requires LimbsVal(right[..rightLen]) == D && right[rightLen - 1] > 0
    requires rightLen == 1 ==> D == right[0]
    requires rightLen == 2 ==> D == right[1] * TWO_32 + right[0]
    requires Base(rightLen - 1) <= D < Base(rightLen)
    modifies left, bits
    ensures D > 0 && LimbsVal(bits[..]) == N / D && LimbsVal(left[..]) == N % D
  {
    var divHi, divLo, shift;
    ghost var C;
    divHi, divLo, shift, C := NormalizeDivisor(right, rightLen, D);
    InitialInvariant(left[..], bits[..], N, D, leftLen, rightLen);
    DivideLimbs(left, right, bits, leftLen, rightLen, bitsLen, divHi, divLo, shift, N, D, C);
    FinalQuotient(left[..], bits[..], N, D, leftLen, rightLen);
  }

  /** The dividend's four limbs, lowest first, and the number of them up to
      the highest non-zero one. */
  method DividendLimbsArray(quotient: UInt128) returns (left: array<u32>, leftLen: int)
    ensures fresh(left) && left.Length == 4
    ensures 0 <= leftLen <= 4
    ensures leftLen == 0 <==> quotient.Val() == 0
    ensures leftLen == 4 <==> quotient.Val() >= TWO_96
    ensures LimbsVal(left[..]) == quotient.Val() < Base(leftLen)
    ensures forall k :: leftLen <= k < 4 ==> left[k] == 0
  {
    left := new u32[4];
    left[0], left[1], left[2], left[3] := Low32(quotient.lower), High32(quotient.lower), Low32(quotient.upper), High32(quotient.upper);
    leftLen := 4 - LeadingZeroCount(quotient) / 32;
    LeftLength(quotient, leftLen);
    DividendLimbs(quotient);
    assert left[..] == [Low32(quotient.lower), High32(quotient.lower), Low32(quotient.upper), High32(quotient.upper)];
    HighLimbsZero(left[..], leftLen);
  }

  /** The divisor's two limbs, lowest first, and the number of them up to
      the highest non-zero one. */
  method DivisorLimbsArray(divisor: u64) returns (right: array<u32>, rightLen: int)
    ensures fresh(right) && right.Length == 2
    ensures 0 <= rightLen <= 2
    ensures rightLen == 0 <==> divisor == 0
    ensures rightLen == 2 <==> divisor >= TWO_32
    ensures rightLen > 0 ==> LimbsVal(right[..rightLen]) == divisor && right[rightLen - 1] > 0
    ensures rightLen == 1 ==> divisor == right[0]
    ensures rightLen == 2 ==> divisor == right[1] * TWO_32 + right[0]
    ensures rightLen > 0 ==> Base(rightLen - 1) <= divisor < Base(rightLen)
  {
    right := new u32[2];
    right[0], right[1] := Low32(divisor), High32(divisor);
    rightLen := 2 - LeadingZeroCount64(divisor) / 32;
    RightLength(divisor, rightLen);
    if divisor > 0 {
      assert right[..] == [Low32(divisor), High32(divisor)];
      DivisorLimbs(divisor, right[..], rightLen);
    }
  }

  /** Schoolbook division of a 128-bit dividend by a 64-bit divisor on
      32-bit limbs. A zero divisor makes the code index `right[-1]`; a
      zero dividend with a two-limb divisor, or a four-limb dividend with a
      zero divisor, makes it slice the digit buffer with a length outside
      0..4. Otherwise the result is the floor quotient. */
  method DivideSlow(quotient: UInt128, divisor: u64) returns (r: Result<UInt128>)
    ensures r.Ok? <==> divisor != 0 && (quotient.Val() != 0 || divisor < TWO_32)
    ensures r.Ok? ==> r.value.Val() == quotient.Val() / divisor
    ensures r.Err? ==> r.error == (if divisor == 0 && quotient.Val() < TWO_96 then IndexOutOfRange else ArgumentOutOfRange)
  {
    ghost var N, D := quotient.Val(), divisor;
    var left, leftLen := DividendLimbsArray(quotient);
    var right, rightLen := DivisorLimbsArray(divisor);
    var rawBits := new u32[4](_ => 0);

    var bitsLen := leftLen - rightLen + 1;
    if bitsLen < 0 || bitsLen > 4 {
      return Err(ArgumentOutOfRange);
    }
    if rightLen == 0 {
      return Err(IndexOutOfRange);
    }

    QuotientLimbs(left, right, rawBits, leftLen, rightLen, bitsLen, N, D);
    PackedQuotient(rawBits[..]);
    r := Ok(UInt128(JoinWords(rawBits[3], rawBits[2]), JoinWords(rawBits[1], rawBits[0])));
  }

  // ---------------------------------------------------------------------
  // operator / and DivRem

  /** `operator /(UInt128, ulong)`: DivideSlow. */
  method Divide(left: UInt128, right: u64) returns (r: Result<UInt128>)
    ensures r.Ok? <==> right != 0 && (left.Val() != 0 || right < TWO_32)
    ensures r.Ok? ==> r.value.Val() == left.Val() / right
    ensures r.Err? ==> r.error == (if right == 0 && left.Val() < TWO_96 then IndexOutOfRange else ArgumentOutOfRange)
  {
    r := DivideSlow(left, right);
  }

  /** The remainder DivRem reads back: `(left - quotient * right).Lower`
      with the wrapping 128-bit `-` and `*`, which is exact here. */
  lemma DivRemRemainder(left: UInt128, right: u64, q: UInt128)
    requires right > 0 && q.Val() == left.Val() / right
    ensures Sub(left, MulU64(q, right)).lower == left.Val() % right
  {
    var N, D := left.Val(), right;
    var p := q.Val() * D;
    assert N == p + N % D;
    SmallMod(p, TWO_128);
    assert MulU64(q, right).Val() == p;
    var m := Sub(left, MulU64(q, right));
    SmallMod(N - p, TWO_128);
    assert m.Val() == N % D < TWO_64;
    UpperZero(m);
  }

  lemma UpperZero(v: UInt128)
    requires v.Val() < TWO_64
    ensures v.upper == 0 && v.lower == v.Val()
  {
    if v.upper > 0 {
      MulLe(1, v.upper, TWO_64);
    }
  }

  /** What `DivRem(UInt128, ulong)` gives, the exceptions included: the
      quotient and remainder of Euclid's division when the division
      succeeds. */
  function DivRemOutcome(left: UInt128, right: u64): (r: Result<(UInt128, u64)>)
    ensures r.Ok? <==> right != 0 && (left.Val() != 0 || right < TWO_32)
    ensures r.Ok? ==> r.value.0.Val() * right + r.value.1 == left.Val() && r.value.1 < right
  {
    if right == 0 then
      Err(if left.Val() < TWO_96 then IndexOutOfRange else ArgumentOutOfRange)
    else if left.Val() == 0 && right >= TWO_32 then
      Err(ArgumentOutOfRange)
    else
      DivBounds(left.Val(), right);
      Ok((FromNat(left.Val() / right), left.Val() % right))
  }

  /** `DivRem(UInt128, ulong)`: the quotient from `/` and the remainder
      read back from it; the errors of `/` pass through. */
  method DivRem(left: UInt128, right: u64) returns (r: Result<(UInt128, u64)>)
    ensures r.Ok? <==> right != 0 && (left.Val() != 0 || right < TWO_32)
    ensures r.Ok? ==> r.value.0.Val() == left.Val() / right && r.value.1 == left.Val() % right
    ensures r.Err? ==> r.error == (if right == 0 && left.Val() < TWO_96 then IndexOutOfRange else ArgumentOutOfRange)
    ensures r == DivRemOutcome(left, right)
  {
    var quotient := Divide(left, right);
    if quotient.Err? {
      return Err(quotient.error);
    }
    DivRemRemainder(left, right, quotient.value);
    r := Ok((quotient.value, Sub(left, MulU64(quotient.value, right)).lower));
    ValInjective(quotient.value, DivRemOutcome(left, right).value.0);
  }
}
