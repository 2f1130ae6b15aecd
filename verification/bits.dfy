/** Python's integer bit operations on non-negative integers, and the
    single-byte bit-field extractor both decoders build from them. */
module Bits {

  /** 2^n, the value of `1 << n`. */
  function Pow2(n: nat): (r: nat)
    ensures r > 0
  {
    if n == 0 then 1 else 2 * Pow2(n - 1)
  }

  /** `(1 << n) - 1`: the n low bits set. */
  function LowMask(n: nat): nat
  {
    Pow2(n) - 1
  }

  /** `a & b`, one bit at a time from the least significant bit. */
  function And(a: nat, b: nat): nat
    decreases a
  {
    if a == 0 || b == 0 then 0
    else (if a % 2 == 1 && b % 2 == 1 then 1 else 0) + 2 * And(a / 2, b / 2)
  }

  /** `a ^ b`, one bit at a time from the least significant bit. */
  function Xor(a: nat, b: nat): nat
    decreases a + b
  {
    if a == 0 then b
    else if b == 0 then a
    else (if a % 2 != b % 2 then 1 else 0) + 2 * Xor(a / 2, b / 2)
  }

  /** Bit k of v is set: `v & (1 << k)` is non-zero. */
  predicate BitSet(v: nat, k: nat)
  {
    And(v, Pow2(k)) != 0
  }

  /** The extractor of both decoders: the mask `((1 << s) - 1) ^ ((1 << (e + 1)) - 1)`
      selects bits s..e, and `(v & mask) >> s` moves them down to bit 0.
      Its meaning: the e-s+1 bits of v starting at bit s; nothing when e < s. */
  function ExtractBits(v: nat, s: nat, e: nat): (r: nat)
    ensures s <= e ==> r == v / Pow2(s) % Pow2(e - s + 1)
    ensures s <= e ==> r < Pow2(e - s + 1)
    ensures e < s ==> r == 0
  {
    MaskedShift(v, s, e);
    And(v, Xor(LowMask(s), LowMask(e + 1))) / Pow2(s)
  }

  // ---------------------------------------------------------------------
  // Arithmetic facts

  /** A multiple of d that is not zero is at least d away from zero. */
  lemma {:induction false} MulAwayFromZero(d: int, x: int)
    requires d > 0
    ensures x >= 1 ==> d * x >= d
    ensures x <= -1 ==> d * x <= -d
    decreases if x < 0 then -x else x
  {
    if x > 1 {
      MulAwayFromZero(d, x - 1);
      assert d * x == d * (x - 1) + d;
    } else if x < -1 {
      MulAwayFromZero(d, x + 1);
      assert d * x == d * (x + 1) - d;
    }
  }

  lemma DivUnique(v: int, d: int, q: int, r: int)
    requires d > 0 && v == d * q + r && 0 <= r < d
    ensures v / d == q && v % d == r
  {
    var q', r' := v / d, v % d;
    assert v == d * q' + r';
    assert d * (q - q') == d * q - d * q';
    MulAwayFromZero(d, q - q');
  }

  /** Doubling commutes with a product. */
  lemma Double(x: nat, p: nat)
    ensures x * (2 * p) == 2 * (x * p)
  {
  }

  lemma {:induction false} Pow2Add(a: nat, n: nat)
    ensures Pow2(a + n) == Pow2(a) * Pow2(n)
  {
    if a > 0 {
      Pow2Add(a - 1, n);
      assert Pow2(a + n) == 2 * Pow2(a - 1 + n);
    }
  }

  /** One step of the long division by 2^(n+1): halve first, then divide by 2^n. */
  lemma HalveThenDivide(v: nat, p: nat)
    requires p > 0
    ensures v / 2 / p == v / (2 * p)
    ensures v % (2 * p) == 2 * (v / 2 % p) + v % 2
  {
    var q := v / 2 / p;
    var r := v / 2 % p;
    var h := v / 2;
    assert h == p * q + r;
    assert v == 2 * h + v % 2;
    assert v == (2 * p) * q + (2 * r + v % 2);
    DivUnique(v, 2 * p, q, 2 * r + v % 2);
  }

  /** Shifting right by one and then by a equals shifting right by a + 1. */
  lemma DivTwoThenPow2(v: nat, a: nat)
    ensures v / 2 / Pow2(a) == v / Pow2(a + 1)
  {
    HalveThenDivide(v, Pow2(a));
  }

  lemma MulDiv(x: nat, p: nat)
    requires p > 0
    ensures x * p / p == x
  {
    DivUnique(x * p, p, x, 0);
  }

  // ---------------------------------------------------------------------
  // Masks

  /** One bit of `a & b` and the AND of the remaining bits. */
  lemma AndStep(a: nat, b: nat)
    ensures And(a, b) == (if a % 2 == 1 && b % 2 == 1 then 1 else 0) + 2 * And(a / 2, b / 2)
  {
    if a != 0 && b != 0 {
    } else if a == 0 {
      assert And(a / 2, b / 2) == 0;
    } else {
      AndZero(a / 2);
    }
  }

  lemma {:induction false} AndZero(a: nat)
    ensures And(a, 0) == 0
  {
  }

  /** `a & b` never exceeds b. */
  lemma {:induction false} AndAtMost(a: nat, b: nat)
    ensures And(a, b) <= b
    decreases a
  {
    if a != 0 && b != 0 {
      AndAtMost(a / 2, b / 2);
    }
  }

  /** A low mask of n > 0 bits is odd and halves to the mask of n - 1 bits. */
  lemma LowMaskHalves(n: nat)
    requires n > 0
    ensures LowMask(n) % 2 == 1 && LowMask(n) / 2 == LowMask(n - 1)
  {
    assert LowMask(n) == 2 * LowMask(n - 1) + 1;
    DivUnique(LowMask(n), 2, LowMask(n - 1), 1);
  }

  /** `v & ((1 << n) - 1)` keeps the n low bits of v. */
  lemma {:induction false} AndLowMask(v: nat, n: nat)
    ensures And(v, LowMask(n)) == v % Pow2(n)
  {
    if n > 0 {
      var p := Pow2(n - 1);
      var low := v / 2 % p;
      LowMaskHalves(n);
      AndStep(v, LowMask(n));
      AndLowMask(v / 2, n - 1);
      assert And(v, LowMask(n)) == v % 2 + 2 * low;
      HalveThenDivide(v, p);
      assert v % (2 * p) == 2 * low + v % 2;
    }
  }

  /** ANDing with an even mask clears bit 0 and ANDs the rest. */
  lemma AndEven(v: nat, m: nat)
    ensures And(v, 2 * m) == 2 * And(v / 2, m)
  {
    DivUnique(2 * m, 2, m, 0);
    AndStep(v, 2 * m);
  }

  /** A band of n set bits starting at bit a keeps exactly that band of v. */
  lemma {:induction false} AndBand(v: nat, a: nat, n: nat)
    ensures And(v, LowMask(n) * Pow2(a)) == (v / Pow2(a) % Pow2(n)) * Pow2(a)
  {
    if a == 0 {
      AndLowMask(v, n);
    } else {
      var p := Pow2(a - 1);
      var low := LowMask(n);
      var x := v / Pow2(a) % Pow2(n);
      assert Pow2(a) == 2 * p;
      Double(low, p);
      AndEven(v, low * p);
      AndBand(v / 2, a - 1, n);
      DivTwoThenPow2(v, a - 1);
      assert And(v / 2, low * p) == x * p;
      Double(x, p);
    }
  }

  /** The XOR of two low masks is the band between them. */
  lemma {:induction false} XorLowMasks(a: nat, b: nat)
    ensures Xor(LowMask(a), LowMask(b)) == if a <= b then Pow2(b) - Pow2(a) else Pow2(a) - Pow2(b)
  {
    if a > 0 && b > 0 {
      LowMaskHalves(a);
      LowMaskHalves(b);
      XorLowMasks(a - 1, b - 1);
    }
  }

  /** The band between two low masks, as n set bits starting at bit a. */
  lemma BandIsShiftedMask(a: nat, n: nat)
    ensures Pow2(a + n) - Pow2(a) == LowMask(n) * Pow2(a)
  {
    Pow2Add(a, n);
  }

  /** The mask-and-shift of ExtractBits computes the bit range s..e. */
  lemma MaskedShift(v: nat, s: nat, e: nat)
    ensures And(v, Xor(LowMask(s), LowMask(e + 1))) / Pow2(s)
            == if s <= e then v / Pow2(s) % Pow2(e - s + 1) else 0
  {
    XorLowMasks(s, e + 1);
    if s <= e {
      BandIsShiftedMask(s, e - s + 1);
      AndBand(v, s, e - s + 1);
      MulDiv(v / Pow2(s) % Pow2(e - s + 1), Pow2(s));
    } else {
      BandIsShiftedMask(e + 1, s - e - 1);
      var m := Pow2(s) - Pow2(e + 1);
      AndAtMost(v, m);
      DivUnique(And(v, m), Pow2(s), 0, And(v, m));
    }
  }

  /** `v & (1 << k)` is non-zero exactly when bit k of v is one. */
  lemma AndPow2(v: nat, k: nat)
    ensures BitSet(v, k) <==> v / Pow2(k) % 2 == 1
  {
    AndBand(v, k, 1);
    assert LowMask(1) * Pow2(k) == Pow2(k);
  }

  /** A non-zero value below 2^n has one of its n low bits set. */
  lemma {:induction false} SomeBitSet(v: nat, n: nat)
    requires 0 < v < Pow2(n)
    ensures exists k :: 0 <= k < n && v / Pow2(k) % 2 == 1
  {
    if v % 2 == 1 {
      assert v / Pow2(0) % 2 == 1;
    } else {
      assert 0 < v / 2 < Pow2(n - 1);
      SomeBitSet(v / 2, n - 1);
      var k :| 0 <= k < n - 1 && v / 2 / Pow2(k) % 2 == 1;
      DivTwoThenPow2(v, k);
      assert v / Pow2(k + 1) % 2 == 1;
    }
  }
}
