// Binary64 bit patterns and the values they encode (section 3.4 of IEEE 754-2019).
module Ieee754 {
  const TWO_52: int := 0x10_0000_0000_0000
  const TWO_63: int := 0x8000_0000_0000_0000
  const TWO_64: int := 0x1_0000_0000_0000_0000

  type Bits64 = x: int | 0 <= x < TWO_64

  /** The encoding of 1.0. */
  const ONE_BITS: Bits64 := 0x3FF0_0000_0000_0000

  /** The encoding of -0.0. */
  const NEGATIVE_ZERO: Bits64 := 0x8000_0000_0000_0000

  function Negative(b: Bits64): bool { b >= TWO_63 }

  function Exponent(b: Bits64): (e: nat)
    ensures e < 2048
  {
    (if Negative(b) then b - TWO_63 else b) / TWO_52
  }

  function Fraction(b: Bits64): (f: nat)
    ensures f < TWO_52
  {
    (if Negative(b) then b - TWO_63 else b) % TWO_52
  }

  /** Neither an infinity nor a not-a-number. */
  predicate IsFinite(b: Bits64) { Exponent(b) != 2047 }

  ghost function Pow2(k: int): real
    decreases if k >= 0 then k else -k
  {
    if k == 0 then 1.0 else if k > 0 then 2.0 * Pow2(k - 1) else Pow2(k + 1) / 2.0
  }

  ghost function Magnitude(b: Bits64): real {
    if Exponent(b) == 0 then Fraction(b) as real * Pow2(-1074)
    else (TWO_52 + Fraction(b)) as real * Pow2(Exponent(b) - 1075)
  }

  ghost function ValueOf(b: Bits64): real
    requires IsFinite(b)
  {
    if Negative(b) then -Magnitude(b) else Magnitude(b)
  }

  lemma {:induction false} Pow2Positive(k: int)
    ensures Pow2(k) > 0.0
    decreases if k >= 0 then k else -k
  {
    if k > 0 { Pow2Positive(k - 1); } else if k < 0 { Pow2Positive(k + 1); }
  }

  lemma {:induction false} Pow2Monotone(j: int, k: int)
    requires j <= k
    ensures Pow2(j) <= Pow2(k)
    decreases k - j
  {
    if j < k {
      Pow2Monotone(j, k - 1);
      Pow2Positive(k - 1);
      assert Pow2(k) == 2.0 * Pow2(k - 1);
    }
  }

  lemma {:induction false} Pow2Shift(k: int, n: nat)
    ensures Pow2(k + n) == Pow2(k) * Pow2(n)
  {
    if n > 0 {
      Pow2Shift(k, n - 1);
      assert Pow2(k + n) == 2.0 * Pow2(k + n - 1);
      assert Pow2(n) == 2.0 * Pow2(n - 1);
    }
  }

  lemma Pow2Literals()
    ensures Pow2(52) == 4503599627370496.0
    ensures Pow2(-52) * 4503599627370496.0 == 1.0
    ensures Pow2(-53) * 9007199254740992.0 == 1.0
    ensures Pow2(-51) == 2.0 * Pow2(-52)
  {
    assert Pow2(1) == 2.0 && Pow2(2) == 4.0 && Pow2(3) == 8.0 && Pow2(4) == 16.0;
    Pow2Shift(4, 4);
    Pow2Shift(8, 8);
    Pow2Shift(16, 16);
    Pow2Shift(32, 16);
    Pow2Shift(48, 4);
    Pow2Shift(-52, 52);
    assert Pow2(-53) == Pow2(-52) / 2.0;
  }

  lemma ScaleOrder(x: real, y: real, p: real)
    requires p > 0.0 && x < y
    ensures x * p < y * p
  {
  }

  lemma ScaleOrderWeak(x: real, p: real, q: real)
    requires x >= 0.0 && p <= q
    ensures x * p <= x * q
  {
  }

  /** Small exponents encode magnitudes below 1. */
  lemma BelowOne(b: Bits64)
    requires Exponent(b) < 1023
    ensures 0.0 <= Magnitude(b) < 1.0
  {
    Pow2Literals();
    var k := if Exponent(b) == 0 then -1074 else Exponent(b) - 1075;
    var m := (if Exponent(b) == 0 then Fraction(b) else TWO_52 + Fraction(b)) as real;
    Pow2Positive(k);
    Pow2Positive(-53);
    Pow2Monotone(k, -53);
    SmallProduct(m, Pow2(k), Pow2(-53));
  }

  lemma SmallProduct(m: real, p: real, q: real)
    requires 0.0 <= m < 9007199254740992.0 && 0.0 < p <= q && q * 9007199254740992.0 == 1.0
    ensures 0.0 <= m * p < 1.0
  {
    ScaleOrderWeak(m, p, q);
    ScaleOrder(m, 9007199254740992.0, q);
    ScaleOrderWeak(p, 0.0, m);
  }

  /** The exponent of 1.0 encodes 1 plus the fraction; larger ones encode at least 2. */
  lemma FromOne(b: Bits64)
    requires Exponent(b) >= 1023
    ensures Magnitude(b) >= 1.0
    ensures Magnitude(b) == 1.0 <==> Exponent(b) == 1023 && Fraction(b) == 0
  {
    Pow2Literals();
    var k, m := Exponent(b) - 1075, (TWO_52 + Fraction(b)) as real;
    assert Magnitude(b) == m * Pow2(k);
    hide Pow2, Magnitude;
    if Exponent(b) == 1023 {
      Pow2Positive(-52);
      if Fraction(b) > 0 { ScaleOrder(4503599627370496.0, m, Pow2(-52)); }
    } else {
      Pow2Monotone(-51, k);
      LargeProduct(m, Pow2(k), Pow2(-52));
    }
  }

  lemma LargeProduct(m: real, p: real, q: real)
    requires m >= 4503599627370496.0 && p >= 2.0 * q && q * 4503599627370496.0 == 1.0
    ensures m * p > 1.0
  {
    ScaleOrderWeak(m, 2.0 * q, p);
    ScaleOrderWeak(2.0 * q, 4503599627370496.0, m);
  }

  /** Nonzero patterns encode nonzero magnitudes. */
  lemma ZeroMagnitude(b: Bits64)
    requires Exponent(b) < 1023
    ensures Magnitude(b) == 0.0 <==> Exponent(b) == 0 && Fraction(b) == 0
  {
    Pow2Positive(-1074);
    Pow2Positive(Exponent(b) - 1075);
    if Exponent(b) == 0 {
      if Fraction(b) > 0 { ScaleOrder(0.0, Fraction(b) as real, Pow2(-1074)); }
    } else {
      ScaleOrder(0.0, (TWO_52 + Fraction(b)) as real, Pow2(Exponent(b) - 1075));
    }
  }

  /** Some encodings by number: one half, one, two, the least positive number, and the first infinity. */
  lemma KnownEncodings()
    ensures IsFinite(4602678819172646912) && ValueOf(4602678819172646912) == 0.5
    ensures IsFinite(4607182418800017408) && ValueOf(4607182418800017408) == 1.0
    ensures IsFinite(4611686018427387904) && ValueOf(4611686018427387904) == 2.0
    ensures IsFinite(13830554455654793216) && ValueOf(13830554455654793216) == -1.0
    ensures IsFinite(1) && ValueOf(1) == Pow2(-1074)
    ensures IsFinite(9218868437227405311) && !IsFinite(9218868437227405312)
    ensures Pow2(0) == 1.0 && forall k: int :: Pow2(k + 1) == 2.0 * Pow2(k)
  {
    Pow2Literals();
    forall k: int ensures Pow2(k + 1) == 2.0 * Pow2(k) { }
  }

  /** Finite and between 0 and 1 inclusive. */
  ghost predicate InUnitInterval(b: Bits64) {
    IsFinite(b) && 0.0 <= ValueOf(b) <= 1.0
  }

  /** The executable form of the same test. */
  predicate UnitBits(b: Bits64): (r: bool)
    ensures r <==> b < 4607182418800017409 || b == 9223372036854775808
  {
    b <= ONE_BITS || b == NEGATIVE_ZERO
  }

  lemma Decomposition(b: Bits64)
    ensures b == (if Negative(b) then TWO_63 else 0) + Exponent(b) * TWO_52 + Fraction(b)
  {
  }

  /** A pattern encodes a number of the unit interval exactly when it is at most that of 1.0, or is -0.0. */
  lemma UnitIntervalBits(b: Bits64)
    ensures InUnitInterval(b) <==> UnitBits(b)
  {
    hide Magnitude;
    Decomposition(b);
    if Exponent(b) < 1023 {
      BelowOne(b);
      ZeroMagnitude(b);
    } else {
      FromOne(b);
    }
  }
}
