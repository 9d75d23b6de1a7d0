/** IEEE 754 binary32 numbers as Protocol 2 stores them in two registers, and the bound the
    adapter puts on them. Values are exact reals; the sign of zero is not a value. */
module Float32 {

  function Pow2(n: nat): (p: nat)
    ensures p > 0
  {
    if n == 0 then 1 else 2 * Pow2(n - 1)
  }

  function IsNegative(high: bv16): bool {
    high & 0x8000 != 0
  }

  function ExponentBits(high: bv16): bv8 {
    ((high >> 7) & 0xFF) as bv8
  }

  function FractionTop(high: bv16): bv7 {
    (high & 0x7F) as bv7
  }

  function Exponent(high: bv16): (e: nat)
    ensures e < 256
  {
    ExponentBits(high) as int
  }

  function Fraction(high: bv16, low: bv16): (f: nat)
    ensures f < 0x80_0000
  {
    (FractionTop(high) as int) * 0x1_0000 + (low as int)
  }

  /** The magnitude in units of 2^-149, the smallest positive number. */
  function Scaled(exponent: nat, fraction: nat): nat {
    if exponent == 0 then fraction else (0x80_0000 + fraction) * Pow2(exponent - 1)
  }

  predicate IsFinite(high: bv16) {
    Exponent(high) != 255
  }

  function Magnitude(high: bv16, low: bv16): real {
    Scaled(Exponent(high), Fraction(high, low)) as real / Pow2(149) as real
  }

  function ValueOf(high: bv16, low: bv16): real {
    if IsNegative(high) then -Magnitude(high, low) else Magnitude(high, low)
  }

  const MAX_REASONABLE_CONCENTRATION := 1_000_000.0

  function Abs(x: real): real {
    if x < 0.0 then -x else x
  }

  /** _valid_concentration of the number in these two registers. */
  predicate ValidConcentration(high: bv16, low: bv16) {
    IsFinite(high) && Abs(ValueOf(high, low)) <= MAX_REASONABLE_CONCENTRATION
  }

  /* ---------- The value is the one the standard gives ---------- */

  /** Two to the power k. */
  function TwoTo(k: int): real {
    if k >= 0 then Pow2(k) as real else 1.0 / Pow2(-k) as real
  }

  /** Section 3.4 of IEEE 754: a sign, a significand with a hidden one unless the exponent field is
      zero, and an exponent with a bias of 127. */
  function IeeeValue(negative: bool, exponent: nat, fraction: nat): real {
    var hidden := if exponent == 0 then 0.0 else 1.0;
    var power := if exponent == 0 then 1 else exponent;
    var magnitude := (hidden + fraction as real / 8388608.0) * TwoTo(power - 127);
    if negative then -magnitude else magnitude
  }

  lemma {:induction false} TwoToNext(k: int)
    ensures TwoTo(k + 1) == 2.0 * TwoTo(k)
  {
    if k < 0 {
      assert Pow2(-k) == 2 * Pow2(-k - 1);
    }
  }

  lemma {:induction false} DoubledQuotient(x: real, y: real)
    requires y > 0.0
    ensures 2.0 * (x / y) == (2.0 * x) / y
  {}

  lemma {:induction false} TwoToIsQuotient(e: nat, n: nat)
    ensures TwoTo(e - n) == Pow2(e) as real / Pow2(n) as real
  {
    if e > 0 {
      TwoToIsQuotient(e - 1, n);
      TwoToNext(e - 1 - n);
      DoubledQuotient(Pow2(e - 1) as real, Pow2(n) as real);
      assert Pow2(e) as real == 2.0 * Pow2(e - 1) as real;
    }
  }

  lemma {:induction false} Pow23()
    ensures Pow2(23) == 8388608
  {
    Pow2Add(10, 13);
    Pow2Add(10, 3);
    assert Pow2(10) == 1024;
  }

  lemma {:induction false} QuotientOfProducts(a: real, b: real, c: real, d: real)
    requires c > 0.0 && d > 0.0
    ensures (a * b) / (c * d) == (a / c) * (b / d)
  {
    assert c * d > 0.0;
    assert (c * d) * ((a / c) * (b / d)) == (c * (a / c)) * (d * (b / d)) == a * b;
  }

  lemma {:induction false} AddQuotient(f: real, unit: real)
    requires unit > 0.0
    ensures (unit + f) / unit == 1.0 + f / unit
  {
    var x, y := (unit + f) / unit, f / unit;
    assert unit * x == unit + f && unit * y == f;
    assert unit * (x - 1.0 - y) == 0.0;
    NoZeroDivisor(unit, x - 1.0 - y);
  }

  lemma {:induction false} NoZeroDivisor(a: real, b: real)
    requires a > 0.0 && a * b == 0.0
    ensures b == 0.0
  {}

  lemma {:induction false} RealProduct(a: nat, b: nat)
    ensures (a * b) as real == a as real * b as real
  {}

  lemma {:induction false} SubnormalQuotient(f: nat, w: nat)
    requires w > 0
    ensures 8388608 * w > 0 && f as real / (8388608 * w) as real == (f as real / 8388608.0) * (1.0 / w as real)
  {
    RealProduct(8388608, w);
    QuotientOfProducts(f as real, 1.0, 8388608.0, w as real);
  }

  lemma {:induction false} NormalQuotient(f: nat, p: nat, low: nat, scaled: nat, whole: nat)
    requires low > 0 && scaled == (8388608 + f) * p && whole == 8388608 * low
    ensures whole > 0 && scaled as real / whole as real == (1.0 + f as real / 8388608.0) * (p as real / low as real)
  {
    RealProduct(8388608, low);
    RealProduct(8388608 + f, p);
    QuotientOfProducts((8388608 + f) as real, p as real, 8388608.0, low as real);
    AddQuotient(f as real, 8388608.0);
  }

  lemma {:induction false} ZeroPower(n: nat)
    requires n == 126
    ensures TwoTo(1 - 127) == 1.0 / Pow2(n) as real
  {
    TwoToIsQuotient(0, n);
  }

  /** low and whole stand for 2^126 and 2^149. */
  lemma {:induction false} SubnormalIsIeee(f: nat, n: nat, low: nat, whole: nat)
    requires n == 126 && low == Pow2(n) && whole == 8388608 * low
    ensures Scaled(0, f) as real / whole as real == IeeeValue(false, 0, f)
  {
    ZeroPower(n);
    IeeeIs(0, f, 1.0 / low as real);
    SubnormalQuotient(f, low);
  }

  lemma {:induction false} IeeeIs(e: nat, f: nat, power: real)
    requires power == TwoTo((if e == 0 then 1 else e) - 127)
    ensures IeeeValue(false, e, f) == ((if e == 0 then 0.0 else 1.0) + f as real / 8388608.0) * power
  {
  }

  lemma {:induction false} PowerIs(e: nat, n: nat)
    requires e > 0 && n == 126
    ensures TwoTo(e - 127) == Pow2(e - 1) as real / Pow2(n) as real
  {
    TwoToIsQuotient(e - 1, n);
    assert e - 1 - n == e - 127;
  }

  lemma {:induction false} NormalParts(e: nat, f: nat)
    requires e > 0
    ensures Scaled(e, f) == (8388608 + f) * Pow2(e - 1)
  {
  }

  lemma {:induction false} NormalIs(e: nat, f: nat, p: nat, low: nat, scaled: nat, whole: nat)
    requires e > 0 && low > 0 && TwoTo(e - 127) == p as real / low as real
    requires scaled == (8388608 + f) * p && whole == 8388608 * low
    ensures whole > 0 && scaled as real / whole as real == IeeeValue(false, e, f)
  {
    NormalQuotient(f, p, low, scaled, whole);
    IeeeIs(e, f, p as real / low as real);
  }

  lemma {:induction false} NormalIsIeee(e: nat, f: nat, n: nat, low: nat, whole: nat)
    requires e > 0 && n == 126 && low == Pow2(n) && whole == 8388608 * low
    ensures Scaled(e, f) as real / whole as real == IeeeValue(false, e, f)
  {
    PowerIs(e, n);
    NormalParts(e, f);
    NormalIs(e, f, Pow2(e - 1), low, Scaled(e, f), whole);
  }

  lemma {:induction false} Denominator(n: nat, m: nat)
    requires n == 126 && m == 149
    ensures Pow2(m) == 8388608 * Pow2(n)
  {
    Pow23();
    Pow2Add(23, n);
  }

  lemma {:induction false} MagnitudeIsIeee(e: nat, f: nat, n: nat, m: nat)
    requires n == 126 && m == 149
    ensures Scaled(e, f) as real / Pow2(m) as real == IeeeValue(false, e, f)
  {
    Denominator(n, m);
    if e == 0 {
      SubnormalIsIeee(f, n, Pow2(n), Pow2(m));
    } else {
      NormalIsIeee(e, f, n, Pow2(n), Pow2(m));
    }
  }

  /** A pair of registers decodes to the number that the standard gives for its three fields. */
  lemma {:induction false} ValueIsIeee(high: bv16, low: bv16)
    ensures ValueOf(high, low) == IeeeValue(IsNegative(high), Exponent(high), Fraction(high, low))
  {
    MagnitudeIsIeee(Exponent(high), Fraction(high, low), 126, 149);
  }

  /** The registers of a number with these fields, of which the fraction is in two parts. */
  function HighRegister(negative: bool, exponent: bv8, fractionTop: bv7): bv16 {
    (if negative then 0x8000 else 0) | ((exponent as bv16) << 7) | (fractionTop as bv16)
  }

  lemma {:induction false} FieldsOfHigh(negative: bool, exponent: bv8, fractionTop: bv7)
    ensures var high := HighRegister(negative, exponent, fractionTop);
            IsNegative(high) == negative && ExponentBits(high) == exponent && FractionTop(high) == fractionTop
  {}

  /* ---------- Order of magnitudes is order of bit patterns ---------- */

  lemma {:induction false} Pow2Monotone(m: nat, n: nat)
    requires m <= n
    ensures Pow2(m) <= Pow2(n)
  {
    if m < n {
      Pow2Monotone(m, n - 1);
    }
  }

  lemma {:induction false} MulMonotone(a: nat, b: nat, c: nat)
    requires a <= b
    ensures a * c <= b * c
  {}

  lemma {:induction false} MulStrict(a: nat, b: nat, c: nat)
    requires a < b && c > 0
    ensures a * c < b * c
  {}

  lemma {:induction false} ScaledBelowNext(exponent: nat, fraction: nat)
    requires fraction < 0x80_0000
    ensures Scaled(exponent, fraction) < 0x80_0000 * Pow2(exponent)
  {
    if exponent > 0 {
      MulStrict(0x80_0000 + fraction, 0x100_0000, Pow2(exponent - 1));
    }
  }

  lemma {:induction false} ScaledMonotone(e1: nat, f1: nat, e2: nat, f2: nat)
    requires f1 < 0x80_0000 && f2 < 0x80_0000
    requires e1 < e2 || (e1 == e2 && f1 < f2)
    ensures Scaled(e1, f1) < Scaled(e2, f2)
  {
    if e1 == e2 {
      if e1 > 0 {
        MulStrict(0x80_0000 + f1, 0x80_0000 + f2, Pow2(e1 - 1));
      }
    } else {
      ScaledBelowNext(e1, f1);
      Pow2Monotone(e1, e2 - 1);
      MulMonotone(Pow2(e1), Pow2(e2 - 1), 0x80_0000);
      MulMonotone(0x80_0000, 0x80_0000 + f2, Pow2(e2 - 1));
    }
  }

  lemma {:induction false} ScaledInjective(e1: nat, f1: nat, e2: nat, f2: nat)
    requires f1 < 0x80_0000 && f2 < 0x80_0000
    requires Scaled(e1, f1) == Scaled(e2, f2)
    ensures e1 == e2 && f1 == f2
  {
    if e1 < e2 || (e1 == e2 && f1 < f2) {
      ScaledMonotone(e1, f1, e2, f2);
    } else if e2 < e1 || (e1 == e2 && f2 < f1) {
      ScaledMonotone(e2, f2, e1, f1);
    }
  }

  lemma {:induction false} DivideCompare(s: nat, p: nat, q: nat)
    requires p > 0
    ensures s as real / p as real <= q as real <==> s <= q * p
  {
    assert s as real == (s as real / p as real) * p as real;
    if s as real / p as real <= q as real {
      assert s as real <= q as real * p as real;
      assert q as real * p as real == (q * p) as real;
    }
    if s <= q * p {
      assert s as real <= q as real * p as real;
    }
  }

  lemma {:induction false} Pow2Add(m: nat, n: nat)
    ensures Pow2(m + n) == Pow2(m) * Pow2(n)
  {
    if n > 0 {
      Pow2Add(m, n - 1);
      assert Pow2(m + n) == 2 * Pow2(m + (n - 1));
    }
  }

  /** One million is the number with exponent field 146 and fraction field 7611392. */
  lemma {:induction false} OneMillion()
    ensures Scaled(146, 7611392) == 1_000_000 * Pow2(149)
  {
    Pow2Add(145, 4);
    assert Pow2(4) == 16;
    MillionArithmetic(Pow2(145));
  }

  lemma {:induction false} MillionArithmetic(p: nat)
    ensures (0x80_0000 + 7611392) * p == 1_000_000 * (p * 16)
  {}

  lemma {:induction false} AbsOfValue(high: bv16, low: bv16)
    ensures Abs(ValueOf(high, low)) == Magnitude(high, low) >= 0.0
  {
    NonNegative(Scaled(Exponent(high), Fraction(high, low)), Pow2(149));
  }

  lemma {:induction false} NonNegative(s: nat, p: nat)
    requires p > 0
    ensures s as real / p as real >= 0.0
  {}

  lemma {:induction false} ScaledBound(e: nat, f: nat)
    requires f < 0x80_0000
    ensures Scaled(e, f) <= 1_000_000 * Pow2(149) <==> (e < 146 || (e == 146 && f <= 7611392))
  {
    OneMillion();
    if e < 146 || (e == 146 && f < 7611392) {
      ScaledMonotone(e, f, 146, 7611392);
    } else if e > 146 || f > 7611392 {
      ScaledMonotone(146, 7611392, e, f);
    }
  }

  /** The adapter's floating-point test is a comparison of the exponent and fraction fields. */
  lemma {:induction false} ConcentrationBound(high: bv16, low: bv16)
    ensures ValidConcentration(high, low)
            <==> (Exponent(high) < 146 || (Exponent(high) == 146 && Fraction(high, low) <= 7611392))
  {
    var e, f := Exponent(high), Fraction(high, low);
    AbsOfValue(high, low);
    ScaledBound(e, f);
    DivideCompare(Scaled(e, f), Pow2(149), 1_000_000);
  }

  /* ---------- The value determines the registers, up to the sign of zero ---------- */

  lemma {:induction false} RegisterFields(h1: bv16, h2: bv16)
    requires IsNegative(h1) == IsNegative(h2)
    requires ExponentBits(h1) == ExponentBits(h2)
    requires FractionTop(h1) == FractionTop(h2)
    ensures h1 == h2
  {}

  lemma {:induction false} SameBits8(a: bv8, b: bv8)
    requires a as int == b as int
    ensures a == b
  {
    assert (a as int) as bv8 == a && (b as int) as bv8 == b;
  }

  lemma {:induction false} SameBits7(a: bv7, b: bv7)
    requires a as int == b as int
    ensures a == b
  {
    assert (a as int) as bv7 == a && (b as int) as bv7 == b;
  }

  lemma {:induction false} SameBits16(a: bv16, b: bv16)
    requires a as int == b as int
    ensures a == b
  {
    assert (a as int) as bv16 == a && (b as int) as bv16 == b;
  }

  lemma {:induction false} SplitFraction(t1: nat, l1: nat, t2: nat, l2: nat)
    requires l1 < 0x1_0000 && l2 < 0x1_0000 && t1 * 0x1_0000 + l1 == t2 * 0x1_0000 + l2
    ensures t1 == t2 && l1 == l2
  {}

  lemma {:induction false} FractionParts(t1: bv7, l1: bv16, t2: bv7, l2: bv16)
    requires (t1 as int) * 0x1_0000 + l1 as int == (t2 as int) * 0x1_0000 + l2 as int
    ensures t1 == t2 && l1 == l2
  {
    SplitFraction(t1 as int, l1 as int, t2 as int, l2 as int);
    SameBits7(t1, t2);
    SameBits16(l1, l2);
  }

  lemma {:induction false} FieldsFromNumbers(h1: bv16, l1: bv16, h2: bv16, l2: bv16)
    requires Exponent(h1) == Exponent(h2)
    requires Fraction(h1, l1) == Fraction(h2, l2)
    ensures ExponentBits(h1) == ExponentBits(h2)
    ensures FractionTop(h1) == FractionTop(h2) && l1 == l2
  {
    FractionParts(FractionTop(h1), l1, FractionTop(h2), l2);
    SameBits8(ExponentBits(h1), ExponentBits(h2));
  }

  lemma {:induction false} DivideInjective(s: nat, t: nat, p: nat)
    requires p > 0 && s as real / p as real == t as real / p as real
    ensures s == t
  {
    assert s as real == (s as real / p as real) * p as real;
    assert t as real == (t as real / p as real) * p as real;
  }

  lemma {:induction false} ValueDeterminesRegisters(h1: bv16, l1: bv16, h2: bv16, l2: bv16)
    requires ValueOf(h1, l1) == ValueOf(h2, l2) != 0.0
    ensures h1 == h2 && l1 == l2
  {
    AbsOfValue(h1, l1);
    AbsOfValue(h2, l2);
    var s1, s2 := Scaled(Exponent(h1), Fraction(h1, l1)), Scaled(Exponent(h2), Fraction(h2, l2));
    DivideInjective(s1, s2, Pow2(149));
    ScaledInjective(Exponent(h1), Fraction(h1, l1), Exponent(h2), Fraction(h2, l2));
    FieldsFromNumbers(h1, l1, h2, l2);
    RegisterFields(h1, h2);
  }

  /** The registers of plus and minus zero. */
  predicate IsZero(high: bv16, low: bv16) {
    (high == 0 || high == 0x8000) && low == 0
  }

  lemma {:induction false} ZeroFields(high: bv16)
    requires ExponentBits(high) == ExponentBits(0) && FractionTop(high) == FractionTop(0)
    ensures high == 0 || high == 0x8000
  {}

  /** Only these two register pairs decode to zero. */
  lemma {:induction false} ZeroIsZero(high: bv16, low: bv16)
    requires ValueOf(high, low) == 0.0
    ensures IsZero(high, low)
  {
    AbsOfValue(high, low);
    AbsOfValue(0, 0);
    ZeroValue();
    DivideInjective(Scaled(Exponent(high), Fraction(high, low)), Scaled(Exponent(0), Fraction(0, 0)), Pow2(149));
    ScaledInjective(Exponent(high), Fraction(high, low), Exponent(0), Fraction(0, 0));
    FieldsFromNumbers(high, low, 0, 0);
    ZeroFields(high);
  }

  lemma {:induction false} ZeroValue()
    ensures ValueOf(0, 0) == 0.0
  {
    assert Exponent(0) == 0 && Fraction(0, 0) == 0;
  }
}
