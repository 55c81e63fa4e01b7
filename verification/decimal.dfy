/**
 * Task durations as exact decimals. The task app reads durations with
 * `parseFloat` (decimal hours) and `parseInt` (minutes) and writes them back
 * with JavaScript's number-to-string conversion; every value it can read is
 * a whole number of minutes plus a finite decimal fraction, so `units /
 * 10^scale` holds it exactly, where the source's IEEE doubles round.
 */
module Decimals {
  import opened Text

  /** `units / 10^scale` minutes. */
  datatype Decimal = Decimal(units: nat, scale: nat)

  function Pow10(k: nat): (r: nat)
    ensures r >= 1
  {
    if k == 0 then 1 else 10 * Pow10(k - 1)
  }

  const Zero := Decimal(0, 0)

  function Value(d: Decimal): real {
    d.units as real / Pow10(d.scale) as real
  }

  function Whole(n: nat): (r: Decimal)
    ensures Value(r) == n as real
  {
    Decimal(n, 0)
  }

  lemma {:induction false} Pow10Add(a: nat, b: nat)
    ensures Pow10(a + b) == Pow10(a) * Pow10(b)
    decreases b
  {
    if b > 0 {
      var c := b - 1;
      Pow10Add(a, c);
      var x, y := Pow10(a), Pow10(c);
      assert Pow10(a + c) == x * y;
      assert a + b == (a + c) + 1;
      assert Pow10(a + b) == 10 * Pow10(a + c);
      assert Pow10(b) == 10 * y;
      MulAssoc(x, y);
    }
  }

  lemma MulAssoc(x: nat, y: nat)
    ensures 10 * (x * y) == x * (10 * y)
  {
  }

  lemma MulZero(x: nat, y: nat)
    requires y >= 1
    ensures x * y == 0 <==> x == 0
  {
    if x > 0 {
      assert x * y >= y;
    }
  }

  lemma DivCancel(x: real, p: real, q: real)
    requires p > 0.0 && q > 0.0
    ensures (x * q) / (p * q) == x / p
  {
    var y := x / p;
    assert y * p == x;
    assert y * (p * q) == x * q;
  }

  lemma ProductAsReal(a: nat, b: nat)
    ensures (a * b) as real == a as real * b as real
  {
  }

  /** Rescaling to more digits keeps the value. */
  lemma ValueRescaled(u: nat, k: nat, extra: nat)
    ensures Value(Decimal(u * Pow10(extra), k + extra)) == Value(Decimal(u, k))
  {
    Pow10Add(k, extra);
    ProductAsReal(u, Pow10(extra));
    ProductAsReal(Pow10(k), Pow10(extra));
    DivCancel(u as real, Pow10(k) as real, Pow10(extra) as real);
  }

  lemma SumOverSame(a: nat, b: nat, p: nat)
    requires p >= 1
    ensures (a + b) as real / p as real == a as real / p as real + b as real / p as real
  {
  }

  /** Both values at the finer of the two scales, added. */
  function Add(a: Decimal, b: Decimal): (r: Decimal)
    ensures Value(r) == Value(a) + Value(b)
    ensures r.units == 0 <==> a.units == 0 && b.units == 0
    ensures a == Zero ==> r == b
  {
    var k := if a.scale <= b.scale then b.scale else a.scale;
    AddAligned(a, k);
    AddAligned(b, k);
    var ua, ub := a.units * Pow10(k - a.scale), b.units * Pow10(k - b.scale);
    SumOverSame(ua, ub, Pow10(k));
    Decimal(ua + ub, k)
  }

  /** A decimal rewritten at a finer scale: same value, zero exactly when it was. */
  lemma AddAligned(a: Decimal, k: nat)
    requires a.scale <= k
    ensures Value(Decimal(a.units * Pow10(k - a.scale), k)) == Value(a)
    ensures a.units * Pow10(k - a.scale) == 0 <==> a.units == 0
    ensures k == a.scale ==> a.units * Pow10(k - a.scale) == a.units
  {
    ValueRescaled(a.units, a.scale, k - a.scale);
    MulZero(a.units, Pow10(k - a.scale));
  }

  /** Sixty times the value: decimal hours in minutes. */
  function TimesSixty(d: Decimal): (r: Decimal)
    ensures Value(r) == 60.0 * Value(d)
    ensures r.units == 0 <==> d.units == 0
  {
    Decimal(d.units * 60, d.scale)
  }

  /** The value is positive exactly when the digits are not all zero. */
  lemma PositiveValue(d: Decimal)
    ensures Value(d) > 0.0 <==> d.units > 0
  {
  }

  // ---------------------------------------------------------------------------
  // Number to text
  // ---------------------------------------------------------------------------

  /** No trailing zero in the fraction: the form JavaScript prints. */
  predicate Normal(d: Decimal) {
    d.scale == 0 || d.units % 10 != 0
  }

  /** Drops trailing zeros of the fraction, keeping the value. */
  function Normalize(d: Decimal): (r: Decimal)
    ensures Normal(r) && Value(r) == Value(d)
    ensures r.units == 0 <==> d.units == 0
    decreases d.scale
  {
    if d.scale > 0 && d.units % 10 == 0 then
      ValueRescaled(d.units / 10, d.scale - 1, 1);
      Normalize(Decimal(d.units / 10, d.scale - 1))
    else d
  }

  /** The digits before the point. */
  function WholePart(d: Decimal): nat {
    var p := Pow10(d.scale);
    DivNonNegative(d.units, p);
    d.units / p
  }

  lemma DivNonNegative(u: nat, p: nat)
    requires p >= 1
    ensures 0 <= u / p <= u
  {
  }

  /** The digits after the point, as a number below `10^scale`. */
  function FractionPart(d: Decimal): (r: nat)
    ensures r < Pow10(d.scale)
  {
    d.units % Pow10(d.scale)
  }

  /** The two parts put the units back together. */
  lemma WholeAndFraction(d: Decimal)
    ensures WholePart(d) * Pow10(d.scale) + FractionPart(d) == d.units
  {
    var p := Pow10(d.scale);
    assert d.units == (d.units / p) * p + d.units % p;
  }

  /** `n` padded with leading zeros to `k` digits. */
  function ZeroPad(s: string, k: nat): (r: string)
    requires AllDigits(s)
    ensures AllDigits(r) && DigitsValue(r) == DigitsValue(s)
    ensures |s| <= k ==> |r| == k
    ensures |r| >= |s|
    decreases k
  {
    if |s| >= k then s
    else
      var r := ZeroPad(s, k - 1);
      ZeroPrefix(r);
      "0" + r
  }

  /** A leading zero does not change a numeral's value. */
  lemma {:induction false} ZeroPrefix(s: string)
    requires AllDigits(s)
    ensures AllDigits("0" + s) && DigitsValue("0" + s) == DigitsValue(s)
    decreases |s|
  {
    if s != [] {
      var init := s[..|s| - 1];
      ZeroPrefix(init);
      assert ("0" + s)[..|s|] == "0" + init;
    }
  }

  /** A numeral below `10^k` has at most `k` digits. */
  lemma {:induction false} NatToStringShort(n: nat, k: nat)
    requires 1 <= k && n < Pow10(k)
    ensures |NatToString(n)| <= k
    decreases k
  {
    if n >= 10 {
      assert k >= 2;
      NatToStringShort(n / 10, k - 1);
    }
  }

  lemma ShiftDigit(x: nat, y: nat, z: nat, d: nat)
    ensures (x * y + z) * 10 + d == x * (10 * y) + (z * 10 + d)
  {
  }

  /** Digits written after digits: the first ones count `10^|b|` times. */
  lemma {:induction false} DigitsValueConcat(a: string, b: string)
    requires AllDigits(a) && AllDigits(b)
    ensures AllDigits(a + b)
    ensures DigitsValue(a + b) == DigitsValue(a) * Pow10(|b|) + DigitsValue(b)
    decreases |b|
  {
    if b == [] {
      assert a + b == a;
    } else {
      var init := b[..|b| - 1];
      var c := b[|b| - 1];
      var ab := a + b;
      assert AllDigits(init);
      DigitsValueConcat(a, init);
      assert ab[..|ab| - 1] == a + init && ab[|ab| - 1] == c;
      assert DigitsValue(ab) == DigitsValue(a + init) * 10 + DigitValue(c);
      assert DigitsValue(b) == DigitsValue(init) * 10 + DigitValue(c);
      ShiftDigit(DigitsValue(a), Pow10(|init|), DigitsValue(init), DigitValue(c));
    }
  }

  /** The fraction digits of a normal decimal, padded to its scale. */
  function FractionDigits(d: Decimal): (r: string)
    requires d.scale > 0
    ensures AllDigits(r) && |r| == d.scale
    ensures DigitsValue(r) == FractionPart(d)
  {
    NatToStringShort(FractionPart(d), d.scale);
    ZeroPad(NatToString(FractionPart(d)), d.scale)
  }

  /**
   * JavaScript's `String(x)` for values from 1e-6 up to below 1e21: the whole
   * part, then a point and the fraction digits when there is a fraction,
   * without trailing zeros. Outside that range `String(x)` switches to
   * exponent form (`6e-7`), which this plain form does not produce.
   */
  function NumberText(d: Decimal): (r: string)
    ensures NumeralChars(r) && IsDigit(r[|r| - 1])
  {
    var n := Normalize(d);
    var whole := NatToString(WholePart(n));
    if n.scale == 0 then whole
    else
      var frac := FractionDigits(n);
      PointTextChars(whole, frac);
      whole + "." + frac
  }

  /** The two forms `String(x)` takes: a whole number, or the whole part, a point and the fraction digits. */
  lemma NumberTextShape(d: Decimal)
    ensures var n := Normalize(d);
            && (n.scale == 0 ==> NumberText(d) == NatToString(n.units))
            && (n.scale > 0 ==> NumberText(d) == NatToString(WholePart(n)) + "." + FractionDigits(n))
  {
  }

  /** Digits, a point, digits: digits at both ends and nothing but digits and the point. */
  lemma PointTextChars(whole: string, frac: string)
    requires whole != [] && AllDigits(whole) && frac != [] && AllDigits(frac)
    ensures var r := whole + "." + frac;
            NumeralChars(r) && IsDigit(r[|r| - 1])
  {
    var r := whole + "." + frac;
    forall i | 0 <= i < |r| ensures IsDigit(r[i]) || r[i] == '.' {
      if i < |whole| {
        assert r[i] == whole[i];
      } else if i > |whole| {
        assert r[i] == frac[i - |whole| - 1];
      }
    }
    assert r[|r| - 1] == frac[|frac| - 1];
  }
}
