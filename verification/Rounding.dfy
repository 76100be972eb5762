/** The per-second limit: integer ceiling, and its computation in floating point. */
module Rounding {
  import opened Base
  import opened Counter

  /** ceil(t / w) for integers, of either sign. */
  function CeilDiv(t: int, w: int): int
    requires w != 0
  {
    if w > 0 then (t + w - 1) / w else (-t - w - 1) / -w
  }

  lemma CeilDivBounds(t: int, w: int)
    requires w > 0
    ensures t <= CeilDiv(t, w) * w < t + w
  {
    var q := CeilDiv(t, w);
    ModBounds(t + w - 1, w);
    assert t + w - 1 == w * ((t + w - 1) / w) + (t + w - 1) % w;
  }

  lemma CeilDivRange(t: int, w: int)
    requires w > 0 && -0x8000_0000 <= t <= 0x8000_0000 && (w == 1 ==> t < 0x8000_0000)
    ensures -0x8000_0000 <= CeilDiv(t, w) <= 0x7fff_ffff
  {
    CeilDivBounds(t, w);
    Difference(CeilDiv(t, w), 0x7fff_ffff, w);
    Difference(-0x8000_0000, CeilDiv(t, w), w);
  }

  /** The one quotient of two int32 values whose ceiling is not an int32. */
  predicate Overflows(t: int, w: int) { t == -0x8000_0000 && w == -1 }

  lemma CeilDivFits(t: int32, w: int32)
    requires w != 0 && !Overflows(t, w)
    ensures -0x8000_0000 <= CeilDiv(t, w) <= 0x7fff_ffff
  {
    if w > 0 {
      CeilDivRange(t, w);
    } else {
      var a: int, b: int := t, w;
      CeilDivRange(-a, -b);
    }
  }

  function Ceil(x: real): int { -((-x).Floor) }

  const HALF_ULP_INVERSE := 9007199254740992.0

  function Magnitude(q: real): real { if q < 0.0 then -q else q }

  /** x is a possible float64 quotient of t and w: within relative error 2^-53, and exact on integers. */
  ghost predicate RoundedQuotient(x: real, t: int, w: int)
    requires w != 0
  {
    var q := t as real / w as real;
    && Magnitude(x - q) * HALF_ULP_INVERSE <= Magnitude(q)
    && (t % w == 0 ==> x == q)
  }

  /** c is the least integer that is not below x. */
  predicate IsCeiling(x: real, c: int) { (c - 1) as real < x <= c as real }

  lemma CeilIs(x: real, c: int)
    requires IsCeiling(x, c)
    ensures Ceil(x) == c
  {
  }

  lemma PositiveFactor(y: real, v: real)
    requires v > 0.0 && y * v > 0.0
    ensures y > 0.0
  {
  }

  lemma MagnitudeScales(y: real, v: real)
    requires v > 0.0
    ensures Magnitude(y) * v == Magnitude(y * v)
  {
  }

  lemma ScaleError(d: real, q: real, v: real)
    requires v > 0.0 && Magnitude(d) * HALF_ULP_INVERSE <= Magnitude(q)
    ensures Magnitude(d * v) * HALF_ULP_INVERSE <= Magnitude(q * v)
  {
    MagnitudeScales(d, v);
    MagnitudeScales(q, v);
    ScaleInequality(Magnitude(d) * HALF_ULP_INVERSE, Magnitude(q), v);
    assert Magnitude(d) * HALF_ULP_INVERSE * v == Magnitude(d) * v * HALF_ULP_INVERSE;
  }

  lemma ScaleInequality(a: real, b: real, v: real)
    requires v > 0.0 && a <= b
    ensures a * v <= b * v
  {
  }

  lemma SmallError(d: real, m: real)
    requires Magnitude(d) * HALF_ULP_INVERSE <= m <= 2147483648.0
    ensures -0.5 < d < 0.5
  {
  }

  lemma Distribute(x: real, q: real, v: real)
    ensures (x - q) * v == x * v - q * v
  {
  }

  /** Multiplied back by v, the rounded quotient of u and v is less than one half away from u. */
  lemma ScaledQuotient(x: real, q: real, u: real, v: real)
    requires v > 0.0 && q * v == u && Magnitude(u) <= 2147483648.0
    requires Magnitude(x - q) * HALF_ULP_INVERSE <= Magnitude(q)
    ensures u - 0.5 < x * v < u + 0.5
  {
    ScaleError(x - q, q, v);
    SmallError((x - q) * v, Magnitude(u));
    Distribute(x, q, v);
  }

  lemma QuotientTimes(u: real, v: real)
    requires v > 0.0
    ensures (u / v) * v == u
  {
  }

  lemma NearlyMultiple(x: real, t: int, w: int)
    requires w > 0 && Magnitude(t as real) <= 2147483648.0 && RoundedQuotient(x, t, w)
    ensures t as real - 0.5 < x * w as real < t as real + 0.5
  {
    QuotientTimes(t as real, w as real);
    ScaledQuotient(x, t as real / w as real, t as real, w as real);
  }

  lemma StrictlyBelow(x: real, v: real, c: int, w: int)
    requires w > 0 && v == w as real && x * v < (c * w) as real
    ensures x < c as real
  {
    assert (c * w) as real == c as real * v;
    assert (c as real - x) * v == c as real * v - x * v;
    PositiveFactor(c as real - x, v);
  }

  lemma StrictlyAbove(x: real, v: real, c: int, w: int)
    requires w > 0 && v == w as real && x * v > (c * w) as real
    ensures x > c as real
  {
    assert (c * w) as real == c as real * v;
    assert (x - c as real) * v == x * v - c as real * v;
    PositiveFactor(x - c as real, v);
  }

  lemma QuotientOfMultiple(t: int, w: int, c: int)
    requires w > 0 && t == c * w
    ensures t as real / w as real == c as real
  {
    assert t as real == c as real * w as real;
  }

  lemma CeilDivExact(t: int, w: int)
    requires w > 0
    ensures t % w == 0 <==> CeilDiv(t, w) * w == t
  {
    var c := CeilDiv(t, w);
    var q := t / w;
    assert t == w * q + t % w;
    ModBounds(t, w);
    CeilDivBounds(t, w);
    Difference(c, q, w);
    Difference(q, c, w);
  }

  lemma Between(x: real, t: int, w: int, c: int)
    requires w > 0 && (c - 1) * w < t < c * w && t as real - 0.5 < x * w as real < t as real + 0.5
    ensures IsCeiling(x, c)
  {
    StrictlyBelow(x, w as real, c, w);
    StrictlyAbove(x, w as real, c - 1, w);
  }

  lemma Beside(t: int, w: int)
    requires w > 0
    ensures var c := CeilDiv(t, w); if t % w == 0 then t == c * w else (c - 1) * w < t < c * w
  {
    var c := CeilDiv(t, w);
    CeilDivBounds(t, w);
    CeilDivExact(t, w);
    assert (c - 1) * w == c * w - w;
  }

  lemma PositiveCeiling(x: real, t: int, w: int)
    requires w > 0 && Magnitude(t as real) <= 2147483648.0 && RoundedQuotient(x, t, w)
    ensures IsCeiling(x, CeilDiv(t, w))
  {
    hide CeilDiv, Magnitude;
    Beside(t, w);
    if t % w == 0 {
      QuotientOfMultiple(t, w, CeilDiv(t, w));
    } else {
      NearlyMultiple(x, t, w);
      Between(x, t, w, CeilDiv(t, w));
    }
  }

  lemma RealQuotient(t: real, w: real)
    requires w != 0.0
    ensures t / w == (-t) / (-w)
  {
    assert (t / w) * w == t;
    assert (t / w) * (-w) == -t;
  }

  lemma NegatedMultiple(t: int, w: int)
    requires w < 0 && (-t) % (-w) == 0
    ensures t % w == 0
  {
    var k := (-t) / (-w);
    assert -t == (-w) * k;
    assert t == w * k;
    MultipleModulo(k, w);
  }

  /** Both signs turned, the quotient is the same. */
  lemma NegatedQuotient(x: real, t: int, w: int)
    requires w < 0 && RoundedQuotient(x, t, w)
    ensures RoundedQuotient(x, -t, -w)
  {
    hide Magnitude;
    RealQuotient(t as real, w as real);
    assert (-t) as real == -(t as real) && (-w) as real == -(w as real);
    if (-t) % (-w) == 0 {
      NegatedMultiple(t, w);
    }
  }

  lemma MultipleModulo(k: int, w: int)
    requires w < 0
    ensures (w * k) % w == 0
  {
    var r := (w * k) % w;
    assert w * k == w * ((w * k) / w) + r && 0 <= r < -w;
    var d := k - (w * k) / w;
    assert w * d == r;
    if d >= 1 {
      Difference(d, 0, -w);
    } else if d <= -1 {
      Difference(0, d, -w);
    }
  }

  lemma SignedCeiling(x: real, t: int, w: int)
    requires w != 0 && -0x8000_0000 <= t <= 0x7fff_ffff && RoundedQuotient(x, t, w)
    ensures IsCeiling(x, CeilDiv(t, w))
  {
    hide RoundedQuotient, IsCeiling;
    if w > 0 {
      PositiveCeiling(x, t, w);
    } else {
      NegatedQuotient(x, t, w);
      PositiveCeiling(x, -t, -w);
    }
  }

  lemma CeilingByOne(t: int)
    ensures CeilDiv(t, 1) == t
  {
  }

  lemma ExactIsRounded(q: real, t: int, w: int)
    requires w != 0 && q == t as real / w as real
    ensures RoundedQuotient(q, t, w)
  {
  }

  /** The integer ceiling is that of the exact quotient. */
  lemma CeilDivIsCeiling(t: int, w: int)
    requires w != 0
    ensures IsCeiling(t as real / w as real, CeilDiv(t, w))
  {
    if w > 0 {
      ExactCeiling(t, w);
    } else {
      ExactCeiling(-t, -w);
      RealQuotient(t as real, w as real);
      assert (-t) as real == -(t as real) && (-w) as real == -(w as real);
    }
  }

  lemma ExactCeiling(t: int, w: int)
    requires w > 0
    ensures IsCeiling(t as real / w as real, CeilDiv(t, w))
  {
    hide CeilDiv;
    Beside(t, w);
    var q := t as real / w as real;
    assert q * w as real == t as real;
    if t % w == 0 {
      QuotientOfMultiple(t, w, CeilDiv(t, w));
    } else {
      Between(q, t, w, CeilDiv(t, w));
    }
  }

  /** Rounding the quotient to a float64 never changes its ceiling, the per-second limit; it fits an int32 but for
      one quotient. */
  lemma FloatCeilingIsExact(x: real, t: int32, w: int32)
    requires w != 0 && RoundedQuotient(x, t, w)
    ensures IsCeiling(t as real / w as real, Ceil(x)) && Ceil(x) == CeilDiv(t, w)
    ensures -0x8000_0000 <= Ceil(x) <= 0x7fff_ffff <==> !Overflows(t, w)
  {
    hide RoundedQuotient, IsCeiling, Ceil;
    var q := t as real / w as real;
    ExactIsRounded(q, t, w);
    SignedCeiling(x, t, w);
    SignedCeiling(q, t, w);
    CeilIs(x, CeilDiv(t, w));
    if !Overflows(t, w) {
      CeilDivFits(t, w);
    }
  }
}
