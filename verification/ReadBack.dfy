/** Reading a decimal that is close enough to a float gives that float back,
    although the power of five on the way is itself rounded. */
module ReadBack {
  import opened Powers
  import opened Reals
  import opened Floats
  import opened PowerOfFive
  import opened PowerOfFiveBound

  // The distance between neighbouring floats.

  /** Two different p-bit floats are at least 2^-p of either apart. */
  lemma Gap(m: nat, e: int, m': nat, e': int, p: nat)
    requires InBits(m, p) && InBits(m', p) && V(m, e) != V(m', e')
    ensures Abs(V(m, e) - V(m', e')) >= Eps(p) * V(m, e)
  {
    hide V, Exp, Eps, Abs, Pow;
    ScaleV(m', e', e);
    InUnits(m, e);
    if V(m', e' - e) != m as real {
      UnitGap(m, m', e' - e, p);
    }
    ScaleGap(Exp(2, e), m as real, V(m', e' - e), V(m, e), V(m', e'), Eps(p));
  }

  lemma InUnits(m: nat, e: int)
    ensures V(m, e) == Exp(2, e) * m as real
  {}

  lemma ScaleGap(g: real, x: real, y: real, gx: real, gy: real, eps: real)
    requires g > 0.0 && gx == g * x && gy == g * y && gx != gy
    requires x != y ==> Abs(x - y) >= eps * x
    ensures Abs(gx - gy) >= eps * gx
  {
    hide Abs;
    assert x != y;
    AbsScale(g, x, y, gx, gy);
    RMulLe(g, eps * x, Abs(x - y));
    RAssoc(g, eps, x);
  }

  lemma UnitGap(m: nat, m': nat, h: int, p: nat)
    requires InBits(m, p) && InBits(m', p) && V(m', h) != m as real
    ensures Abs(m as real - V(m', h)) >= Eps(p) * m as real
  {
    hide V, Exp, Eps, Pow;
    MantissaUnits(m, p);
    if h >= 0 {
      WholeFloat(m', h);
      WholeGap(m, m' * Pow(2, h), V(m', h));
    } else {
      BelowUnit(m', h, p);
    }
  }

  lemma WholeGap(m: nat, n: nat, v: real)
    requires v == n as real && v != m as real
    ensures Abs(m as real - v) >= 1.0
  {
    assert m < n || n < m;
  }

  /** A full mantissa in units of roundoff. */
  lemma MantissaUnits(m: nat, p: nat)
    requires InBits(m, p)
    ensures Eps(p) * m as real < 1.0
    ensures m == Pow(2, p - 1) ==> Eps(p) * m as real == 0.5
  {
    hide Pow, Exp, Eps;
    HalfUnit(p);
    BelowTop(m, p, Pow(2, p) as real);
  }

  lemma BelowTop(m: nat, p: nat, top: real)
    requires top == Pow(2, p) as real && m as real < top
    ensures Eps(p) * m as real < 1.0
  {
    hide *;
    OverflowEps(p);
    ScaleLess(Eps(p), m as real, top, Eps(p) * m as real, 1.0);
  }

  /** A float with a smaller exponent is half a unit below every full mantissa. */
  lemma BelowUnit(m: nat, h: int, p: nat)
    requires InBits(m, p) && h < 0
    ensures V(m, h) <= Pow(2, p - 1) as real - 0.5
  {
    hide Exp;
    ExpMono(2, h, -1);
    ExpStep(2, -1);
    ExpZero(2);
    HalfOf(m as real, Exp(2, h), Exp(2, -1), V(m, h));
    assert Pow(2, p) == 2 * Pow(2, p - 1);
    assert m as real <= 2.0 * Pow(2, p - 1) as real - 1.0;
  }

  /** A float has one representation with a full mantissa. */
  lemma SameFloat(m: nat, e: int, m': nat, e': int, p: nat)
    requires InBits(m, p) && InBits(m', p) && V(m, e) == V(m', e')
    ensures m == m' && e == e'
  {
    hide V, Exp, Pow;
    BitLenUnique(m, p);
    BitLenUnique(m', p);
    ValueBits(m, e);
    ValueBits(m', e');
    ExpOrder(e + p - 1, e' + p);
    ExpOrder(e' + p - 1, e + p);
    SameMantissa(m, m', e);
  }

  lemma SameMantissa(m: nat, m': nat, e: int)
    requires V(m, e) == V(m', e)
    ensures m == m'
  {
    hide Exp;
    RCancel(Exp(2, e), m as real, m' as real);
  }

  // Rounding gives back the float the value is close to.

  /** y is less than half a gap away from v. */
  ghost predicate HalfGap(y: real, v: real, p: nat) {
    2.0 * Abs(y - v) < Eps(p) * v
  }

  lemma RoundsBack(y: real, f: Fl, m: nat, e: int, p: nat)
    requires f.Finite? && InBits(m, p) && HalfGap(y, V(m, e), p) && RoundsTo(y, f, p)
    ensures f == Finite(m, e + p, p)
  {
    hide RoundsTo, V, Exp, Eps, Pow;
    FiniteRound(y, f, p);
    NearestBack(y, f.mant, f.exp - p, m, e, p);
  }

  lemma NearestBack(y: real, m': nat, e': int, m: nat, e: int, p: nat)
    requires InBits(m, p) && HalfGap(y, V(m, e), p) && Nearest(y, m', e', p)
    ensures m' == m && e' == e
  {
    hide V, Exp, Eps, Pow;
    if V(m, e) != V(m', e') {
      FullMantissa(y, m', e', p);
      Gap(m, e, m', e', p);
    }
    assert Beats(y, m', e', m, e, p);
    Separated(y, V(m, e), V(m', e'), Eps(p) * V(m, e));
    SameFloat(m', e', m, e, p);
  }

  lemma FullMantissa(y: real, m: nat, e: int, p: nat)
    requires Nearest(y, m, e, p)
    ensures InBits(m, p)
  {}

  lemma Separated(y: real, v: real, w: real, gap: real)
    requires 2.0 * Abs(y - v) < gap && Abs(y - w) <= Abs(y - v)
    requires v != w ==> Abs(v - w) >= gap
    ensures v == w
  {}

  // The decimal's value, as the conversion computes it.

  const TWO32: nat := 0x1_0000_0000

  /** The exact decimal as a float: all its digits, scaled by the power of two.
      The precision field is a u32. */
  function ExactDecimal(d: nat, exp5: int): Fl {
    Finite(d, BitLen(d) + exp5, BitLen(d) % TWO32)
  }

  /** d * 10^exp5 rounded to prec bits, by one multiplication or division by a
      power of five held at prec + 64 bits. */
  function FromDecimal(d: nat, exp5: int, prec: nat): Fl
    requires d > 0
  {
    if exp5 == 0 then RoundInto(d, BitLen(d), prec, false)
    else if exp5 > 0 then Mul(ExactDecimal(d, exp5), Pow5(exp5, prec + 64), prec)
    else
      Pow5Positive(-exp5, prec + 64);
      Quo(ExactDecimal(d, exp5), Pow5(-exp5, prec + 64), prec)
  }

  lemma Pow5Positive(n: nat, prec: nat)
    requires prec > 0
    ensures Pow5(n, prec).Finite? ==> Pow5(n, prec).mant > 0
  {
    if n <= TABLE_MAX {
      PowersOfFiveBits(n);
      FromU64Rounds(Pow(5, n), prec);
    } else if Pow5(n, prec).Finite? {
      Pow5Encloses(n, prec);
    }
  }

  function DecimalValue(d: nat, exp5: int): (r: real)
    ensures d > 0 ==> r > 0.0
  {
    Positive(d as real, Exp(10, exp5));
    d as real * Exp(10, exp5)
  }

  /** What the conversion computes before its last rounding. */
  ghost function Computed(d: nat, exp5: int, prec: nat): real
    requires d > 0
    requires Normalized(Pow5(if exp5 < 0 then -exp5 else exp5, prec + 64))
  {
    if exp5 == 0 then d as real
    else if exp5 > 0 then Val(ExactDecimal(d, exp5)) * Val(Pow5(exp5, prec + 64))
    else Val(ExactDecimal(d, exp5)) / Val(Pow5(-exp5, prec + 64))
  }

  lemma ExactValue(d: nat, exp5: int)
    requires d > 0 && BitLen(d) < TWO32
    ensures ExactDecimal(d, exp5).Finite? && ExactDecimal(d, exp5).mant == d
    ensures Val(ExactDecimal(d, exp5)) == V(d, exp5)
  {
    hide V, BitLen;
  }

  /** y lies strictly within the exponent range. */
  ghost predicate WellInRange(y: real) {
    Exp(2, -0x4000_0000) <= y < Exp(2, 0x4000_0000)
  }

  lemma ExponentInRange(y: real, e: int)
    requires WellInRange(y) && Exp(2, e - 1) <= y < Exp(2, e)
    ensures -0x4000_0000 < e <= 0x4000_0000
  {
    hide Exp;
    ExpOrder(-0x4000_0000, e);
    ExpOrder(e - 1, 0x4000_0000);
  }

  lemma CarriedBits(y: real, q: nat, g: int, t: real)
    requires q > 0 && 0.0 <= t < 1.0 && y == Exp(2, g) * (q as real + t)
    ensures Exp(2, g + BitLen(q) - 1) <= y < Exp(2, g + BitLen(q))
  {
    hide Exp, BitLen, Pow;
    var b := BitLen(q);
    BitLenBounds(q);
    ExpNat(2, b);
    ExpNat(2, b - 1);
    ExpAdd(2, g, b);
    ExpAdd(2, g, b - 1);
    assert q as real + t < Pow(2, b) as real;
    ScaleLe(Exp(2, g), Exp(2, b - 1), q as real + t, Exp(2, g + b - 1), y);
    ScaleLess(Exp(2, g), q as real + t, Exp(2, b), y, Exp(2, g + b));
  }

  lemma ProductRoundsBack(x: Fl, y: Fl, prec: nat)
    requires x.Finite? && y.Finite? && x.mant > 0 && y.mant > 0 && prec > 0
    requires WellInRange(Val(x) * Val(y))
    ensures Mul(x, y, prec).Finite? && RoundsTo(Val(x) * Val(y), Mul(x, y, prec), prec)
  {
    hide RoundsTo, RoundInto, BitLen, Exp, V, WellInRange;
    var product, g := x.mant * y.mant, x.exp + y.exp - x.prec - y.prec;
    MulLe(1, x.mant, 1, y.mant);
    MulValue(x.mant, x.exp - x.prec, y.mant, y.exp - y.prec);
    ValueBits(product, g);
    ExponentInRange(V(product, g), g + BitLen(product));
    FiniteInRange(product, g + BitLen(product), prec, false);
    MulNearest(x, y, prec);
  }

  lemma QuotientRoundsBack(x: Fl, y: Fl, prec: nat)
    requires x.Finite? && y.Finite? && x.mant > 0 && y.mant > 0 && prec > 0
    requires WellInRange(Val(x) / Val(y))
    ensures Quo(x, y, prec).Finite? && RoundsTo(Val(x) / Val(y), Quo(x, y, prec), prec)
  {
    hide RoundsTo, RoundInto, BitLen, Exp, V, WellInRange, QuoNum, QuoDen;
    var s := QuoShift(x.mant, y.mant, prec);
    var num, den := QuoNum(x.mant, s), QuoDen(y.mant, s);
    var q := Quot(num, den);
    QuoBits(x.mant, y.mant, prec);
    QuoValue(x.mant, x.exp - x.prec, y.mant, y.exp - y.prec, s);
    Fraction(num % den, den);
    CarriedBits(Val(x) / Val(y), q, QuoExp(x, y, prec) - BitLen(q), (num % den) as real / den as real);
    ExponentInRange(Val(x) / Val(y), QuoExp(x, y, prec));
    FiniteInRange(q, QuoExp(x, y, prec), prec, num % den != 0);
    QuoNearest(x, y, prec);
  }

  lemma FromDecimalRounds(d: nat, exp5: int, prec: nat)
    requires d > 0 && BitLen(d) < TWO32 && prec > 0
    requires Normalized(Pow5(if exp5 < 0 then -exp5 else exp5, prec + 64))
    requires WellInRange(Computed(d, exp5, prec))
    ensures FromDecimal(d, exp5, prec).Finite?
    ensures RoundsTo(Computed(d, exp5, prec), FromDecimal(d, exp5, prec), prec)
  {
    hide V, Exp, Pow5, BitLen, WellInRange, RoundsTo, Mul, Quo, RoundInto, ExactDecimal, Pow;
    ExactValue(d, exp5);
    if exp5 == 0 {
      WholeRounds(d, prec);
    } else if exp5 > 0 {
      var x, p := ExactDecimal(d, exp5), Pow5(exp5, prec + 64);
      SameReal(Computed(d, exp5, prec), Val(x) * Val(p), FromDecimal(d, exp5, prec), prec);
      ProductRoundsBack(x, p, prec);
    } else {
      QuotientRoundsBack(ExactDecimal(d, exp5), Pow5(-exp5, prec + 64), prec);
    }
  }

  lemma SameReal(v: real, w: real, f: Fl, p: nat)
    requires v == w
    ensures WellInRange(v) == WellInRange(w) && RoundsTo(v, f, p) == RoundsTo(w, f, p)
  {}

  lemma WholeRounds(d: nat, prec: nat)
    requires d > 0 && prec > 0 && WellInRange(d as real)
    ensures var f := RoundInto(d, BitLen(d), prec, false);
            f.Finite? && RoundsTo(d as real, f, prec)
  {
    hide Exp, BitLen, WellInRange, RoundsTo, RoundInto, Carries;
    UnitScale(d);
    UnitTimes(d);
    CarriedBits(d as real, d, 0, 0.0);
    ExponentInRange(d as real, BitLen(d));
    FiniteInRange(d, BitLen(d), prec, false);
    RoundIntoNearest(d, BitLen(d), prec, false, d as real, 0.0);
  }

  // How far the computed value is from the decimal's, and from the float's.

  lemma ComputedClose(d: nat, exp5: int, prec: nat)
    requires d > 0 && BitLen(d) < TWO32 && -(Pow(2, 20) as int) < exp5 < Pow(2, 20)
    ensures Normalized(Pow5(if exp5 < 0 then -exp5 else exp5, prec + 64))
    ensures CloseTo(Computed(d, exp5, prec), DecimalValue(d, exp5), 128.0 * Eps(prec + 64))
  {
    hide *;
    var n := if exp5 < 0 then -exp5 else exp5;
    Pow5Close(n, prec + 64);
    SmallDelta(prec);
    ExactValue(d, exp5);
    var five, p, v := Pow(5, n) as real, Val(Pow5(n, prec + 64)), V(d, exp5);
    ComputedForm(d, exp5, prec);
    DecimalForm(d, exp5, n);
    if exp5 == 0 {
      Positive(128.0 * Eps(prec + 64), d as real);
      CloseToItself(d as real, 128.0 * Eps(prec + 64));
    } else if exp5 > 0 {
      CloseProduct(v, five, p, Computed(d, exp5, prec), DecimalValue(d, exp5), 64.0 * Eps(prec + 64));
    } else {
      CloseQuotient(v, five, p, Computed(d, exp5, prec), DecimalValue(d, exp5), 64.0 * Eps(prec + 64));
    }
  }

  lemma SmallDelta(prec: nat)
    ensures 0.0 < 64.0 * Eps(prec + 64) <= 0.25
  {
    hide Exp;
    ExpMono(2, -(prec + 64), -8);
    ExpNeg(2, 8);
    ExpNat(2, 8);
    assert Pow(2, 8) == 256;
  }

  lemma ComputedForm(d: nat, exp5: int, prec: nat)
    requires d > 0 && BitLen(d) < TWO32
    requires Normalized(Pow5(if exp5 < 0 then -exp5 else exp5, prec + 64))
    ensures exp5 == 0 ==> Computed(d, exp5, prec) == d as real
    ensures exp5 > 0 ==> Computed(d, exp5, prec) == V(d, exp5) * Val(Pow5(exp5, prec + 64))
    ensures exp5 < 0 ==> Computed(d, exp5, prec) * Val(Pow5(-exp5, prec + 64)) == V(d, exp5)
  {
    hide V, BitLen, Pow5, ExactDecimal, Pow;
    ExactValue(d, exp5);
    if exp5 > 0 {
      SameProduct(Val(ExactDecimal(d, exp5)), V(d, exp5), Val(Pow5(exp5, prec + 64)));
    } else if exp5 < 0 {
      QuoTimes(Val(ExactDecimal(d, exp5)), Val(Pow5(-exp5, prec + 64)));
    }
  }

  lemma SameProduct(a: real, b: real, c: real)
    requires a == b
    ensures a * c == b * c
  {}

  /** The decimal's value over the power of five. */
  lemma DecimalForm(d: nat, exp5: int, n: nat)
    requires d > 0 && n == if exp5 < 0 then -exp5 else exp5
    ensures exp5 == 0 ==> DecimalValue(d, exp5) == d as real
    ensures exp5 > 0 ==> DecimalValue(d, exp5) == V(d, exp5) * Pow(5, n) as real
    ensures exp5 < 0 ==> DecimalValue(d, exp5) * Pow(5, n) as real == V(d, exp5)
  {
    hide Exp;
    ExpTen(exp5);
    ExpNat(5, n);
    ExpZero(10);
    RAssoc(d as real, Exp(2, exp5), Exp(5, exp5));
    if exp5 < 0 {
      ExpNeg(5, exp5);
      DecimalDown(d as real, Exp(2, exp5), Exp(5, exp5), Exp(5, n), DecimalValue(d, exp5));
    }
  }

  lemma DecimalDown(d: real, two: real, five: real, inverse: real, w: real)
    requires five * inverse == 1.0 && w == (d * two) * five
    ensures w * inverse == d * two
  {
    RAssoc(d * two, five, inverse);
  }

  lemma CloseProduct(a: real, f: real, p: real, ap: real, af: real, delta: real)
    requires a > 0.0 && f > 0.0 && 0.0 < delta && CloseTo(p, f, delta) && ap == a * p && af == a * f
    ensures CloseTo(ap, af, 2.0 * delta)
  {
    var df := delta * f;
    Positive(delta, f);
    ScaleLe(a, f - df, p, a * (f - df), ap);
    ScaleLe(a, p, f + df, ap, a * (f + df));
    Distribute(a, f, df);
    RAssoc(a, delta, f);
    Positive(a, df);
  }

  lemma Distribute(a: real, x: real, y: real)
    ensures a * (x - y) == a * x - a * y && a * (x + y) == a * x + a * y
  {}

  /** Dividing by a close divisor: y = a / p against w = a / f. */
  lemma CloseQuotient(a: real, f: real, p: real, y: real, w: real, delta: real)
    requires a > 0.0 && f > 0.0 && 0.0 < delta <= 0.25 && CloseTo(p, f, delta)
    requires y * p == a && w * f == a && w > 0.0
    ensures CloseTo(y, w, 2.0 * delta)
  {
    QuotientAbove(a, f, p, y, w, delta);
    QuotientBelow(a, f, p, y, w, delta);
  }

  lemma QuotientAbove(a: real, f: real, p: real, y: real, w: real, delta: real)
    requires a > 0.0 && f > 0.0 && 0.0 < delta <= 0.25 && f - delta * f <= p
    requires y * p == a && w * f == a && w > 0.0
    ensures y <= w * (1.0 + 2.0 * delta)
  {
    var r, s := 1.0 - delta, 1.0 + 2.0 * delta;
    ExpandDelta(delta);
    Positive(f, r);
    Shuffle(f, r, w, s);
    Grows(a, r * s, a * (r * s));
    if y > w * s {
      Positive(w, s);
      ScaleLe(y, f * r, p, y * (f * r), a);
      ScaleLess(f * r, w * s, y, (f * r) * (w * s), y * (f * r));
    }
  }

  lemma ExpandDelta(delta: real)
    requires 0.0 < delta <= 0.25
    ensures (1.0 - delta) * (1.0 + 2.0 * delta) >= 1.0
    ensures (1.0 + delta) * (1.0 - 2.0 * delta) <= 1.0
  {
    ScaleLe(delta, delta, 0.25, delta * delta, delta * 0.25);
    ScaleLe(delta, 0.0, delta, 0.0, delta * delta);
    DeltaProducts(delta, delta * delta);
  }

  lemma DeltaProducts(x: real, xx: real)
    requires xx == x * x
    ensures (1.0 - x) * (1.0 + 2.0 * x) == 1.0 + x - 2.0 * xx
    ensures (1.0 + x) * (1.0 - 2.0 * x) == 1.0 - x - 2.0 * xx
  {}

  lemma QuotientBelow(a: real, f: real, p: real, y: real, w: real, delta: real)
    requires a > 0.0 && f > 0.0 && 0.0 < delta <= 0.25 && 0.0 < p <= f + delta * f
    requires y * p == a && w * f == a && w > 0.0
    ensures y >= w * (1.0 - 2.0 * delta)
  {
    var r, s := 1.0 + delta, 1.0 - 2.0 * delta;
    ExpandDelta(delta);
    Positive(w, s);
    Shuffle(f, r, w, s);
    ScaleLe(a, r * s, 1.0, a * (r * s), a);
    if y < w * s {
      ScaleLe(w * s, p, f * r, p * (w * s), (f * r) * (w * s));
      ScaleLess(p, y, w * s, a, p * (w * s));
    }
  }

  /** w is close enough to v to be read back: half a gap, less a part in 2^40. */
  ghost predicate Readable(w: real, v: real, p: nat) {
    2.0 * Abs(w - v) * (1.0 + Eps(40)) <= Eps(p) * v
  }

  /** The rounded power of five does not move a readable decimal past the half
      gap. */
  lemma StillHalfGap(y: real, w: real, v: real, p: nat)
    requires v > 0.0 && w > 0.0 && p > 0 && Readable(w, v, p) && CloseTo(y, w, 128.0 * Eps(p + 64))
    ensures HalfGap(y, v, p) && 0.5 * v <= y <= 2.0 * v
  {
    hide Exp, Eps;
    var u, d, e := Eps(p) * v, Abs(w - v), 128.0 * Eps(p + 64) * w;
    EpsSmall(p);
    ScaleLe(v, Eps(p), 0.5, u, v * 0.5);
    ReadableLinear(w, v, p);
    FineUnits(p, w, v, u, e);
    HalfGapLinear(y, w, v, u, d, e);
  }

  lemma ReadableLinear(w: real, v: real, p: nat)
    requires Readable(w, v, p)
    ensures 2.0 * Abs(w - v) * (1.0 + 1.0 / 1099511627776.0) <= Eps(p) * v
  {
    hide Exp, Abs;
    ExpNeg(2, 40);
    ExpNat(2, 40);
    TwoTo40();
    hide Pow;
    assert Eps(40) == 1.0 / 1099511627776.0;
  }

  /** In units of the float's precision, the power of five's error is tiny. */
  lemma FineUnits(p: nat, w: real, v: real, u: real, e: real)
    requires 0.0 < w <= 2.0 * v && u == Eps(p) * v && e == 128.0 * Eps(p + 64) * w
    ensures 0.0 <= e <= u / 10000000000000000.0
  {
    hide Exp, Eps;
    var t := Eps(p + 64);
    FineEps(p);
    ScaleLe(t, 0.0, w, 0.0, t * w);
    ScaleLe(t, w, 2.0 * v, t * w, t * (2.0 * v));
    ScaleLe(v, t * 10000000000000000000.0, Eps(p), v * (t * 10000000000000000000.0), u);
  }

  lemma FineEps(p: nat)
    ensures Eps(p + 64) * 10000000000000000000.0 <= Eps(p)
  {
    hide Exp;
    ExpAdd(2, -(p as int), -64);
    ExpNeg(2, 64);
    ExpNat(2, 64);
    TwoTo64();
    hide Pow;
    FineStep(Eps(p), Exp(2, -64), Eps(p + 64));
  }

  lemma FineStep(u: real, t: real, ut: real)
    requires u > 0.0 && t > 0.0 && t * 18446744073709551616.0 == 1.0 && ut == u * t
    ensures ut * 10000000000000000000.0 <= u
  {
    ScaleLe(u, t, 1.0 / 10000000000000000000.0, ut, u * (1.0 / 10000000000000000000.0));
  }

  lemma HalfGapLinear(y: real, w: real, v: real, u: real, d: real, e: real)
    requires d == Abs(w - v) && Abs(y - w) <= e && 0.0 < u <= 0.5 * v
    requires 2.0 * d * (1.0 + 1.0 / 1099511627776.0) <= u && e <= u / 10000000000000000.0
    ensures 2.0 * Abs(y - v) < u && 0.5 * v <= y <= 2.0 * v
  {}

  /** The power of five's rounding is absorbed: a decimal readable as m * 2^e is
      converted to exactly that float. */
  lemma DecimalBack(d: nat, exp5: int, m: nat, e: int, p: nat)
    requires InBits(m, p) && -0x2000_0000 <= e + p <= 0x2000_0000
    requires d > 0 && BitLen(d) < TWO32 && -(Pow(2, 20) as int) < exp5 < Pow(2, 20)
    requires Readable(DecimalValue(d, exp5), V(m, e), p)
    ensures FromDecimal(d, exp5, p) == Finite(m, e + p, p)
  {
    hide *;
    FloatFacts(m, e, p);
    ComputedClose(d, exp5, p);
    var y, v := Computed(d, exp5, p), V(m, e);
    StillHalfGap(y, DecimalValue(d, exp5), v, p);
    NearInRange(y, v, e + p);
    FromDecimalRounds(d, exp5, p);
    RoundsBack(y, FromDecimal(d, exp5, p), m, e, p);
  }

  lemma FloatFacts(m: nat, e: int, p: nat)
    requires InBits(m, p)
    ensures p > 0 && V(m, e) > 0.0
    ensures Exp(2, e + p - 1) <= V(m, e) < Exp(2, e + p)
  {
    hide V, Pow;
    BitLenUnique(m, p);
    hide Exp;
    ValueBits(m, e);
  }

  lemma NearInRange(y: real, v: real, e: int)
    requires 0.5 * v <= y <= 2.0 * v && Exp(2, e - 1) <= v < Exp(2, e)
    requires -0x2000_0000 <= e <= 0x2000_0000
    ensures WellInRange(y)
  {
    hide Exp;
    ExpStep(2, e - 2);
    ExpStep(2, e);
    ExpMono(2, -0x4000_0000, e - 2);
    ExpMono(2, e + 1, 0x4000_0000);
  }
}
