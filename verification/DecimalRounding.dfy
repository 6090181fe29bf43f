/** Rounding an exact decimal expansion to N significant digits, half to even,
    and when the result still reads back as the float it came from. */
module DecimalRounding {
  import opened Powers
  import opened Reals
  import opened Decimals
  import opened Floats
  import opened PowTwoDigits
  import opened ReadBack

  /** n / d to the nearest integer, ties to even. */
  function DivHalfEven(n: nat, d: nat): nat
    requires d > 0
  {
    var q, r := n / d, n % d;
    if 2 * r > d || (2 * r == d && q % 2 == 1) then q + 1 else q
  }

  lemma DivHalfEvenNearest(n: nat, d: nat)
    requires d > 0
    ensures var k := DivHalfEven(n, d);
            && -(d as int) <= 2 * (k * d - n) <= d
            && (2 * (k * d - n) == d || 2 * (k * d - n) == -(d as int) ==> k % 2 == 0)
  {
    var q, r := n / d, n % d;
    assert n == q * d + r;
    assert (q + 1) * d == q * d + d;
  }

  /** The digits of n past the N-th. */
  function Excess(n: nat, digits: nat): (drop: nat) {
    if |ToDec(n)| > digits then |ToDec(n)| - digits else 0
  }

  /** n to N significant digits, in units of the last one kept. */
  function Significant(n: nat, digits: nat): (q: nat)
  {
    DivHalfEven(n, Pow(10, Excess(n, digits)))
  }

  lemma SignificantRange(n: nat, digits: nat)
    requires n > 0 && digits > 0
    ensures var q := Significant(n, digits);
            if |ToDec(n)| > digits then Pow(10, digits - 1) <= q <= Pow(10, digits)
            else q == n
  {
    hide ToDec;
    var drop := Excess(n, digits);
    if drop > 0 {
      ToDecLength(n);
      hide Pow;
      PowAdd(10, digits - 1, drop);
      PowAdd(10, digits, drop);
      QuotientBounds(n, Pow(10, digits - 1), Pow(10, digits), Pow(10, drop));
    } else {
      assert Pow(10, 0) == 1;
    }
  }

  // The exact decimal expansion of a binary float.

  /** m * 2^e is this integer, scaled down by Places(e) powers of ten. */
  function Expansion(m: nat, e: int): nat {
    if e >= 0 then m * Pow(2, e) else m * Pow(5, -e)
  }

  function Places(e: int): nat {
    if e >= 0 then 0 else -e
  }

  lemma ExpansionValue(m: nat, e: int)
    requires m > 0
    ensures Expansion(m, e) > 0
    ensures DecimalValue(Expansion(m, e), -(Places(e) as int)) == V(m, e)
  {
    hide Exp;
    if e >= 0 {
      MulLe(1, m, 1, Pow(2, e));
      WholeFloat(m, e);
      ExpZero(10);
    } else {
      MulLe(1, m, 1, Pow(5, -e));
      NatProduct(m, Pow(5, -e));
      ExpNat(5, -e);
      ExpNeg(5, e);
      ExpTen(e);
      FivesCancel(m as real, Exp(5, -e), Exp(5, e), Exp(2, e), Exp(10, e));
    }
  }

  lemma FivesCancel(m: real, five: real, inverse: real, two: real, ten: real)
    requires inverse * five == 1.0 && ten == two * inverse
    ensures (m * five) * ten == m * two
  {
    Shuffle(m, five, two, inverse);
  }

  /** Trailing zeros move into the exponent. */
  lemma DecimalShift(q: nat, drop: nat, x: int)
    ensures DecimalValue(q * Pow(10, drop), x) == DecimalValue(q, x + drop)
  {
    hide Exp;
    ExpAdd(10, x, drop);
    ExpNat(10, drop);
    NatProduct(q, Pow(10, drop));
    RAssoc(q as real, Pow(10, drop) as real, Exp(10, x));
    Commute(Exp(10, x), Exp(10, drop));
  }

  /** One digit more than 2^p has is enough: the rounded expansion is within
      half a gap of the float, with room to spare. */
  lemma SignificantReadable(n: nat, x: int, p: nat)
    requires n > 0 && 0 < p < 15437
    ensures var digits := BigFloatDigits(p);
            Readable(DecimalValue(Significant(n, digits), x + Excess(n, digits)), DecimalValue(n, x), p)
  {
    hide *;
    var digits := BigFloatDigits(p);
    var q, drop := Significant(n, digits), Excess(n, digits);
    MoreThanOne(p);
    DecimalShift(q, drop, x);
    SignificantError(n, digits, q, Pow(10, drop));
    if drop == 0 {
      NoError(n, q * Pow(10, drop), Pow(10, drop), drop);
      ReadableExact(DecimalValue(n, x), p);
    } else {
      ReadableError(n, drop, p);
      ScaledReadable(n, q * Pow(10, drop), Pow(10, drop), x, p);
    }
  }

  /** w is n rounded to a multiple of t. */
  ghost predicate HalfUnitApart(n: nat, w: nat, t: nat) {
    2 * w <= 2 * n + t && 2 * n <= 2 * w + t
  }

  lemma MoreThanOne(p: nat)
    ensures BigFloatDigits(p) == Pow2Digits(p) + 1 > 1
  {}

  lemma NoError(n: nat, w: nat, t: nat, drop: nat)
    requires drop == 0 && t == Pow(10, drop) && HalfUnitApart(n, w, t)
    ensures w == n
  {
    assert Pow(10, 0) == 1;
  }

  lemma ReadableExact(v: real, p: nat)
    requires v > 0.0
    ensures Readable(v, v, p)
  {
    hide Exp;
    Positive(Eps(p), v);
  }

  /** The error of rounding to the digits is half of the last one. */
  lemma SignificantError(n: nat, digits: nat, q: nat, t: nat)
    requires q == Significant(n, digits) && t == Pow(10, Excess(n, digits))
    ensures HalfUnitApart(n, q * t, t)
  {
    hide ToDec, Pow;
    DivHalfEvenNearest(n, t);
  }

  /** Half a unit of the last digit against the precision. */
  lemma ReadableError(n: nat, drop: nat, p: nat)
    requires n > 0 && 0 < p < 15437 && drop == Excess(n, BigFloatDigits(p)) > 0
    ensures Pow(10, drop) as real * (1.0 + Eps(40)) <= Eps(p) * n as real
  {
    hide *;
    var t := Pow(10, drop) as real;
    MoreThanOne(p);
    ManyDigits(n, BigFloatDigits(p), drop);
    TenAboveTwo(p);
    OverflowEps(p);
    DigitsCover(Pow(10, Pow2Digits(p)) as real, Pow(2, p) as real, 1.0 + Eps(40), Eps(p), t, n as real);
  }

  lemma ManyDigits(n: nat, digits: nat, drop: nat)
    requires n > 0 && digits > 0 && drop == Excess(n, digits) > 0
    ensures Pow(10, drop) > 0
    ensures Pow(10, digits - 1) as real * Pow(10, drop) as real <= n as real
  {
    hide ToDec, Pow;
    ToDecLength(n);
    PowAdd(10, digits - 1, drop);
    NatProduct(Pow(10, digits - 1), Pow(10, drop));
  }

  lemma DigitsCover(ten: real, two: real, g: real, eps: real, t: real, n: real)
    requires eps > 0.0 && t > 0.0 && g > 0.0 && eps * two == 1.0 && ten >= two * g && ten * t <= n
    ensures t * g <= eps * n
  {
    var gt := g * t;
    ScaleLe(t, two * g, ten, t * (two * g), ten * t);
    RAssoc(t, two, g);
    ScaleLe(eps, t * (two * g), n, eps * (t * (two * g)), eps * n);
    Regrouped(eps, two, g, t);
  }

  lemma Regrouped(eps: real, two: real, g: real, t: real)
    ensures eps * (t * (two * g)) == (eps * two) * (t * g)
  {}

  lemma ScaledReadable(n: nat, w: nat, t: nat, x: int, p: nat)
    requires HalfUnitApart(n, w, t) && t as real * (1.0 + Eps(40)) <= Eps(p) * n as real
    ensures Readable(DecimalValue(w, x), DecimalValue(n, x), p)
  {
    hide Exp, Eps;
    ScaledError(Exp(10, x), w as real, n as real, t as real, 1.0 + Eps(40), Eps(p),
                DecimalValue(w, x), DecimalValue(n, x));
  }

  lemma ScaledError(g: real, w: real, n: real, t: real, s: real, eps: real, gw: real, gn: real)
    requires g > 0.0 && s > 0.0 && gw == w * g && gn == n * g
    requires 2.0 * Abs(w - n) <= t && t * s <= eps * n
    ensures 2.0 * Abs(gw - gn) * s <= eps * gn
  {
    hide Abs;
    var a := Abs(w - n);
    AbsScale(g, w, n, gw, gn);
    ScaleLe(s, 2.0 * a, t, s * (2.0 * a), t * s);
    ScaleLe(g, s * (2.0 * a), eps * n, g * (s * (2.0 * a)), g * (eps * n));
    RAssoc(g, eps, n);
    assert 2.0 * (g * a) * s == g * (s * (2.0 * a));
  }
}
