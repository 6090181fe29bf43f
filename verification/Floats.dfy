/** The math/big-shaped binary float over naturals: what round_into, mul and quo
    compute, and that each result is the nearest float, ties to even. */
module Floats {
  import opened Powers
  import opened Reals

  const MAX_EXP: int := 0x7fff_ffff
  const MIN_EXP: int := -0x8000_0000

  /** A finite value is mant * 2^(exp - prec), mant in exactly prec bits once
      rounded. */
  datatype Fl = Zero | Inf | Finite(mant: nat, exp: int, prec: nat)

  predicate InBits(m: nat, p: nat) {
    p > 0 && Pow(2, p - 1) <= m < Pow(2, p)
  }

  function V(m: nat, e: int): (r: real)
    ensures m > 0 ==> r > 0.0
  {
    Positive(m as real, Exp(2, e));
    m as real * Exp(2, e)
  }

  lemma Positive(a: real, b: real)
    requires a >= 0.0 && b > 0.0
    ensures a > 0.0 ==> a * b > 0.0
  {}

  /** The value of a finite float. */
  function Val(f: Fl): (r: real)
    requires f.Finite?
    ensures f.mant > 0 ==> r > 0.0
  {
    V(f.mant, f.exp - f.prec)
  }

  /** m * 2^e is the p-bit float nearest to x, with an even mantissa in a tie
      (one-bit mantissas have no even one). */
  ghost predicate Nearest(x: real, m: nat, e: int, p: nat) {
    InBits(m, p) &&
    forall m': nat, e': int :: InBits(m', p) ==> Beats(x, m, e, m', e', p)
  }

  predicate Beats(x: real, m: nat, e: int, m': nat, e': int, p: nat) {
    && Abs(x - V(m, e)) <= Abs(x - V(m', e'))
    && (Abs(x - V(m, e)) == Abs(x - V(m', e')) && V(m, e) != V(m', e') ==> m % 2 == 0 || p == 1)
  }

  // Rounding an integer to fewer bits.

  /** Drop d bits of m: the kept bits, plus one when the first dropped bit is
      set and anything below it is, or else the kept part is odd. */
  function Rounded(m: nat, d: nat, sticky: bool): nat
    requires d > 0
  {
    var kept: nat := Quot(m, Pow(2, d));
    var rbit := (m / Pow(2, d - 1)) % 2 == 1;
    var sbit := sticky || m % Pow(2, d - 1) != 0;
    if rbit && (sbit || kept % 2 == 1) then kept + 1 else kept
  }

  /** setExpAndRound: round the value 0.mant * 2^exp to prec bits; sticky says
      non-zero bits below mant were dropped. */
  function RoundInto(mant: nat, exp: int, prec: nat, sticky: bool): Fl {
    var bits := BitLen(mant);
    if mant == 0 then Zero
    else if exp < MIN_EXP then Zero
    else if exp > MAX_EXP then Inf
    else if bits <= prec then Finite(mant * Pow(2, prec - bits), exp, prec)
    else
      var kept := Rounded(mant, bits - prec, sticky);
      if BitLen(kept) <= prec then Finite(kept, exp, prec)
      else if exp >= MAX_EXP then Inf
      else Finite(kept / 2, exp + 1, prec)
  }

  function Quot(m: nat, d: nat): nat
    requires d > 0
  {
    m / d
  }

  lemma SplitBits(m: nat, h: nat)
    requires h > 0
    ensures var q, low := m / (2 * h), m % (2 * h);
            && m == q * (2 * h) + low
            && (m / h) % 2 == (if low >= h then 1 else 0)
            && m % h == (if low >= h then low - h else low)
  {
    var q, low := m / (2 * h), m % (2 * h);
    assert q * (2 * h) == (2 * q) * h;
    if low >= h {
      assert (2 * q + 1) * h == (2 * q) * h + h;
      DivModUnique(m, h, 2 * q + 1, low - h);
    } else {
      DivModUnique(m, h, 2 * q, low);
    }
  }

  /** k is the integer nearest to mt / 2h, ties to even. */
  ghost predicate NearestMultiple(k: nat, h: nat, mt: real) {
    var err := (k * (2 * h)) as real - mt;
    && -(h as real) <= err <= h as real
    && (err == h as real || err == -(h as real) ==> k % 2 == 0)
  }

  /** Rounded is the integer nearest to (m + t) / 2^d, ties to even, where t is
      the dropped fraction that sticky reports. */
  lemma RoundedIsNearest(m: nat, d: nat, sticky: bool, t: real)
    requires d > 0 && 0.0 <= t < 1.0 && (sticky <==> t > 0.0)
    ensures NearestMultiple(Rounded(m, d, sticky), Pow(2, d - 1), m as real + t)
  {
    var k, h := Rounded(m, d, sticky), Pow(2, d - 1);
    SplitBits(m, h);
    var q, low := m / (2 * h), m % (2 * h);
    assert (q + 1) * (2 * h) == q * (2 * h) + 2 * h;
  }

  /** Dropping d bits of a number with more than d leaves one of the kept
      lengths. */
  lemma RoundedBits(m: nat, d: nat, sticky: bool)
    requires d > 0 && BitLen(m) > d
    ensures var k, p := Rounded(m, d, sticky), BitLen(m) - d;
            Pow(2, p - 1) <= k <= Pow(2, p)
  {
    var p := BitLen(m) - d;
    KeptBits(m, d);
    var q := m / Pow(2, d);
    assert Rounded(m, d, sticky) == q || Rounded(m, d, sticky) == q + 1;
  }

  lemma KeptBits(m: nat, d: nat)
    requires BitLen(m) > d
    ensures var p := BitLen(m) - d;
            Pow(2, p - 1) <= m / Pow(2, d) < Pow(2, p)
  {
    hide Pow;
    var p := BitLen(m) - d;
    BitLenBounds(m);
    PowAdd(2, p - 1, d);
    PowAdd(2, p, d);
    QuotientBounds(m, Pow(2, p - 1), Pow(2, p), Pow(2, d));
  }

  lemma QuotientBounds(m: nat, lo: nat, hi: nat, d: nat)
    requires d > 0 && lo * d <= m < hi * d
    ensures lo <= m / d < hi
  {
    var q := m / d;
    assert q * d <= m < q * d + d;
    assert (q + 1) * d == q * d + d;
    MulCancelLt(lo, q + 1, d);
    MulCancelLt(q, hi, d);
  }

  // From the scaled integer to all floats.

  lemma ScaleV(m: nat, e: int, g: int)
    ensures V(m, e) == Exp(2, g) * V(m, e - g)
  {
    hide Exp;
    ExpAdd(2, g, e - g);
    RAssoc(Exp(2, g), m as real, Exp(2, e - g));
  }

  /** A rounded y beats every float of the same length, in units of its last
      place. */
  lemma BeatsScaled(y: real, k: nat, m': nat, h: int, p: nat)
    requires InBits(m', p) && Pow(2, p - 1) <= k <= Pow(2, p)
    requires Pow(2, p - 1) as real <= y
    requires HalfEven(y, k)
    ensures Abs(y - k as real) <= Abs(y - V(m', h))
    ensures Abs(y - k as real) == Abs(y - V(m', h)) && V(m', h) != k as real ==> k % 2 == 0
  {
    hide V, Exp;
    if h >= 0 {
      WholeFloat(m', h);
      IntegerBeats(y, k, m' * Pow(2, h));
    } else {
      SmallFloat(m', h, p);
      IntegerBeats(y, k, Pow(2, p - 1));
    }
  }

  lemma WholeFloat(m: nat, h: nat)
    ensures V(m, h) == (m * Pow(2, h)) as real
  {
    ExpNat(2, h);
    NatProduct(m, Pow(2, h));
  }

  lemma IntegerBeats(y: real, k: nat, j: nat)
    requires HalfEven(y, k)
    ensures Abs(y - k as real) <= Abs(y - j as real)
    ensures Abs(y - k as real) == Abs(y - j as real) && j != k ==> k % 2 == 0
  {
    if j < k {
      assert k as real - j as real >= 1.0;
    } else if j > k {
      assert j as real - k as real >= 1.0;
    }
  }

  lemma SmallFloat(m: nat, h: int, p: nat)
    requires InBits(m, p) && h < 0
    ensures V(m, h) < Pow(2, p - 1) as real
  {
    hide Exp;
    ExpMono(2, h, -1);
    ExpStep(2, -1);
    ExpZero(2);
    HalfOf(m as real, Exp(2, h), Exp(2, -1), V(m, h));
    assert Pow(2, p) == 2 * Pow(2, p - 1);
  }

  lemma HalfOf(m: real, e: real, half: real, v: real)
    requires m >= 0.0 && e <= half && 2.0 * half == 1.0 && v == m * e
    ensures 2.0 * v <= m
  {
    RMulLe(m, e, half);
    assert m * half == m * 0.5;
  }

  /** The unit roundoff of p bits, 2^-p. */
  function Eps(p: nat): (u: real)
    ensures u > 0.0
  {
    Exp(2, -(p as int))
  }

  /** r is x up to one rounding to p bits. */
  ghost predicate Within(x: real, r: real, p: nat) {
    Abs(x - r) <= Eps(p) * x
  }

  /** A rounded integer that has carried past p bits is renormalized. */
  function Renormalized(k: nat, p: nat): nat
    requires p > 0
  {
    if k == Pow(2, p) then Pow(2, p - 1) else k
  }

  lemma RenormalizedEven(k: nat, p: nat)
    requires p > 0 && Pow(2, p - 1) <= k <= Pow(2, p)
    ensures InBits(Renormalized(k, p), p)
    ensures k % 2 == 0 ==> Renormalized(k, p) % 2 == 0 || p == 1
  {
    assert Pow(2, p) == 2 * Pow(2, p - 1);
    if p > 1 {
      assert Pow(2, p - 1) == 2 * Pow(2, p - 2);
    }
  }

  /** y in units of the last place, rounded to k. */
  ghost predicate HalfEven(y: real, k: nat) {
    && -0.5 <= k as real - y <= 0.5
    && (k as real - y == 0.5 || k as real - y == -0.5 ==> k % 2 == 0)
  }

  lemma BeatsOne(x: real, y: real, g: int, k: nat, p: nat, m: nat, e: int, m': nat, e': int)
    requires InBits(m', p) && Pow(2, p - 1) <= k <= Pow(2, p)
    requires x == Exp(2, g) * y && Pow(2, p - 1) as real <= y && HalfEven(y, k)
    requires V(m, e) == Exp(2, g) * k as real && (k % 2 == 0 ==> m % 2 == 0 || p == 1)
    ensures Beats(x, m, e, m', e', p)
  {
    hide V, Exp, Pow, Abs, HalfEven, InBits;
    BeatsScaled(y, k, m', e' - g, p);
    ScaleV(m', e', g);
    ScaledOrder(Exp(2, g), x, y, k as real, V(m, e), V(m', e' - g), V(m', e'));
  }

  /** x = y * 2^g, with y rounded to k, is nearest to the float k denotes. */
  lemma ScaledNearest(x: real, y: real, g: int, k: nat, p: nat, e: int)
    requires p > 0 && Pow(2, p - 1) <= k <= Pow(2, p)
    requires x == Exp(2, g) * y && Pow(2, p - 1) as real <= y && HalfEven(y, k)
    requires V(Renormalized(k, p), e) == Exp(2, g) * k as real
    ensures Nearest(x, Renormalized(k, p), e, p)
  {
    RenormalizedEven(k, p);
    hide V, Exp, Pow, HalfEven, Renormalized, Beats;
    forall m': nat, e': int | InBits(m', p)
      ensures Beats(x, Renormalized(k, p), e, m', e', p)
    {
      BeatsOne(x, y, g, k, p, Renormalized(k, p), e, m', e');
    }
  }

  /** Distances keep their order when everything is scaled. */
  lemma ScaledOrder(g: real, x: real, y: real, k: real, v: real, w: real, v': real)
    requires g > 0.0 && x == g * y && v == g * k && v' == g * w
    requires Abs(y - k) <= Abs(y - w)
    ensures Abs(x - v) <= Abs(x - v')
    ensures Abs(x - v) == Abs(x - v') ==> Abs(y - k) == Abs(y - w)
    ensures v != v' ==> w != k
  {
    AbsScale(g, y, k, x, v);
    AbsScale(g, y, w, x, v');
    ScaleOrder(g, Abs(y - k), Abs(y - w), Abs(x - v), Abs(x - v'));
  }

  lemma AbsScale(g: real, y: real, k: real, x: real, v: real)
    requires g > 0.0 && x == g * y && v == g * k
    ensures Abs(x - v) == g * Abs(y - k)
  {
    assert x - v == g * (y - k);
    if y >= k {
      RMulLe(g, 0.0, y - k);
    } else {
      RMulLt(g, y - k, 0.0);
      assert g * (k - y) == -(g * (y - k));
    }
  }

  lemma ScaleOrder(g: real, a: real, b: real, ga: real, gb: real)
    requires g > 0.0 && ga == g * a && gb == g * b
    ensures a <= b ==> ga <= gb
    ensures ga == gb ==> a == b
  {
    if a < b {
      RMulLt(g, a, b);
    } else if b < a {
      RMulLt(g, b, a);
    }
  }

  lemma RelativeError(x: real, y: real, g: int, k: nat, p: nat, v: real)
    requires p > 0 && x == Exp(2, g) * y && v == Exp(2, g) * k as real
    requires Pow(2, p - 1) as real <= y && HalfEven(y, k)
    ensures Within(x, v, p)
  {
    hide Exp, Eps, Abs, Pow, HalfEven;
    HalfEvenWithin(y, k);
    HalfUnit(p);
    var u := Exp(2, g);
    AbsScale(u, y, k as real, x, v);
    WithinEps(u, y, Abs(y - k as real), x, Abs(x - v), Eps(p), Pow(2, p - 1) as real);
  }

  lemma HalfEvenWithin(y: real, k: nat)
    requires HalfEven(y, k)
    ensures Abs(y - k as real) <= 0.5
  {}

  lemma HalfUnit(p: nat)
    requires p > 0
    ensures Eps(p) * Pow(2, p - 1) as real == 0.5
  {
    hide Exp;
    ExpNat(2, p - 1);
    ExpAdd(2, -(p as int), p - 1);
    ExpStep(2, -1);
    ExpZero(2);
  }

  lemma WithinEps(u: real, y: real, d: real, x: real, xd: real, eps: real, top: real)
    requires u > 0.0 && eps > 0.0 && x == u * y && xd == u * d
    requires d <= 0.5 && eps * top == 0.5 && top <= y
    ensures xd <= eps * x
  {
    RMulLe(eps, top, y);
    RMulLe(u, d, eps * y);
    AddUp(eps, u, y);
  }

  // The rounding theorem.

  /** The real that mant carries at scale g: mant itself, and the fraction t of
      its last bit that was dropped and is reported by sticky. */
  ghost predicate Carries(x: real, mant: nat, g: int, sticky: bool, t: real) {
    && 0.0 <= t < 1.0 && (sticky <==> t > 0.0)
    && x == Exp(2, g) * (mant as real + t)
  }

  /** f is x rounded to prec bits: the nearest float, or infinity past the top
      exponent. */
  ghost predicate RoundsTo(x: real, f: Fl, prec: nat) {
    match f
    case Zero => false
    case Inf => x >= Exp(2, MAX_EXP) * (1.0 - Eps(prec))
    case Finite(m, e, p) => p == prec && Nearest(x, m, e - p, p) && Within(x, Val(f), p)
  }

  lemma RoundsToFinite(x: real, m: nat, e: int, p: nat)
    requires Nearest(x, m, e - p, p) && Within(x, V(m, e - p), p)
    ensures RoundsTo(x, Finite(m, e, p), p)
  {
    hide Within, V, Exp, Eps, Nearest, Abs;
  }

  lemma RoundIntoNearest(mant: nat, exp: int, prec: nat, sticky: bool, x: real, t: real)
    requires mant > 0 && prec > 0 && MIN_EXP <= exp <= MAX_EXP
    requires Carries(x, mant, exp - BitLen(mant), sticky, t)
    requires sticky ==> BitLen(mant) > prec
    ensures RoundsTo(x, RoundInto(mant, exp, prec, sticky), prec)
  {
    hide RoundsTo, Carries, Pow, Rounded, BitLen;
    if BitLen(mant) <= prec {
      ExactRound(mant, exp, prec, x, t);
    } else {
      var k := Rounded(mant, BitLen(mant) - prec, sticky);
      RoundedCase(mant, exp, prec, sticky, x, t);
      RoundedBits(mant, BitLen(mant) - prec, sticky);
      CarryBits(k, prec);
    }
  }

  /** What rounding to a finite float gives. */
  lemma FiniteRound(x: real, f: Fl, p: nat)
    requires RoundsTo(x, f, p) && f.Finite?
    ensures Normalized(f) && f.prec == p
    ensures Nearest(x, f.mant, f.exp - p, p) && Within(x, Val(f), p)
  {
    hide Within, V, Eps, Abs, Beats, Pow;
  }

  /** Rounding is finite exactly for exponents in range, but for the carry out
      of the top one. */
  lemma FiniteInRange(mant: nat, exp: int, prec: nat, sticky: bool)
    ensures RoundInto(mant, exp, prec, sticky).Finite? ==> mant > 0 && MIN_EXP <= exp <= MAX_EXP
    ensures mant > 0 && MIN_EXP <= exp < MAX_EXP ==> RoundInto(mant, exp, prec, sticky).Finite?
  {
    hide BitLen, Rounded, Pow;
  }

  lemma RoundedCase(mant: nat, exp: int, prec: nat, sticky: bool, x: real, t: real)
    requires prec > 0 && exp <= MAX_EXP && BitLen(mant) > prec
    requires Carries(x, mant, exp - BitLen(mant), sticky, t)
    ensures var k := Rounded(mant, BitLen(mant) - prec, sticky);
            if k != Pow(2, prec) then RoundsTo(x, Finite(k, exp, prec), prec)
            else if exp >= MAX_EXP then RoundsTo(x, Inf, prec)
            else RoundsTo(x, Finite(Pow(2, prec - 1), exp + 1, prec), prec)
  {
    hide RoundsTo, Rounded, UnitsOf, HalfEven, Pow, BitLen, Exp;
    var d := BitLen(mant) - prec;
    var k, y := Rounded(mant, d, sticky), UnitsOf(mant, d, t);
    CarriesUnits(x, exp - prec, d, mant as real + t, y);
    RoundedUnits(mant, d, sticky, t);
    UnitsAtLeast(mant, d, t);
    RoundedBits(mant, d, sticky);
    UnitsRound(x, y, k, exp, prec);
  }

  /** A value whose units round to k rounds to the float k denotes. */
  lemma UnitsRound(x: real, y: real, k: nat, exp: int, prec: nat)
    requires prec > 0 && exp <= MAX_EXP && Pow(2, prec - 1) <= k <= Pow(2, prec)
    requires x == Exp(2, exp - prec) * y && HalfEven(y, k) && Pow(2, prec - 1) as real <= y
    ensures if k != Pow(2, prec) then RoundsTo(x, Finite(k, exp, prec), prec)
            else if exp >= MAX_EXP then RoundsTo(x, Inf, prec)
            else RoundsTo(x, Finite(Pow(2, prec - 1), exp + 1, prec), prec)
  {
    hide Within, RoundsTo, V, Exp, Eps, Nearest, Abs, Pow, HalfEven;
    var carried := k == Pow(2, prec);
    var e := if carried then exp + 1 else exp;
    if carried && exp == MAX_EXP {
      Overflow(x, y, k, prec);
    } else {
      KeptValue(k, exp, prec);
      RelativeError(x, y, exp - prec, k, prec, V(Renormalized(k, prec), e - prec));
      ScaledNearest(x, y, exp - prec, k, prec, e - prec);
      RoundsToFinite(x, Renormalized(k, prec), e, prec);
    }
  }

  /** The value in units of the last kept place. */
  function UnitsOf(m: nat, d: nat, t: real): (y: real)
    ensures y * Pow(2, d) as real == m as real + t
  {
    QuoTimes(m as real + t, Pow(2, d) as real);
    (m as real + t) / Pow(2, d) as real
  }

  lemma QuoTimes(a: real, b: real)
    requires b > 0.0
    ensures (a / b) * b == a
  {}

  lemma ExactRound(mant: nat, exp: int, prec: nat, x: real, t: real)
    requires mant > 0 && prec > 0 && BitLen(mant) <= prec
    requires Carries(x, mant, exp - BitLen(mant), false, t)
    ensures RoundsTo(x, Finite(mant * Pow(2, prec - BitLen(mant)), exp, prec), prec)
  {
    hide Within, RoundsTo, V, Exp, Nearest, Abs, Pow;
    var s := prec - BitLen(mant);
    var m := mant * Pow(2, s);
    ShiftedBits(mant, prec);
    ShiftedValue(mant, s, exp - prec);
    assert t == 0.0;
    ExactNearest(x, m, exp - prec, prec);
    RoundsToFinite(x, m, exp, prec);
  }

  lemma ShiftedBits(mant: nat, prec: nat)
    requires mant > 0 && prec > 0 && BitLen(mant) <= prec
    ensures InBits(mant * Pow(2, prec - BitLen(mant)), prec)
  {
    var s := prec - BitLen(mant);
    hide Pow, BitLen;
    BitLenShift(mant, s);
    MulLe(1, mant, 1, Pow(2, s));
    BitLenBounds(mant * Pow(2, s));
  }

  lemma ExactNearest(x: real, m: nat, e: int, p: nat)
    requires InBits(m, p) && x == V(m, e) > 0.0
    ensures Nearest(x, m, e, p) && Within(x, V(m, e), p)
  {
    hide V, Exp, Eps, Pow;
    Positive(Eps(p), x);
  }

  lemma ShiftedValue(m: nat, s: nat, e: int)
    ensures V(m * Pow(2, s), e) == Exp(2, e + s) * m as real
  {
    hide Exp;
    ExpNat(2, s);
    ExpAdd(2, e, s);
    NatProduct(m, Pow(2, s));
    RAssoc(Exp(2, e), m as real, Exp(2, s));
  }

  /** In units of the last kept place, the kept integer is the nearest. */
  lemma RoundedUnits(m: nat, d: nat, sticky: bool, t: real)
    requires d > 0 && 0.0 <= t < 1.0 && (sticky <==> t > 0.0)
    ensures HalfEven(UnitsOf(m, d, t), Rounded(m, d, sticky))
  {
    hide Rounded, UnitsOf, HalfEven, NearestMultiple;
    var mt := m as real + t;
    assert Pow(2, d) == 2 * Pow(2, d - 1);
    hide Pow;
    RoundedIsNearest(m, d, sticky, t);
    UnitsHalfEven(Rounded(m, d, sticky), Pow(2, d - 1), Pow(2, d), mt, UnitsOf(m, d, t));
  }

  lemma UnitsAtLeast(m: nat, d: nat, t: real)
    requires d > 0 && BitLen(m) > d && 0.0 <= t
    ensures Pow(2, BitLen(m) - d - 1) as real <= UnitsOf(m, d, t)
  {
    hide UnitsOf, Pow, BitLen;
    KeptBits(m, d);
    UnitsLower(Pow(2, BitLen(m) - d - 1), Pow(2, d), m, m as real + t, UnitsOf(m, d, t));
  }

  lemma CarriesUnits(x: real, e: int, d: nat, mt: real, y: real)
    requires y * Pow(2, d) as real == mt && x == Exp(2, e - d) * mt
    ensures x == Exp(2, e) * y
  {
    hide Exp, Pow;
    ExpAdd(2, e - d, d);
    ExpNat(2, d);
    UnitsScale(mt, y, Exp(2, e - d), Pow(2, d) as real, x);
  }

  lemma UnitsScale(mt: real, y: real, g: real, d: real, x: real)
    requires y * d == mt && x == g * mt
    ensures x == (g * d) * y
  {
    RAssoc(g, d, y);
  }

  lemma UnitsHalfEven(k: nat, h: nat, d: nat, mt: real, y: real)
    requires h > 0 && d == 2 * h && y * d as real == mt
    requires NearestMultiple(k, h, mt)
    ensures HalfEven(y, k)
  {
    NatProduct(k, d);
    UnitsDiff(k as real, y, d as real, mt, (k * d) as real);
    UnitsWithin(k as real - y, d as real, (k * d) as real - mt);
  }

  lemma UnitsDiff(k: real, y: real, d: real, mt: real, kd: real)
    requires y * d == mt && kd == k * d
    ensures (k - y) * d == kd - mt
  {}

  lemma UnitsWithin(z: real, d: real, zd: real)
    requires d > 0.0 && zd == z * d && -0.5 * d <= zd <= 0.5 * d
    ensures -0.5 <= z <= 0.5
    ensures z == 0.5 ==> zd == 0.5 * d
    ensures z == -0.5 ==> zd == -0.5 * d
  {
    if z > 0.5 {
      RMulLt(d, 0.5, z);
    } else if z < -0.5 {
      RMulLt(d, z, -0.5);
    }
  }

  lemma UnitsLower(lo: nat, d: nat, m: nat, mt: real, y: real)
    requires d > 0 && m / d >= lo && mt >= m as real && y * d as real == mt
    ensures lo as real <= y
  {
    MulLe(lo, m / d, d, d);
    NatProduct(lo, d);
    if y < lo as real {
      RMulLt(d as real, y, lo as real);
    }
  }

  lemma CarryBits(k: nat, p: nat)
    requires p > 0 && Pow(2, p - 1) <= k <= Pow(2, p)
    ensures BitLen(k) <= p <==> k != Pow(2, p)
    ensures k == Pow(2, p) ==> k / 2 == Pow(2, p - 1)
  {
    if k == Pow(2, p) {
      PowStrict(2, p, p + 1);
      BitLenUnique(k, p + 1);
    } else {
      BitLenUnique(k, p);
    }
  }

  lemma KeptValue(k: nat, exp: int, p: nat)
    requires p > 0
    ensures V(Renormalized(k, p), if k == Pow(2, p) then exp + 1 - p else exp - p) == Exp(2, exp - p) * k as real
  {
    hide Exp;
    var u := Exp(2, exp - p);
    if k == Pow(2, p) {
      ExpStep(2, exp - p);
      NatProduct(2, Pow(2, p - 1));
      RAssoc(u, 2.0, Pow(2, p - 1) as real);
    }
  }

  lemma Overflow(x: real, y: real, k: nat, p: nat)
    requires p > 0 && k == Pow(2, p) && HalfEven(y, k) && x == Exp(2, MAX_EXP - p) * y
    ensures RoundsTo(x, Inf, p)
  {
    OverflowEps(p);
    hide Exp, Eps;
    OverflowBound(Exp(2, MAX_EXP), Eps(p), k as real, y, x);
  }

  lemma OverflowEps(p: nat)
    ensures Eps(p) * Pow(2, p) as real == 1.0
    ensures Exp(2, MAX_EXP - p) == Exp(2, MAX_EXP) * Eps(p)
  {
    hide Exp;
    ExpAdd(2, MAX_EXP, -(p as int));
    ExpNeg(2, p);
    ExpNat(2, p);
  }

  lemma OverflowBound(top: real, eps: real, k: real, y: real, x: real)
    requires top > 0.0 && eps > 0.0 && eps * k == 1.0 && y >= k - 0.5 && x == (top * eps) * y
    ensures x >= top * (1.0 - eps)
  {
    RMulLe(eps, k - 1.0, y);
    assert eps * (k - 1.0) == 1.0 - eps;
    RMulLe(top, 1.0 - eps, eps * y);
    RAssoc(top, eps, y);
  }

  // Multiplication and division.

  /** A float whose mantissa fills its precision. */
  predicate Normalized(f: Fl) {
    f.Finite? && InBits(f.mant, f.prec)
  }

  /** The exact product, rounded. */
  function Mul(x: Fl, y: Fl, prec: nat): Fl {
    if x.Zero? || y.Zero? then Zero
    else if x.Inf? || y.Inf? then Inf
    else
      var product := x.mant * y.mant;
      RoundInto(product, x.exp + y.exp - x.prec - y.prec + BitLen(product), prec, false)
  }

  /** The shift that gives an integer quotient of at least prec + 2 bits. */
  function QuoShift(x: nat, y: nat, prec: nat): int {
    prec + 2 + BitLen(y) - BitLen(x)
  }

  function QuoNum(x: nat, s: int): (n: nat) {
    if s >= 0 then x * Pow(2, s) else x
  }

  function QuoDen(y: nat, s: int): (d: nat)
    requires y > 0
    ensures d > 0
  {
    if s >= 0 then y else MulLe(1, y, 1, Pow(2, -s)); y * Pow(2, -s)
  }

  /** The integer quotient, rounded, the remainder standing in for the bits it
      drops. */
  function Quo(x: Fl, y: Fl, prec: nat): Fl
    requires y.Finite? ==> y.mant > 0
  {
    if x.Zero? then Zero
    else if y.Inf? then Zero
    else if x.Inf? then Inf
    else if y.Zero? then Inf
    else
      var s := QuoShift(x.mant, y.mant, prec);
      var num, den := QuoNum(x.mant, s), QuoDen(y.mant, s);
      var q := Quot(num, den);
      RoundInto(q, x.exp - y.exp - x.prec + y.prec - s + BitLen(q), prec, num % den != 0)
  }

  /** Multiplication is correctly rounded. */
  lemma MulNearest(x: Fl, y: Fl, prec: nat)
    requires x.Finite? && y.Finite? && x.mant > 0 && y.mant > 0 && prec > 0
    requires var e := x.exp + y.exp - x.prec - y.prec + BitLen(x.mant * y.mant);
             MIN_EXP <= e <= MAX_EXP
    ensures RoundsTo(Val(x) * Val(y), Mul(x, y, prec), prec)
  {
    hide RoundsTo, RoundInto, BitLen, Exp;
    var product, g := x.mant * y.mant, x.exp + y.exp - x.prec - y.prec;
    MulLe(1, x.mant, 1, y.mant);
    MulValue(x.mant, x.exp - x.prec, y.mant, y.exp - y.prec);
    Commute(product as real, Exp(2, g));
    RoundIntoNearest(product, g + BitLen(product), prec, false, Val(x) * Val(y), 0.0);
  }

  lemma Commute(a: real, b: real)
    ensures a * b == b * a
  {}

  lemma MulValue(m: nat, e: int, m': nat, e': int)
    ensures V(m, e) * V(m', e') == V(m * m', e + e')
  {
    hide Exp;
    ExpAdd(2, e, e');
    NatProduct(m, m');
    Shuffle(m as real, Exp(2, e), m' as real, Exp(2, e'));
  }

  lemma Shuffle(a: real, b: real, c: real, d: real)
    ensures (a * b) * (c * d) == (a * c) * (b * d)
  {}

  /** Division is correctly rounded: the quotient always has bits to spare for
      the sticky remainder. */
  lemma QuoNearest(x: Fl, y: Fl, prec: nat)
    requires x.Finite? && y.Finite? && x.mant > 0 && y.mant > 0 && prec > 0
    requires MIN_EXP <= QuoExp(x, y, prec) <= MAX_EXP
    ensures RoundsTo(Val(x) / Val(y), Quo(x, y, prec), prec)
  {
    hide RoundsTo, RoundInto, BitLen, Exp, V, QuoNum, QuoDen;
    var s := QuoShift(x.mant, y.mant, prec);
    var num, den := QuoNum(x.mant, s), QuoDen(y.mant, s);
    var q, r := Quot(num, den), num % den;
    QuoBits(x.mant, y.mant, prec);
    QuoValue(x.mant, x.exp - x.prec, y.mant, y.exp - y.prec, s);
    var t := r as real / den as real;
    Fraction(r, den);
    RoundIntoNearest(q, QuoExp(x, y, prec), prec, r != 0, Val(x) / Val(y), t);
  }

  /** The exponent Quo rounds at. */
  function QuoExp(x: Fl, y: Fl, prec: nat): int
    requires x.Finite? && y.Finite? && y.mant > 0
  {
    var s := QuoShift(x.mant, y.mant, prec);
    x.exp - y.exp - x.prec + y.prec - s + BitLen(Quot(QuoNum(x.mant, s), QuoDen(y.mant, s)))
  }

  lemma Fraction(r: nat, d: nat)
    requires r < d
    ensures 0.0 <= r as real / d as real < 1.0
    ensures r != 0 <==> r as real / d as real > 0.0
  {
    var t := r as real / d as real;
    QuoTimes(r as real, d as real);
    if t >= 1.0 {
      RMulLe(d as real, 1.0, t);
    } else if t < 0.0 {
      RMulLt(d as real, t, 0.0);
    }
  }

  lemma QuoBits(x: nat, y: nat, prec: nat)
    requires x > 0 && y > 0
    ensures var s := QuoShift(x, y, prec);
            var q := Quot(QuoNum(x, s), QuoDen(y, s));
            q > 0 && BitLen(q) >= prec + 2
  {
    var s := QuoShift(x, y, prec);
    var num, den := QuoNum(x, s), QuoDen(y, s);
    if s >= 0 {
      BitLenShift(x, s);
    } else {
      BitLenShift(y, -s);
    }
    QuotientBits(num, den, prec + 1);
    BitLenMono(Pow(2, prec + 1), num / den);
    PowStrict(2, prec + 1, prec + 2);
    BitLenUnique(Pow(2, prec + 1), prec + 2);
  }

  lemma QuotientBits(num: nat, den: nat, k: nat)
    requires num > 0 && den > 0 && BitLen(num) == BitLen(den) + k + 1
    ensures num / den >= Pow(2, k)
  {
    hide BitLen, Pow;
    BitLenBounds(num);
    BitLenBounds(den);
    PowAdd(2, k, BitLen(den));
    MulLe(Pow(2, k), Pow(2, k), den, Pow(2, BitLen(den)));
    AtLeast(num, den, Pow(2, k));
  }

  lemma AtLeast(num: nat, den: nat, k: nat)
    requires den > 0 && k * den <= num
    ensures num / den >= k
  {
    var q := num / den;
    assert num < q * den + den;
    assert (q + 1) * den == q * den + den;
    MulCancelLt(k, q + 1, den);
  }

  /** The quotient's value at scale e - e' - s. */
  lemma QuoValue(x: nat, e: int, y: nat, e': int, s: int)
    requires x > 0 && y > 0
    ensures var num, den := QuoNum(x, s), QuoDen(y, s);
            V(x, e) / V(y, e')
            == Exp(2, e - e' - s) * (Quot(num, den) as real + (num % den) as real / den as real)
  {
    hide Exp, QuoNum, QuoDen, Quot, V;
    var num, den := QuoNum(x, s), QuoDen(y, s);
    var a, b := if s >= 0 then s else 0, if s >= 0 then 0 else -s;
    NumValue(x, e, s);
    DenValue(y, e', s);
    ExpAdd(2, e - e' - s, e' - b);
    assert e - e' - s + (e' - b) == e - a;
    var t := (num % den) as real / den as real;
    WholeAndFraction(num, den, t);
    QuoOfScaled(Exp(2, e - e' - s), Quot(num, den) as real + t, num as real, den as real,
                Exp(2, e' - b), Exp(2, e - a), V(x, e), V(y, e'));
  }

  lemma NumValue(x: nat, e: int, s: int)
    ensures V(x, e) == QuoNum(x, s) as real * Exp(2, e - if s >= 0 then s else 0)
  {
    hide Exp;
    if s >= 0 {
      ShiftedValue(x, s, e - s);
    }
  }

  lemma DenValue(y: nat, e: int, s: int)
    requires y > 0
    ensures V(y, e) == QuoDen(y, s) as real * Exp(2, e - if s >= 0 then 0 else -s)
  {
    hide Exp;
    if s < 0 {
      ShiftedValue(y, -s, e + s);
    }
  }

  lemma WholeAndFraction(num: nat, den: nat, t: real)
    requires den > 0 && t == (num % den) as real / den as real
    ensures (Quot(num, den) as real + t) * den as real == num as real
  {
    QuoTimes((num % den) as real, den as real);
    NatProduct(num / den, den);
  }

  lemma QuoOfScaled(g: real, q: real, num: real, den: real, u: real, w: real, vx: real, vy: real)
    requires q * den == num && w == g * u && vx == num * w && vy == den * u && vy > 0.0
    ensures vx / vy == g * q
  {
    assert vx == (g * q) * vy by {
      assert num * w == (q * den) * (g * u);
      Shuffle(q, den, g, u);
    }
    QuoTimes(vx, vy);
    RCancel(vy, vx / vy, g * q);
  }
}
