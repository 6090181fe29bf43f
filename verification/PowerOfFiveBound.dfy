/** The rounded power of five, to within 64 units of roundoff for every exponent
    a literal can need. */
module PowerOfFiveBound {
  import opened Powers
  import opened Reals
  import opened Floats
  import opened PowerOfFive

  ghost predicate CloseTo(x: real, v: real, eps: real) {
    v - eps * v <= x <= v + eps * v
  }

  /** For exponents below 2^20 the rounded power is finite and within 64 units
      of roundoff of the exact one. */
  lemma Pow5Close(n: nat, prec: nat)
    requires n < Pow(2, 20) && prec >= 63
    ensures Pow5(n, prec).Finite? && Normalized(Pow5(n, prec))
    ensures CloseTo(Val(Pow5(n, prec)), Pow(5, n) as real, 64.0 * Eps(prec))
  {
    hide *;
    if n <= 27 {
      ExactClose(n, prec);
    } else {
      InRange(n, prec);
      Pow5Finite(n, prec);
      Pow5Encloses(n, prec);
      FewRoundings(n, prec);
      BelowWide(n);
      EnclosesClose(Val(Pow5(n, prec)), n, prec, Roundings(n, prec), 20);
      UnitsOf(prec);
    }
  }

  lemma BelowWide(n: nat)
    requires n < Pow(2, 20)
    ensures n < Pow(2, 40)
  {
    PowMono(2, 20, 40);
  }

  /** Whenever the rounded power is finite, for exponents below 2^40, it is within 128
      units of roundoff of the exact one. */
  lemma Pow5CloseFinite(n: nat, prec: nat)
    requires n < Pow(2, 40) && prec >= 63 && Pow5(n, prec).Finite?
    ensures Normalized(Pow5(n, prec))
    ensures CloseTo(Val(Pow5(n, prec)), Pow(5, n) as real, 128.0 * Eps(prec))
  {
    hide *;
    if n <= 27 {
      ExactClose(n, prec);
      UnitsOf(prec);
      FivePositive(n);
      CloseWiden(Val(Pow5(n, prec)), Pow(5, n) as real, 64.0 * Eps(prec), 128.0 * Eps(prec));
    } else {
      PastTable(n);
      Pow5Encloses(n, prec);
      ManyRoundings(n, prec);
      EnclosesClose(Val(Pow5(n, prec)), n, prec, Roundings(n, prec), 40);
      UnitsOf(prec);
      FivePositive(n);
      CloseWiden(Val(Pow5(n, prec)), Pow(5, n) as real, 104.0 * Eps(prec), 128.0 * Eps(prec));
    }
  }

  lemma UnitsOf(prec: nat)
    ensures Units(20) == 64.0 && Units(40) == 104.0
    ensures 0.0 < 64.0 * Eps(prec) <= 104.0 * Eps(prec) <= 128.0 * Eps(prec)
  {
    hide Exp;
  }

  lemma PastTable(n: nat)
    requires n > 27
    ensures n > TABLE_MAX
  {}

  lemma FivePositive(n: nat)
    ensures Pow(5, n) as real > 0.0
  {}

  lemma CloseWiden(x: real, v: real, a: real, b: real)
    requires CloseTo(x, v, a) && a <= b && v >= 0.0
    ensures CloseTo(x, v, b)
  {
    RMulLe(v, a, b);
  }

  lemma ManyRoundings(n: nat, prec: nat)
    requires TABLE_MAX < n < Pow(2, 40) && prec >= 63
    ensures Roundings(n, prec) <= 40
  {
    hide Pow, SetBits;
    SetBitsBound(n - TABLE_MAX, 40);
  }

  lemma ExactClose(n: nat, prec: nat)
    requires n <= 27 && prec >= 63
    ensures Pow5(n, prec).Finite? && Normalized(Pow5(n, prec))
    ensures CloseTo(Val(Pow5(n, prec)), Pow(5, n) as real, 64.0 * Eps(prec))
  {
    hide V, Eps, Pow, Pow5, CloseTo, InBits;
    Pow5Exact(n, prec);
    CloseToItself(Pow(5, n) as real, 64.0 * Eps(prec));
  }

  lemma CloseToItself(v: real, eps: real)
    requires v > 0.0 && eps > 0.0
    ensures CloseTo(v, v, eps)
  {
    Positive(eps, v);
  }

  lemma InRange(n: nat, prec: nat)
    requires 27 < n < Pow(2, 20)
    ensures n > TABLE_MAX && 4 * n < MAX_EXP - 1
  {
    TwoTo20();
  }

  lemma TwoTo20()
    ensures Pow(2, 20) == 1048576
  {
    assert Pow(2, 10) == 1024;
    PowAdd(2, 10, 10);
  }

  lemma TwoTo64()
    ensures Pow(2, 64) == 18446744073709551616
  {
    assert Pow(2, 4) == 16;
    hide Pow;
    TwoTo20();
    PowAdd(2, 20, 20);
    PowAdd(2, 20, 40);
    PowAdd(2, 60, 4);
  }

  lemma TwoTo40()
    ensures Pow(2, 40) == 1099511627776
  {
    TwoTo20();
    PowAdd(2, 20, 20);
  }

  lemma FewRoundings(n: nat, prec: nat)
    requires TABLE_MAX < n < Pow(2, 20) && prec >= 63
    ensures Roundings(n, prec) <= 20
  {
    hide Pow, SetBits;
    SetBitsBound(n - TABLE_MAX, 20);
  }

  lemma {:induction false} SetBitsBound(n: nat, k: nat)
    requires n < Pow(2, k)
    ensures SetBits(n) <= k
    decreases k
  {
    if n > 0 {
      SetBitsBound(n / 2, k - 1);
    }
  }

  /** Units of roundoff for k roundings. */
  function Units(k: nat): real {
    (2 * k + 24) as real
  }

  lemma EnclosesClose(x: real, n: nat, prec: nat, a: nat, k: nat)
    requires prec >= 63 && n < Pow(2, 40) && a <= k <= 40 && Encloses(x, n, prec, a, n)
    ensures CloseTo(x, Pow(5, n) as real, Units(k) * Eps(prec))
  {
    hide *;
    EnclosesWeaken(x, n, prec, a, n, k, n);
    WideRoundings(n, prec);
    NarrowRoundings(prec);
    UpClose(prec, n, k);
    DownClose(prec, n, k);
    EnclosesBounds(x, n, prec, k, n);
    CloseIntro(x, Pow(5, n) as real, Down(prec, k, n), Up(prec, k, n), Units(k) * Eps(prec));
  }

  lemma EnclosesBounds(x: real, n: nat, prec: nat, a: nat, k: nat)
    requires prec > 0 && Encloses(x, n, prec, a, k)
    ensures Pow(5, n) > 0
    ensures Pow(5, n) as real * Down(prec, a, k) <= x <= Pow(5, n) as real * Up(prec, a, k)
  {
    hide Up, Down, Pow;
  }

  lemma CloseIntro(x: real, v: real, d: real, u: real, eps: real)
    requires v > 0.0 && v * d <= x <= v * u && 1.0 - eps <= d && u <= 1.0 + eps
    ensures CloseTo(x, v, eps)
  {
    RMulLe(v, 1.0 - eps, d);
    RMulLe(v, u, 1.0 + eps);
    assert v * (1.0 - eps) == v - eps * v && v * (1.0 + eps) == v + eps * v;
  }

  /** n roundings at prec + 64 bits weigh less than one at prec. */
  lemma WideRoundings(n: nat, prec: nat)
    requires n < Pow(2, 40)
    ensures 2.0 * (n as real * Eps(prec + 64)) <= Eps(prec)
  {
    hide Exp, Pow;
    ExpAdd(2, -(prec as int), -64);
    ExpAdd(2, 41, -64);
    ExpStep(2, 40);
    ExpNat(2, 40);
    ExpZero(2);
    ExpMono(2, -23, 0);
    WideBound(n as real, Exp(2, 40), Exp(2, -64), Eps(prec), Eps(prec + 64), Exp(2, -23), Exp(2, 41));
  }

  lemma WideBound(n: real, k: real, t: real, u: real, u': real, c: real, k2: real)
    requires 0.0 <= n < k && t > 0.0 && u > 0.0 && u' == u * t && k2 == 2.0 * k && c == k2 * t && c <= 1.0
    ensures 2.0 * (n * u') <= u
  {
    RMulLe(t, n, k);
    assert 2.0 * (n * t) <= 1.0;
    RMulLe(u, 2.0 * (n * t), 1.0);
    assert 2.0 * (n * u') == u * (2.0 * (n * t));
  }

  lemma NarrowRoundings(prec: nat)
    requires prec >= 63
    ensures 80.0 * Eps(prec) <= 1.0
  {
    hide Exp;
    ExpMono(2, -(prec as int), -7);
    ExpNeg(2, 7);
    ExpNat(2, 7);
    assert Pow(2, 7) == 128;
  }

  lemma {:induction false} PowerUp(u: real, n: nat)
    requires u > 0.0 && 2.0 * (n as real * u) <= 1.0
    ensures RPow(1.0 + u, n) <= 1.0 + 2.0 * (n as real * u)
    decreases n
  {
    if n > 0 {
      Product(n - 1, u);
      PowerUp(u, n - 1);
      UpStep(u, RPow(1.0 + u, n - 1), RPow(1.0 + u, n), (n - 1) as real * u);
    }
  }

  lemma Product(n: nat, u: real)
    requires u > 0.0
    ensures (n + 1) as real * u == n as real * u + u && n as real * u >= 0.0
  {
    RMulLe(u, 0.0, n as real);
  }

  lemma UpStep(u: real, p: real, p': real, m: real)
    requires u > 0.0 && m >= 0.0 && 2.0 * (m + u) <= 1.0 && p <= 1.0 + 2.0 * m && p' == (1.0 + u) * p
    ensures p' <= 1.0 + 2.0 * (m + u)
  {
    RMulLe(1.0 + u, p, 1.0 + 2.0 * m);
    RMulLe(u, 2.0 * m, 1.0);
  }

  lemma {:induction false} PowerDown(u: real, n: nat)
    requires 0.0 < u < 1.0
    ensures RPow(1.0 - u, n) >= 1.0 - n as real * u
    decreases n
  {
    if n > 0 {
      Product(n - 1, u);
      PowerDown(u, n - 1);
      DownStep(u, RPow(1.0 - u, n - 1), RPow(1.0 - u, n), (n - 1) as real * u);
    }
  }

  lemma DownStep(u: real, p: real, p': real, m: real)
    requires 0.0 < u < 1.0 && m >= 0.0 && p >= 1.0 - m && p' == (1.0 - u) * p
    ensures p' >= 1.0 - (m + u)
  {
    RMulLe(1.0 - u, 1.0 - m, p);
    Expand(-u, -m);
    Square(u, m);
  }

  lemma Expand(x: real, y: real)
    ensures (1.0 + x) * (1.0 + y) == 1.0 + x + y + x * y
  {}

  lemma Square(x: real, y: real)
    requires x >= 0.0 && y >= 0.0
    ensures (-x) * (-y) >= 0.0
  {
    RMulLe(x, 0.0, y);
  }

  lemma UpClose(prec: nat, n: nat, k: nat)
    requires 80.0 * Eps(prec) <= 1.0 && 2.0 * (n as real * Eps(prec + 64)) <= Eps(prec) && k <= 40
    ensures Up(prec, k, n) <= 1.0 + Units(k) * Eps(prec)
  {
    hide Eps, RPow;
    var u := Eps(prec);
    RMulLe(u, k as real, 40.0);
    PowerUp(u, k);
    PowerUp(Eps(prec + 64), n);
    UpProduct(u, RPow(1.0 + u, k), RPow(1.0 + Eps(prec + 64), n), k);
  }

  lemma UpProduct(u: real, a: real, b: real, k: nat)
    requires 0.0 < u && 2.0 * (k as real * u) <= 1.0 && 0.0 <= a <= 1.0 + 2.0 * (k as real * u) && 0.0 <= b <= 1.0 + u
    ensures a * b <= 1.0 + Units(k) * u
  {
    RMulLe(u, 0.0, k as real);
    UpExpand(2.0 * (k as real * u), u, a, b);
    UnitsSplit(u, k);
  }

  lemma UnitsSplit(u: real, k: nat)
    ensures Units(k) * u == 2.0 * (k as real * u) + 24.0 * u
  {
    assert Units(k) == 2.0 * k as real + 24.0;
  }

  lemma UpExpand(x: real, u: real, a: real, b: real)
    requires 0.0 < u && 0.0 <= x <= 1.0 && 0.0 <= a <= 1.0 + x && 0.0 <= b <= 1.0 + u
    ensures a * b <= 1.0 + x + 2.0 * u
  {
    RMulLe2(a, 1.0 + x, b, 1.0 + u);
    Expand(x, u);
    RMulLe(u, x, 1.0);
  }

  lemma DownClose(prec: nat, n: nat, k: nat)
    requires prec > 0 && 80.0 * Eps(prec) <= 1.0 && 2.0 * (n as real * Eps(prec + 64)) <= Eps(prec) && k <= 40
    ensures Down(prec, k, n) >= 1.0 - Units(k) * Eps(prec)
  {
    hide Eps, RPow;
    var u := Eps(prec);
    EpsSmall(prec + 64);
    RMulLe(u, k as real, 40.0);
    PowerDown(u, k);
    PowerDown(Eps(prec + 64), n);
    DownProduct(u, RPow(1.0 - u, k), RPow(1.0 - Eps(prec + 64), n), k);
  }

  lemma DownProduct(u: real, a: real, b: real, k: nat)
    requires 0.0 < u && 2.0 * (k as real * u) <= 1.0 && 1.0 - k as real * u <= a && 1.0 - u <= b && u <= 1.0
    ensures a * b >= 1.0 - Units(k) * u
  {
    var x := k as real * u;
    RMulLe(u, 0.0, k as real);
    RMulLe2(1.0 - x, a, 1.0 - u, b);
    Expand(-x, -u);
    Square(x, u);
    UnitsSplit(u, k);
    DownLinear(a * b, x, u, (1.0 - x) * (1.0 - u), (-x) * (-u), Units(k) * u);
  }

  lemma DownLinear(ab: real, x: real, u: real, p: real, xu: real, units: real)
    requires ab >= p && p == 1.0 - x - u + xu && xu >= 0.0 && x >= 0.0 && u > 0.0 && units == 2.0 * x + 24.0 * u
    ensures ab >= 1.0 - units
  {}
}
