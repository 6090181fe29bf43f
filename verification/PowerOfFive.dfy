/** The rounded power of five by square-and-multiply, and how far it is from the
    exact one. */
module PowerOfFive {
  import opened Powers
  import opened Reals
  import opened Floats

  /** 5^27 is the largest power of five in a u64. */
  const TABLE_MAX: nat := 27

  function FromU64(v: nat, prec: nat): Fl {
    RoundInto(v, BitLen(v), prec, false)
  }

  /** z * f^n by square-and-multiply: z is kept at prec bits, the multiplier f at
      prec + 64, every product rounded. */
  function Pow5Loop(z: Fl, f: Fl, n: nat, prec: nat): Fl
    decreases n
  {
    if n == 0 then z
    else
      var z' := if n % 2 == 1 then Mul(z, f, prec) else z;
      Pow5Loop(z', Mul(f, f, prec + 64), n / 2, prec)
  }

  function Pow5(n: nat, prec: nat): Fl {
    if n <= TABLE_MAX then FromU64(Pow(5, n), prec)
    else Pow5Loop(FromU64(Pow(5, TABLE_MAX), prec), FromU64(5, prec + 64), n - TABLE_MAX, prec)
  }

  /** The number of set bits, and so of multiplications into the result. */
  function SetBits(n: nat): nat {
    if n == 0 then 0 else n % 2 + SetBits(n / 2)
  }

  function RPow(r: real, n: nat): (p: real)
    ensures r > 0.0 ==> p > 0.0
  {
    if n == 0 then 1.0 else r * RPow(r, n - 1)
  }

  lemma {:induction false} RPowAdd(r: real, a: nat, b: nat)
    ensures RPow(r, a + b) == RPow(r, a) * RPow(r, b)
    decreases a
  {
    if a > 0 {
      RPowAdd(r, a - 1, b);
      RAssoc(r, RPow(r, a - 1), RPow(r, b));
    }
  }

  /** a roundings at prec bits and k at prec + 64 scale by at most this. */
  function Up(prec: nat, a: nat, k: nat): (r: real)
    ensures r > 0.0
  {
    Positive(RPow(1.0 + Eps(prec), a), RPow(1.0 + Eps(prec + 64), k));
    RPow(1.0 + Eps(prec), a) * RPow(1.0 + Eps(prec + 64), k)
  }

  /** And by at least this. */
  function Down(prec: nat, a: nat, k: nat): (r: real)
    requires prec > 0
    ensures r > 0.0
  {
    EpsSmall(prec);
    EpsSmall(prec + 64);
    Positive(RPow(1.0 - Eps(prec), a), RPow(1.0 - Eps(prec + 64), k));
    RPow(1.0 - Eps(prec), a) * RPow(1.0 - Eps(prec + 64), k)
  }

  lemma EpsSmall(p: nat)
    requires p > 0
    ensures Eps(p) <= 0.5
  {
    hide Exp;
    ExpMono(2, -(p as int), -1);
    ExpStep(2, -1);
    ExpZero(2);
  }

  /** x is 5^n up to a roundings at prec bits and k at prec + 64. */
  ghost predicate Encloses(x: real, n: nat, prec: nat, a: nat, k: nat)
    requires prec > 0
  {
    Pow(5, n) as real * Down(prec, a, k) <= x <= Pow(5, n) as real * Up(prec, a, k)
  }

  lemma UpAdd(prec: nat, a: nat, k: nat, b: nat, l: nat)
    ensures Up(prec, a + b, k + l) == Up(prec, a, k) * Up(prec, b, l)
  {
    hide Eps, RPow;
    TwoPowers(1.0 + Eps(prec), 1.0 + Eps(prec + 64), a, k, b, l);
  }

  lemma DownAdd(prec: nat, a: nat, k: nat, b: nat, l: nat)
    requires prec > 0
    ensures Down(prec, a + b, k + l) == Down(prec, a, k) * Down(prec, b, l)
  {
    hide Eps, RPow;
    TwoPowers(1.0 - Eps(prec), 1.0 - Eps(prec + 64), a, k, b, l);
  }

  lemma TwoPowers(r: real, s: real, a: nat, k: nat, b: nat, l: nat)
    ensures RPow(r, a + b) * RPow(s, k + l) == (RPow(r, a) * RPow(s, k)) * (RPow(r, b) * RPow(s, l))
  {
    hide RPow;
    RPowAdd(r, a, b);
    RPowAdd(s, k, l);
    Regroup(RPow(r, a + b), RPow(r, a), RPow(r, b), RPow(s, k + l), RPow(s, k), RPow(s, l));
  }

  lemma Regroup(x: real, x1: real, x2: real, y: real, y1: real, y2: real)
    requires x == x1 * x2 && y == y1 * y2
    ensures x * y == (x1 * y1) * (x2 * y2)
  {
    Shuffle(x1, x2, y1, y2);
  }

  lemma EnclosesMul(x: real, n: nat, a: nat, k: nat, y: real, m: nat, b: nat, l: nat, prec: nat)
    requires prec > 0 && Encloses(x, n, prec, a, k) && Encloses(y, m, prec, b, l)
    ensures Encloses(x * y, n + m, prec, a + b, k + l)
  {
    hide *;
    UpAdd(prec, a, k, b, l);
    DownAdd(prec, a, k, b, l);
    FiveProduct(n, m);
    Enclosed(x, n, prec, a, k);
    Enclosed(y, m, prec, b, l);
    MulBounds(Pow(5, n) as real, Pow(5, m) as real, Pow(5, n + m) as real,
              Down(prec, a, k), Down(prec, b, l), Down(prec, a + b, k + l),
              Up(prec, a, k), Up(prec, b, l), Up(prec, a + b, k + l), x, y);
    EnclosedBy(x * y, n + m, prec, a + b, k + l);
  }

  lemma FiveProduct(n: nat, m: nat)
    ensures Pow(5, n + m) as real == Pow(5, n) as real * Pow(5, m) as real
  {
    PowAdd(5, n, m);
    NatProduct(Pow(5, n), Pow(5, m));
  }

  lemma Enclosed(x: real, n: nat, prec: nat, a: nat, k: nat)
    requires prec > 0 && Encloses(x, n, prec, a, k)
    ensures Pow(5, n) as real * Down(prec, a, k) <= x <= Pow(5, n) as real * Up(prec, a, k)
    ensures Pow(5, n) > 0 && Down(prec, a, k) > 0.0 && Up(prec, a, k) > 0.0
  {
    hide Up, Down, Pow;
  }

  lemma EnclosedBy(x: real, n: nat, prec: nat, a: nat, k: nat)
    requires prec > 0
    requires Pow(5, n) as real * Down(prec, a, k) <= x <= Pow(5, n) as real * Up(prec, a, k)
    ensures Encloses(x, n, prec, a, k)
  {
    hide Up, Down, Pow;
  }

  lemma MulBounds(p: real, q: real, pq: real, d: real, e: real, de: real, u: real, v: real, uv: real,
                  x: real, y: real)
    requires p > 0.0 && q > 0.0 && d > 0.0 && e > 0.0 && u > 0.0 && v > 0.0
    requires pq == p * q && de == d * e && uv == u * v
    requires p * d <= x <= p * u && q * e <= y <= q * v
    ensures pq * de <= x * y <= pq * uv
  {
    Positive(p, d);
    Positive(q, e);
    RMulLe2(p * d, x, q * e, y);
    RMulLe2(x, p * u, y, q * v);
    Shuffle(p, q, d, e);
    Shuffle(p, q, u, v);
  }

  /** One rounding at prec bits, or at prec + 64. */
  lemma EnclosesRound(x: real, r: real, n: nat, prec: nat, a: nat, k: nat, wide: bool)
    requires prec > 0 && Encloses(x, n, prec, a, k) && x > 0.0
    requires Within(x, r, if wide then prec + 64 else prec)
    ensures if wide then Encloses(r, n, prec, a, k + 1) else Encloses(r, n, prec, a + 1, k)
  {
    hide Up, Down, Pow, Eps;
    var u := Eps(if wide then prec + 64 else prec);
    var b, l := if wide then 0 else 1, if wide then 1 else 0;
    UpAdd(prec, a, k, b, l);
    DownAdd(prec, a, k, b, l);
    OneRounding(prec, wide);
    EpsSmall(if wide then prec + 64 else prec);
    RoundBounds(Pow(5, n) as real, Down(prec, a, k), Down(prec, a + b, k + l),
                Up(prec, a, k), Up(prec, a + b, k + l), u, x, r);
  }

  lemma OneRounding(prec: nat, wide: bool)
    requires prec > 0
    ensures var u := Eps(if wide then prec + 64 else prec);
            var b, l := if wide then 0 else 1, if wide then 1 else 0;
            Up(prec, b, l) == 1.0 + u && Down(prec, b, l) == 1.0 - u
  {
    hide Eps;
    assert RPow(1.0 + Eps(prec), 0) == 1.0 && RPow(1.0 + Eps(prec + 64), 0) == 1.0;
    assert RPow(1.0 - Eps(prec), 0) == 1.0 && RPow(1.0 - Eps(prec + 64), 0) == 1.0;
  }

  lemma RoundBounds(p: real, d: real, d': real, u: real, u': real, eps: real, x: real, r: real)
    requires p > 0.0 && 0.0 < eps < 1.0 && d > 0.0 && u > 0.0
    requires d' == d * (1.0 - eps) && u' == u * (1.0 + eps)
    requires p * d <= x <= p * u && Abs(x - r) <= eps * x
    ensures p * d' <= r <= p * u'
  {
    assert x - eps * x <= r <= x + eps * x;
    RMulLe(1.0 - eps, p * d, x);
    RMulLe(1.0 + eps, x, p * u);
    RAssoc(1.0 - eps, p, d);
    RAssoc(1.0 + eps, p, u);
  }

  /** Allowing more roundings encloses more. */
  lemma EnclosesWeaken(x: real, n: nat, prec: nat, a: nat, k: nat, b: nat, l: nat)
    requires prec > 0 && Encloses(x, n, prec, a, k) && a <= b && k <= l
    ensures Encloses(x, n, prec, b, l)
  {
    hide Up, Down, Pow;
    UpAdd(prec, a, k, b - a, l - k);
    DownAdd(prec, a, k, b - a, l - k);
    UpAtLeastOne(prec, b - a, l - k);
    WidenBounds(Pow(5, n) as real, Down(prec, a, k), Down(prec, b - a, l - k), Down(prec, b, l),
                Up(prec, a, k), Up(prec, b - a, l - k), Up(prec, b, l), x);
  }

  lemma WidenBounds(p: real, d: real, e: real, de: real, u: real, v: real, uv: real, x: real)
    requires p > 0.0 && d > 0.0 && u > 0.0 && e <= 1.0 <= v && de == d * e && uv == u * v
    requires p * d <= x <= p * u
    ensures p * de <= x <= p * uv
  {
    RMulLe(d, e, 1.0);
    RMulLe(p, de, d);
    RMulLe(u, 1.0, v);
    RMulLe(p, u, uv);
  }

  lemma UpAtLeastOne(prec: nat, a: nat, k: nat)
    requires prec > 0
    ensures Up(prec, a, k) >= 1.0 && Down(prec, a, k) <= 1.0
  {
    EpsSmall(prec);
    EpsSmall(prec + 64);
    hide Eps;
    RPowSides(Eps(prec), a);
    RPowSides(Eps(prec + 64), k);
    hide RPow;
    RMulLe2(1.0, RPow(1.0 + Eps(prec), a), 1.0, RPow(1.0 + Eps(prec + 64), k));
    RMulLe2(RPow(1.0 - Eps(prec), a), 1.0, RPow(1.0 - Eps(prec + 64), k), 1.0);
  }

  lemma {:induction false} RPowSides(u: real, n: nat)
    requires 0.0 < u < 1.0
    ensures 0.0 < RPow(1.0 - u, n) <= 1.0 <= RPow(1.0 + u, n)
    decreases n
  {
    if n > 0 {
      RPowSides(u, n - 1);
      RMulLe2(1.0, 1.0 + u, 1.0, RPow(1.0 + u, n - 1));
      RMulLe2(1.0 - u, 1.0, RPow(1.0 - u, n - 1), 1.0);
    }
  }

  // The loop.

  /** A finite product of normalized floats is normalized, and its error is that
      of its factors with one rounding more. */
  lemma MulEncloses(x: Fl, n: nat, a: nat, k: nat, y: Fl, m: nat, b: nat, l: nat, prec: nat, wide: bool)
    requires prec > 0 && x.Finite? && y.Finite? && Normalized(x) && Normalized(y)
    requires Encloses(Val(x), n, prec, a, k) && Encloses(Val(y), m, prec, b, l)
    requires Mul(x, y, if wide then prec + 64 else prec).Finite?
    ensures var r := Mul(x, y, if wide then prec + 64 else prec);
            && r.Finite? && Normalized(r)
            && if wide then Encloses(Val(r), n + m, prec, a + b, k + l + 1)
               else Encloses(Val(r), n + m, prec, a + b + 1, k + l)
  {
    hide *;
    var p := if wide then prec + 64 else prec;
    MulRounds(x, y, p);
    ValPositive(x);
    ValPositive(y);
    ProductRounds(Val(x), n, a, k, Val(y), m, b, l, Val(Mul(x, y, p)), prec, wide);
  }

  lemma ProductRounds(x: real, n: nat, a: nat, k: nat, y: real, m: nat, b: nat, l: nat, r: real, prec: nat, wide: bool)
    requires prec > 0 && x > 0.0 && y > 0.0
    requires Encloses(x, n, prec, a, k) && Encloses(y, m, prec, b, l)
    requires Within(x * y, r, if wide then prec + 64 else prec)
    ensures if wide then Encloses(r, n + m, prec, a + b, k + l + 1) else Encloses(r, n + m, prec, a + b + 1, k + l)
  {
    hide *;
    EnclosesMul(x, n, a, k, y, m, b, l, prec);
    Positive(x, y);
    EnclosesRound(x * y, r, n + m, prec, a + b, k + l, wide);
  }

  lemma MulRounds(x: Fl, y: Fl, p: nat)
    requires p > 0 && Normalized(x) && Normalized(y) && Mul(x, y, p).Finite?
    ensures var r := Mul(x, y, p);
            && r.Finite? && Normalized(r) && r.prec == p
            && Within(Val(x) * Val(y), Val(r), p)
  {
    hide Within, V, Eps, Abs, BitLen, RoundInto, RoundsTo, Pow;
    var product := x.mant * y.mant;
    FiniteInRange(product, x.exp + y.exp - x.prec - y.prec + BitLen(product), p, false);
    MulNearest(x, y, p);
    FiniteRound(Val(x) * Val(y), Mul(x, y, p), p);
  }

  lemma ValPositive(f: Fl)
    requires Normalized(f)
    ensures Val(f) > 0.0
  {}

  lemma {:induction false} Pow5LoopEncloses(z: Fl, w: nat, a: nat, k: nat, f: Fl, j: nat, n: nat, prec: nat)
    requires prec > 0 && j > 0
    requires z.Finite? ==> Normalized(z) && Encloses(Val(z), w, prec, a, k)
    requires f.Finite? ==> Normalized(f) && Encloses(Val(f), j, prec, 0, j - 1)
    requires Pow5Loop(z, f, n, prec).Finite?
    ensures var r := Pow5Loop(z, f, n, prec);
            && z.Finite? && Normalized(r)
            && Encloses(Val(r), w + j * n, prec, a + SetBits(n), k + j * n)
    decreases n
  {
    hide V, Encloses, Mul, Val;
    if n > 0 {
      var f' := Mul(f, f, prec + 64);
      SquareEncloses(f, j, prec);
      LoopCount(j, n);
      if n % 2 == 1 {
        var z' := Mul(z, f, prec);
        ProductEncloses(z, w, a, k, f, j, prec);
        Pow5LoopEncloses(z', w + j, a + 1, k + j, f', 2 * j, n / 2, prec);
      } else {
        Pow5LoopEncloses(z, w, a, k, f', 2 * j, n / 2, prec);
      }
    }
  }

  lemma LoopCount(j: nat, n: nat)
    ensures j * n == (if n % 2 == 1 then j else 0) + (2 * j) * (n / 2)
  {
    Assoc(j, 2, n / 2);
  }

  lemma SquareEncloses(f: Fl, j: nat, prec: nat)
    requires prec > 0 && j > 0
    requires f.Finite? ==> Normalized(f) && Encloses(Val(f), j, prec, 0, j - 1)
    ensures var f' := Mul(f, f, prec + 64);
            f'.Finite? ==> f.Finite? && Normalized(f') && Encloses(Val(f'), 2 * j, prec, 0, 2 * j - 1)
  {
    var f' := Mul(f, f, prec + 64);
    if f'.Finite? {
      assert f.Finite?;
      hide V, Encloses, Mul, Val;
      MulEncloses(f, j, 0, j - 1, f, j, 0, j - 1, prec, true);
    }
  }

  lemma ProductEncloses(z: Fl, w: nat, a: nat, k: nat, f: Fl, j: nat, prec: nat)
    requires prec > 0 && j > 0
    requires z.Finite? ==> Normalized(z) && Encloses(Val(z), w, prec, a, k)
    requires f.Finite? ==> Normalized(f) && Encloses(Val(f), j, prec, 0, j - 1)
    ensures var z' := Mul(z, f, prec);
            z'.Finite? ==> z.Finite? && Normalized(z') && Encloses(Val(z'), w + j, prec, a + 1, k + j)
  {
    var z' := Mul(z, f, prec);
    if z'.Finite? {
      assert z.Finite? && f.Finite?;
      hide V, Encloses, Mul, Val;
      MulEncloses(z, w, a, k, f, j, 0, j - 1, prec, false);
      EnclosesWeaken(Val(z'), w + j, prec, a + 1, k + j - 1, a + 1, k + j);
    }
  }

  // Where the loop starts.

  lemma FromU64Exact(v: nat, prec: nat)
    requires 0 < BitLen(v) <= prec && BitLen(v) <= 64
    ensures var r := FromU64(v, prec);
            r.Finite? && Normalized(r) && r.prec == prec && Val(r) == v as real
  {
    hide *;
    BitLenPositive(v);
    var s := prec - BitLen(v);
    var m := v * Pow(2, s);
    BitLenShift(v, s);
    MulLe(1, v, 1, Pow(2, s));
    BitLenBounds(m);
    ShiftedValue(v, s, BitLen(v) - prec);
    UnitTimes(v);
    ExactForm(v, prec, m);
  }

  lemma BitLenPositive(v: nat)
    ensures BitLen(v) > 0 ==> v > 0
  {}

  lemma UnitTimes(v: nat)
    ensures Exp(2, 0) * v as real == v as real
  {
    ExpZero(2);
  }

  lemma ExactForm(v: nat, prec: nat, m: nat)
    requires v > 0 && BitLen(v) <= prec && BitLen(v) <= 64 && m == v * Pow(2, prec - BitLen(v))
    ensures FromU64(v, prec) == Finite(m, BitLen(v), prec)
    ensures Val(Finite(m, BitLen(v), prec)) == V(m, BitLen(v) - prec)
    ensures Normalized(Finite(m, BitLen(v), prec)) <==> InBits(m, prec)
    ensures InBits(m, prec) <==> prec > 0 && Pow(2, prec - 1) <= m < Pow(2, prec)
  {
    hide V, Pow, BitLen, Rounded;
  }

  lemma PowersOfFiveBits(n: nat)
    requires n <= TABLE_MAX
    ensures 0 < BitLen(Pow(5, n)) <= 63
  {
    FiveTo27();
    PowMono(5, n, 27);
    BitLenBounds(Pow(5, n));
    PowLtImpliesLt(2, BitLen(Pow(5, n)) - 1, 63);
  }

  lemma FiveTo27()
    ensures Pow(5, 27) == 7450580596923828125 < Pow(2, 63)
  {
    assert Pow(5, 3) == 125;
    assert Pow(2, 7) == 128;
    hide Pow;
    PowAdd(5, 3, 3);
    PowAdd(5, 6, 6);
    PowAdd(5, 12, 12);
    PowAdd(5, 24, 3);
    PowAdd(2, 7, 7);
    PowAdd(2, 14, 7);
    PowAdd(2, 21, 21);
    PowAdd(2, 42, 21);
  }

  /** Up to 5^27 the power is exact when 63 bits are kept. */
  lemma Pow5Exact(n: nat, prec: nat)
    requires n <= TABLE_MAX && prec >= 63
    ensures var r := Pow5(n, prec);
            Normalized(r) && r.prec == prec && Val(r) == Pow(5, n) as real
  {
    PowersOfFiveBits(n);
    hide FromU64, Pow, BitLen;
    FromU64Exact(Pow(5, n), prec);
  }

  lemma ExactEncloses(x: real, n: nat, prec: nat)
    requires prec > 0 && x == Pow(5, n) as real
    ensures Encloses(x, n, prec, 0, 0)
  {
    hide Eps;
    assert Up(prec, 0, 0) == 1.0 && Down(prec, 0, 0) == 1.0;
  }

  /** The roundings at prec bits: one for each set bit, and one for the table
      entry when it does not fit. */
  function Roundings(n: nat, prec: nat): nat
    requires n > TABLE_MAX
  {
    SetBits(n - TABLE_MAX) + if prec < 63 then 1 else 0
  }

  /** Past the table, the rounded power encloses the exact one. */
  lemma Pow5Encloses(n: nat, prec: nat)
    requires n > TABLE_MAX && prec > 0 && Pow5(n, prec).Finite?
    ensures Normalized(Pow5(n, prec))
    ensures Encloses(Val(Pow5(n, prec)), n, prec, Roundings(n, prec), n)
  {
    hide *;
    var z, f := FromU64(Pow(5, TABLE_MAX), prec), FromU64(5, prec + 64);
    Pow5Unfold(n, prec);
    TableEncloses(prec);
    FiveEncloses(prec);
    Pow5LoopEncloses(z, TABLE_MAX, if prec < 63 then 1 else 0, 0, f, 1, n - TABLE_MAX, prec);
    EnclosesWeaken(Val(Pow5(n, prec)), n, prec, Roundings(n, prec), n - TABLE_MAX, Roundings(n, prec), n);
  }

  lemma Pow5Unfold(n: nat, prec: nat)
    requires n > TABLE_MAX
    ensures TABLE_MAX == 27
    ensures Pow5(n, prec)
         == Pow5Loop(FromU64(Pow(5, TABLE_MAX), prec), FromU64(5, prec + 64), n - TABLE_MAX, prec)
    ensures Roundings(n, prec) == (if prec < 63 then 1 else 0) + SetBits(n - TABLE_MAX)
  {
    hide Pow, FromU64, Pow5Loop, SetBits;
  }

  lemma FiveEncloses(prec: nat)
    requires prec > 0
    ensures var f := FromU64(5, prec + 64);
            f.Finite? && Normalized(f) && Encloses(Val(f), 1, prec, 0, 0)
  {
    assert BitLen(5) == 3;
    assert Pow(5, 1) == 5;
    hide FromU64, V, BitLen, Pow, Normalized, Encloses;
    FromU64Exact(5, prec + 64);
    ExactEncloses(Val(FromU64(5, prec + 64)), 1, prec);
  }

  lemma TableEncloses(prec: nat)
    requires prec > 0
    ensures var z := FromU64(Pow(5, TABLE_MAX), prec);
            z.Finite? && Normalized(z) && Encloses(Val(z), TABLE_MAX, prec, if prec < 63 then 1 else 0, 0)
  {
    hide Within, V, BitLen, Pow, Encloses, FromU64, Normalized, Abs, Eps;
    var z := FromU64(Pow(5, TABLE_MAX), prec);
    PowersOfFiveBits(27);
    if prec >= 63 {
      FromU64Exact(Pow(5, 27), prec);
      ExactEncloses(Val(z), 27, prec);
    } else {
      FromU64Rounds(Pow(5, 27), prec);
      ExactEncloses(Pow(5, 27) as real, 27, prec);
      EnclosesRound(Pow(5, 27) as real, Val(z), 27, prec, 0, 0, false);
    }
  }

  lemma FromU64Rounds(v: nat, prec: nat)
    requires 0 < BitLen(v) <= 64 && prec > 0
    ensures var r := FromU64(v, prec);
            && r.Finite? && Normalized(r) && r.prec == prec
            && Within(v as real, Val(r), prec)
  {
    assert v > 0;
    hide Within, V, Exp, Eps, Abs, BitLen, RoundInto, RoundsTo, Carries;
    UnitScale(v);
    FiniteInRange(v, BitLen(v), prec, false);
    RoundIntoNearest(v, BitLen(v), prec, false, v as real, 0.0);
    FiniteRound(v as real, FromU64(v, prec), prec);
  }

  lemma UnitScale(v: nat)
    ensures Carries(v as real, v, 0, false, 0.0)
  {
    ExpZero(2);
  }

  // Within the exponent range the result is finite.

  lemma {:induction false} SixteenBounds(r: real, s: real, n: nat)
    requires 0.5 <= r <= 1.5 && 0.5 <= s <= 1.5
    ensures 1.0 <= Times3(Pow(5, n) as real, RPow(r, n), RPow(s, n)) <= Pow(16, n) as real
    decreases n
  {
    hide Times3;
    if n == 0 {
      OneTimes3();
    }
    if n > 0 {
      SixteenBounds(r, s, n - 1);
      NatProduct(5, Pow(5, n - 1));
      NatProduct(16, Pow(16, n - 1));
      SixteenStep(Pow(5, n - 1) as real, RPow(r, n - 1), RPow(s, n - 1), r, s, Pow(16, n - 1) as real,
                  Pow(5, n) as real, RPow(r, n), RPow(s, n), Pow(16, n) as real);
    }
  }

  lemma SixteenStep(p: real, x: real, y: real, r: real, s: real, q: real, p': real, x': real, y': real, q': real)
    requires 0.5 <= r <= 1.5 && 0.5 <= s <= 1.5 && 1.0 <= Times3(p, x, y) <= q
    requires p' == 5.0 * p && x' == r * x && y' == s * y && q' == 16.0 * q
    ensures 1.0 <= Times3(p', x', y') <= q'
  {
    var t := (p * x) * y;
    RMulLe2(0.5, r, 0.5, s);
    RMulLe2(r, 1.5, s, 1.5);
    var c := 5.0 * (r * s);
    SixProducts(p, x, y, r, s);
    RMulLe2(1.0, c, 1.0, t);
    RMulLe2(c, 16.0, t, q);
  }

  function Times3(a: real, b: real, c: real): real {
    (a * b) * c
  }

  lemma OneTimes3()
    ensures Times3(1.0, 1.0, 1.0) == 1.0
  {}

  lemma SixProducts(p: real, x: real, y: real, r: real, s: real)
    ensures ((5.0 * p) * (r * x)) * (s * y) == (5.0 * (r * s)) * ((p * x) * y)
  {
    Shuffle(5.0, p, r, x);
    Shuffle(5.0 * r, p * x, s, y);
    Assoc3(5.0, r, s);
  }

  lemma Assoc3(a: real, b: real, c: real)
    ensures (a * b) * c == a * (b * c)
  {}

  lemma EnclosedRange(x: real, n: nat, prec: nat, a: nat, k: nat)
    requires prec > 0 && Encloses(x, n, prec, a, k) && a <= n && k <= n
    ensures 1.0 <= x <= Exp(2, 4 * n)
  {
    hide *;
    EnclosesWeaken(x, n, prec, a, k, n, n);
    EpsSmall(prec);
    EpsSmall(prec + 64);
    SixteenBounds(1.0 - Eps(prec), 1.0 - Eps(prec + 64), n);
    SixteenBounds(1.0 + Eps(prec), 1.0 + Eps(prec + 64), n);
    PowersOfSixteen(n);
    EnclosesUnfold(x, n, prec, n, n);
  }

  lemma PowersOfSixteen(n: nat)
    ensures Pow(16, n) as real == Exp(2, 4 * n)
  {
    assert Pow(2, 4) == 16;
    PowMul(2, 4, n);
    ExpNat(2, 4 * n);
  }

  lemma EnclosesUnfold(x: real, n: nat, prec: nat, a: nat, k: nat)
    requires prec > 0 && Encloses(x, n, prec, a, k)
    ensures Times3(Pow(5, n) as real, RPow(1.0 - Eps(prec), a), RPow(1.0 - Eps(prec + 64), k)) <= x
    ensures x <= Times3(Pow(5, n) as real, RPow(1.0 + Eps(prec), a), RPow(1.0 + Eps(prec + 64), k))
  {
    hide Eps, RPow, Pow;
    Assoc3(Pow(5, n) as real, RPow(1.0 - Eps(prec), a), RPow(1.0 - Eps(prec + 64), k));
    Assoc3(Pow(5, n) as real, RPow(1.0 + Eps(prec), a), RPow(1.0 + Eps(prec + 64), k));
  }

  lemma MulFinite(x: Fl, y: Fl, p: nat, top: int)
    requires x.Finite? && y.Finite? && Normalized(x) && Normalized(y)
    requires 1.0 <= Val(x) * Val(y) <= Exp(2, top) && top < MAX_EXP - 1
    ensures Mul(x, y, p).Finite?
  {
    hide V, BitLen, Exp, RoundInto, Pow;
    var product, g := x.mant * y.mant, x.exp + y.exp - x.prec - y.prec;
    MulLe(1, x.mant, 1, y.mant);
    MulValue(x.mant, x.exp - x.prec, y.mant, y.exp - y.prec);
    BitsOfValue(product, g, top);
    FiniteInRange(product, g + BitLen(product), p, false);
  }

  /** A value between one and 2^top has its leading bit in between. */
  lemma BitsOfValue(m: nat, g: int, top: int)
    requires m > 0 && 1.0 <= V(m, g) <= Exp(2, top)
    ensures 1 <= g + BitLen(m) <= top + 1
  {
    hide *;
    ValueBits(m, g);
    ExpZero(2);
    ExpOrder(0, g + BitLen(m));
    ExpOrder(g + BitLen(m) - 1, top + 1);
    ExpStrict(2, top, top + 1);
  }

  lemma ExpOrder(x: int, y: int)
    ensures Exp(2, x) < Exp(2, y) ==> x < y
  {
    hide Exp;
    if y <= x {
      ExpMono(2, y, x);
    }
  }

  lemma ValueBits(m: nat, g: int)
    requires m > 0
    ensures Exp(2, g + BitLen(m) - 1) <= V(m, g) < Exp(2, g + BitLen(m))
  {
    hide Exp, BitLen, Pow;
    var b := BitLen(m);
    BitLenBounds(m);
    ExpNat(2, b);
    ExpNat(2, b - 1);
    ExpAdd(2, g, b);
    ExpAdd(2, g, b - 1);
    ScaledBounds(Exp(2, g), Exp(2, b - 1), m as real, Exp(2, b), V(m, g));
  }

  lemma ScaledBounds(u: real, lo: real, m: real, hi: real, v: real)
    requires u > 0.0 && lo <= m < hi && v == m * u
    ensures u * lo <= v < u * hi
  {
    RMulLe(u, lo, m);
    RMulLt(u, m, hi);
  }

  lemma {:induction false} Pow5LoopFinite(z: Fl, w: nat, a: nat, k: nat, f: Fl, j: nat, n: nat, prec: nat)
    requires prec > 0 && j > 0 && a <= w && k <= w
    requires z.Finite? && Normalized(z) && Encloses(Val(z), w, prec, a, k)
    requires n > 0 ==> f.Finite? && Normalized(f) && Encloses(Val(f), j, prec, 0, j - 1)
    requires 4 * (w + j * n) < MAX_EXP - 1
    ensures Pow5Loop(z, f, n, prec).Finite?
    decreases n
  {
    hide V, Encloses, Mul, Val, Normalized;
    if n > 0 {
      LoopCount(j, n);
      var f' := Mul(f, f, prec + 64);
      if n / 2 > 0 {
        MulLe(2 * j, 2 * j, 1, n / 2);
        ProductFinite(f, j, 0, j - 1, f, j, prec, prec + 64);
        SquareEncloses(f, j, prec);
      }
      if n % 2 == 1 {
        ProductFinite(z, w, a, k, f, j, prec, prec);
        ProductEncloses(z, w, a, k, f, j, prec);
        Pow5LoopFinite(Mul(z, f, prec), w + j, a + 1, k + j, f', 2 * j, n / 2, prec);
      } else {
        Pow5LoopFinite(z, w, a, k, f', 2 * j, n / 2, prec);
      }
    }
  }

  lemma ProductFinite(z: Fl, w: nat, a: nat, k: nat, f: Fl, j: nat, prec: nat, p: nat)
    requires prec > 0 && j > 0 && a <= w && k <= w
    requires z.Finite? && Normalized(z) && Encloses(Val(z), w, prec, a, k)
    requires f.Finite? && Normalized(f) && Encloses(Val(f), j, prec, 0, j - 1)
    requires 4 * (w + j) < MAX_EXP - 1
    ensures Mul(z, f, p).Finite?
  {
    hide *;
    EnclosedRange(Val(z), w, prec, a, k);
    EnclosedRange(Val(f), j, prec, 0, j - 1);
    ExpAdd(2, 4 * w, 4 * j);
    RMulLe2(1.0, Val(z), 1.0, Val(f));
    RMulLe2(Val(z), Exp(2, 4 * w), Val(f), Exp(2, 4 * j));
    MulFinite(z, f, p, 4 * w + 4 * j);
  }

  lemma Pow5Finite(n: nat, prec: nat)
    requires n > TABLE_MAX && prec > 0 && 4 * n < MAX_EXP - 1
    ensures Pow5(n, prec).Finite?
  {
    hide *;
    Pow5Unfold(n, prec);
    TableEncloses(prec);
    FiveEncloses(prec);
    Pow5LoopFinite(FromU64(Pow(5, TABLE_MAX), prec), TABLE_MAX, if prec < 63 then 1 else 0, 0,
                   FromU64(5, prec + 64), 1, n - TABLE_MAX, prec);
  }
}
