/** How many decimal digits 2^p has, by fixed point, and how far ten to that many
    digits is above 2^p. */
module PowTwoDigits {
  import opened Powers
  import opened Reals
  import opened Floats
  import opened PowerOfFive
  import opened PowerOfFiveBound

  const TWO64: nat := 0x1_0000_0000_0000_0000

  /** floor(log10(2) * 2^128), high word and low word. */
  const LOG_HIGH: nat := 0x4d10_4d42_7de7_fbcc
  const LOG_LOW: nat := 0x47c4_acd6_05be_48bc

  /** floor(p * log10(2)) + 1 in fixed point. */
  function Pow2Digits(p: nat): (d: nat)
    ensures d > 0
  {
    (p * LOG_HIGH + p * LOG_LOW / TWO64) / TWO64 + 1
  }

  function BigFloatDigits(p: nat): (d: nat)
    ensures d > 1
  {
    Pow2Digits(p) + 1
  }

  /** The two nested floors are one: d is the first integer whose multiple of
      2^128 passes p times the fixed-point logarithm. */
  lemma Pow2DigitsCeiling(p: nat)
    ensures var d, t := Pow2Digits(p), p * (LOG_HIGH * TWO64 + LOG_LOW);
            (d - 1) * (TWO64 * TWO64) <= t < d * (TWO64 * TWO64)
  {
    var b := p * LOG_LOW;
    var a := p * LOG_HIGH + b / TWO64;
    assert b == (b / TWO64) * TWO64 + b % TWO64;
    assert a == (a / TWO64) * TWO64 + a % TWO64;
  }

  /** Every precision whose digits fit the literal limit is in range. */
  lemma DigitsBoundPrecision(p: nat)
    requires BigFloatDigits(p) <= 4096
    ensures p <= 13603
  {
    Pow2DigitsCeiling(p);
  }

  /** 643/2136 and 4004/13301 are neighbouring convergents of log10(2), below and
      above it, so no fraction of a smaller denominator lies between. */
  lemma DigitsAboveConvergent(p: nat)
    requires 0 < p < 15437
    ensures 13301 * Pow2Digits(p) >= 4004 * p
  {
    Pow2DigitsCeiling(p);
    var d := Pow2Digits(p);
    assert 2136 * d > 643 * p;
  }

  // 10^4004 against 2^13301.

  lemma SquareStep(k: nat, m: nat, e: nat, m': nat, d: nat)
    requires Pow(5, k) >= m * Pow(2, e)
    requires m * m >= m' * Pow(2, d)
    ensures Pow(5, k + k) >= m' * Pow(2, e + e + d)
  {
    hide Pow;
    PowAdd(5, k, k);
    PowAdd(2, e, e);
    PowAdd(2, d, e + e);
    MulLe(m * Pow(2, e), Pow(5, k), m * Pow(2, e), Pow(5, k));
    Squares(m, Pow(2, e));
    MulLe(m' * Pow(2, d), m * m, Pow(2, e + e), Pow(2, e + e));
    Assoc(m', Pow(2, d), Pow(2, e + e));
  }

  lemma Squares(m: nat, x: nat)
    ensures (m * x) * (m * x) == (m * m) * (x * x)
  {}

  lemma TimesFiveStep(k: nat, m: nat, e: nat, m': nat, d: nat)
    requires Pow(5, k) >= m * Pow(2, e)
    requires 5 * m >= m' * Pow(2, d)
    ensures Pow(5, k + 1) >= m' * Pow(2, e + d)
  {
    hide Pow;
    PowAdd(5, 1, k);
    PowAdd(2, d, e);
    PowOne(5);
    MulLe(5, 5, m * Pow(2, e), Pow(5, k));
    Assoc(5, m, Pow(2, e));
    MulLe(m' * Pow(2, d), 5 * m, Pow(2, e), Pow(2, e));
    Assoc(m', Pow(2, d), Pow(2, e));
  }

  lemma PowOne(b: nat)
    ensures Pow(b, 1) == b
  {
    assert Pow(b, 0) == 1;
  }

  /** A lower bound for 5^4004, by squaring with 48-bit mantissas. */
  lemma FiveTo4004()
    ensures Pow(5, 4004) >= 140746456479609 * Pow(2, 9250)
  {
    hide Pow;
    SmallPowers();
    PowOne(5);
    SquareStep(1, 5, 0, 25, 0);
    TimesFiveStep(2, 25, 0, 125, 0);
    SquareStep(3, 125, 0, 15625, 0);
    TimesFiveStep(6, 15625, 0, 78125, 0);
    SquareStep(7, 78125, 0, 6103515625, 0);
    TimesFiveStep(14, 6103515625, 0, 30517578125, 0);
    SquareStep(15, 30517578125, 0, 222044604925031, 22);
    TimesFiveStep(30, 222044604925031, 22, 277555756156288, 2);
    SquareStep(31, 277555756156288, 24, 273691106313438, 48);
    SquareStep(62, 273691106313438, 96, 266122490000503, 48);
    TimesFiveStep(124, 266122490000503, 240, 166326556250314, 3);
    SquareStep(125, 166326556250314, 243, 196568260790917, 47);
    SquareStep(250, 196568260790917, 533, 274547184278375, 47);
    SquareStep(500, 274547184278375, 1113, 267789901880576, 48);
    TimesFiveStep(1000, 267789901880576, 2274, 167368688675360, 3);
    SquareStep(1001, 167368688675360, 2277, 199039206086905, 47);
    SquareStep(2002, 199039206086905, 4601, 140746456479609, 48);
  }

  lemma SmallPowers()
    ensures Pow(2, 0) == 1 && Pow(2, 2) == 4 && Pow(2, 3) == 8 && Pow(2, 22) == 4194304
    ensures Pow(2, 47) == 140737488355328 && Pow(2, 48) == 281474976710656
  {
    hide Pow;
    PowOne(2);
    PowZero(2);
    PowAdd(2, 1, 1);
    PowAdd(2, 1, 2);
    PowAdd(2, 3, 2);
    PowAdd(2, 5, 5);
    PowAdd(2, 10, 1);
    PowAdd(2, 11, 11);
    PowAdd(2, 22, 22);
    PowAdd(2, 44, 3);
    PowAdd(2, 47, 1);
  }

  lemma PowZero(b: nat)
    ensures Pow(b, 0) == 1
  {}

  // The gap for every precision in range.

  lemma {:induction false} RPowOfNat(b: nat, m: nat, n: nat)
    requires b > 0
    ensures RPow(Pow(b, m) as real, n) == Pow(b, m * n) as real
    decreases n
  {
    hide Pow;
    PowZero(b);
    if n > 0 {
      RPowOfNat(b, m, n - 1);
      PowAdd(b, m, m * (n - 1));
      NatProduct(Pow(b, m), Pow(b, m * (n - 1)));
      MulStep(m, n);
    }
  }

  lemma MulStep(m: nat, n: nat)
    requires n > 0
    ensures m + m * (n - 1) == m * n
  {}

  lemma {:induction false} RPowProduct(x: real, y: real, xy: real, n: nat)
    requires xy == x * y
    ensures RPow(xy, n) == RPow(x, n) * RPow(y, n)
    decreases n
  {
    if n > 0 {
      RPowProduct(x, y, xy, n - 1);
      Regroup(x * RPow(x, n - 1), x, RPow(x, n - 1), y * RPow(y, n - 1), y, RPow(y, n - 1));
    }
  }

  lemma {:induction false} RPowMono(x: real, y: real, n: nat)
    requires 0.0 < x <= y
    ensures RPow(x, n) <= RPow(y, n)
    ensures x < y && n > 0 ==> RPow(x, n) < RPow(y, n)
    decreases n
  {
    if n > 0 {
      RPowMono(x, y, n - 1);
      StrictProduct(x, y, RPow(x, n - 1), RPow(y, n - 1));
    }
  }

  lemma StrictProduct(x: real, y: real, a: real, b: real)
    requires 0.0 < x <= y && 0.0 < a <= b
    ensures x * a <= y * b
    ensures x < y ==> x * a < y * b
  {
    RMulLe(x, a, b);
    RMulLe(b, x, y);
    if x < y {
      RMulLt(b, x, y);
    }
  }

  const GAP_CONVERGENT: real := 1.0 / 16384.0

  lemma ConvergentGap()
    ensures Pow(10, 4004) as real >= Pow(2, 13301) as real * (1.0 + GAP_CONVERGENT)
  {
    hide Pow;
    FiveTo4004();
    SmallPowers();
    PowOfProduct(2, 5, 4004);
    PowAdd(2, 4004, 9250);
    PowAdd(2, 47, 13254);
    ConvergentProduct(Pow(5, 4004), Pow(2, 9250), Pow(2, 4004), Pow(2, 13254));
    NatProduct(Pow(2, 47), Pow(2, 13254));
    GapScale(Pow(10, 4004), Pow(2, 13254), Pow(2, 13301) as real);
  }

  lemma ConvergentProduct(f: nat, e: nat, t: nat, te: nat)
    requires f >= 140746456479609 * e && te == t * e
    ensures t * f >= 140746456479609 * te
  {
    MulLe(t, t, 140746456479609 * e, f);
    Assoc(t, 140746456479609, e);
    Assoc(140746456479609, t, e);
  }

  lemma GapScale(ten: nat, te: nat, two: real)
    requires ten >= 140746456479609 * te && two == 140737488355328.0 * te as real
    ensures ten as real >= two * (1.0 + GAP_CONVERGENT)
  {
    var x := te as real;
    assert ten as real >= 140746456479609.0 * x;
    assert two * (1.0 + GAP_CONVERGENT) == 140746078289920.0 * x;
  }

  /** Ten to the digits of 2^p is above 2^p by more than 2^-40 of it. */
  lemma TenAboveTwo(p: nat)
    requires 0 < p < 15437
    ensures Pow(10, Pow2Digits(p)) as real >= Pow(2, p) as real * (1.0 + Eps(40))
  {
    hide *;
    PowersCompare(p);
    SmallGap();
    var y := Pow(2, p) as real;
    RootCompare(Pow(10, Pow2Digits(p)) as real, y, y * (1.0 + Eps(40)), Eps(40), GAP_CONVERGENT, 13301);
  }

  /** The same comparison raised to the power 13301. */
  lemma PowersCompare(p: nat)
    requires 0 < p < 15437
    ensures RPow(Pow(10, Pow2Digits(p)) as real, 13301)
         >= RPow(Pow(2, p) as real, 13301) * (1.0 + GAP_CONVERGENT)
  {
    hide *;
    var d := Pow2Digits(p);
    DigitsAboveConvergent(p);
    RPowOfNat(10, d, 13301);
    RPowOfNat(2, p, 13301);
    Commuted(13301, p);
    Commuted(13301, d);
    PowMono(10, 4004 * p, d * 13301);
    ConvergentPower(p);
  }

  lemma ConvergentPower(p: nat)
    requires p > 0
    ensures Pow(10, 4004 * p) as real >= Pow(2, 13301 * p) as real * (1.0 + GAP_CONVERGENT)
  {
    hide *;
    RPowOfNat(10, 4004, p);
    RPowOfNat(2, 13301, p);
    ConvergentGap();
    GapPositive();
    var two := Pow(2, 13301) as real;
    ConvergentRaised(two, Pow(10, 4004) as real, 1.0 + GAP_CONVERGENT, two * (1.0 + GAP_CONVERGENT), p);
  }

  lemma ConvergentRaised(two: real, ten: real, g: real, tg: real, p: nat)
    requires two > 0.0 && g > 1.0 && tg == two * g && ten >= tg && p > 0
    ensures RPow(ten, p) >= RPow(two, p) * g
  {
    hide *;
    Positive(two, g);
    RPowMono(tg, ten, p);
    RPowProduct(two, g, tg, p);
    FirstFactor(g, p);
    RaisedProduct(RPow(tg, p), RPow(two, p), RPow(g, p), g);
  }

  lemma FirstFactor(g: real, n: nat)
    requires g > 1.0 && n > 0
    ensures RPow(g, n) >= g
  {
    hide *;
    var s := g - 1.0;
    AtLeastFirst(s, n);
    assert 1.0 + s == g;
  }

  lemma RaisedProduct(t: real, b: real, c: real, g: real)
    requires t == b * c && c >= g && b > 0.0
    ensures t >= b * g
  {
    RMulLe(b, g, c);
  }

  lemma RootCompare(x: real, y: real, ye: real, e: real, s: real, k: nat)
    requires x > 0.0 && y > 0.0 && e > 0.0 && k > 0 && ye == y * (1.0 + e)
    requires RPow(x, k) >= RPow(y, k) * (1.0 + s) && RPow(1.0 + e, k) <= 1.0 + s
    ensures x >= ye
  {
    hide RPow;
    if x < ye {
      RPowMono(x, ye, k);
      RPowProduct(y, 1.0 + e, ye, k);
      Raised(RPow(x, k), RPow(y, k), RPow(1.0 + e, k), RPow(ye, k), 1.0 + s);
    }
  }

  lemma Raised(a: real, b: real, c: real, bc: real, g: real)
    requires b > 0.0 && c <= g && bc == b * c && a >= b * g
    ensures bc <= a
  {
    RMulLe(b, c, g);
  }

  lemma Commuted(a: nat, b: nat)
    ensures a * b == b * a
  {}

  lemma GapPositive()
    ensures GAP_CONVERGENT > 0.0
  {}

  lemma {:induction false} AtLeastFirst(s: real, n: nat)
    requires s > 0.0 && n > 0
    ensures RPow(1.0 + s, n) >= 1.0 + s
    decreases n
  {
    if n > 1 {
      AtLeastFirst(s, n - 1);
      RMulLe(1.0 + s, 1.0, RPow(1.0 + s, n - 1));
    } else {
      assert RPow(1.0 + s, 0) == 1.0;
    }
  }

  lemma SmallGap()
    ensures RPow(1.0 + Eps(40), 13301) <= 1.0 + GAP_CONVERGENT
  {
    hide Exp, RPow;
    ExpNeg(2, 40);
    ExpNat(2, 40);
    TwoTo40();
    hide Pow;
    assert Eps(40) * 1099511627776.0 == 1.0;
    PowerUp(Eps(40), 13301);
  }
}
