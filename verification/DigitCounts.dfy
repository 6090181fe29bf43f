/** The digit count in fixed point is exact: for every 32-bit p it is the number of
    decimal digits of 2^p. */
module DigitCounts {
  import opened Powers
  import opened PowTwoDigits

  /** Two fractions around log10(2), neighbours in the Farey sense: any fraction
      between them has a denominator past 2^32. */
  const BELOW_NUM: nat := 1054128743
  const BELOW_DEN: nat := 3501739887
  const ABOVE_NUM: nat := 579001193
  const ABOVE_DEN: nat := 1923400330

  lemma Neighbours()
    ensures ABOVE_NUM * BELOW_DEN == BELOW_NUM * ABOVE_DEN + 1
    ensures BELOW_DEN + ABOVE_DEN > 0x1_0000_0000
    ensures BELOW_NUM * (TWO64 * TWO64) < (LOG_HIGH * TWO64 + LOG_LOW) * BELOW_DEN
    ensures (LOG_HIGH * TWO64 + LOG_LOW) * ABOVE_DEN < ABOVE_NUM * (TWO64 * TWO64)
  {}

  /** An integer at most p times the fixed-point logarithm is at most p times the
      lower fraction. */
  lemma LowerSide(n: nat, p: nat)
    requires 0 < p < 0x1_0000_0000 && n * (TWO64 * TWO64) <= p * (LOG_HIGH * TWO64 + LOG_LOW)
    ensures n * BELOW_DEN <= BELOW_NUM * p
  {
    Neighbours();
    assert n * ABOVE_DEN < ABOVE_NUM * p;
    if n * BELOW_DEN > BELOW_NUM * p {
      Between(n, p);
    }
  }

  lemma UpperSide(n: nat, p: nat)
    requires 0 < p < 0x1_0000_0000 && p * (LOG_HIGH * TWO64 + LOG_LOW) < n * (TWO64 * TWO64)
    ensures ABOVE_NUM * p <= n * ABOVE_DEN
  {
    Neighbours();
    assert n * BELOW_DEN > BELOW_NUM * p;
    if n * ABOVE_DEN < ABOVE_NUM * p {
      Between(n, p);
    }
  }

  lemma Between(n: nat, p: nat)
    requires n * BELOW_DEN > BELOW_NUM * p && n * ABOVE_DEN < ABOVE_NUM * p
    ensures p > 0x1_0000_0000
  {
    Neighbours();
    assert p == ABOVE_DEN * (n * BELOW_DEN - BELOW_NUM * p) + BELOW_DEN * (ABOVE_NUM * p - n * ABOVE_DEN);
  }

  // Powers of five between multiples of powers of two.

  predicate AtLeastFive(k: nat, m: nat, e: nat) {
    Pow(5, k) >= m * Pow(2, e)
  }

  predicate AtMostFive(k: nat, m: nat, e: nat) {
    Pow(5, k) <= m * Pow(2, e)
  }

  lemma AtLeastFiveStart()
    ensures AtLeastFive(1, 5, 0)
  {
    PowOne(5);
    PowZero(2);
  }

  lemma AtMostFiveStart()
    ensures AtMostFive(1, 5, 0)
  {
    PowOne(5);
    PowZero(2);
  }

  lemma SquareBelow(k: nat, m: nat, e: nat, m': nat, d: nat, shift: nat)
    requires AtLeastFive(k, m, e) && shift == Pow(2, d) && m * m >= m' * shift
    ensures AtLeastFive(k + k, m', e + e + d)
  {
    hide Pow;
    SquareStep(k, m, e, m', d);
  }

  lemma FiveBelow(k: nat, m: nat, e: nat, m': nat, d: nat, shift: nat)
    requires AtLeastFive(k, m, e) && shift == Pow(2, d) && 5 * m >= m' * shift
    ensures AtLeastFive(k + 1, m', e + d)
  {
    hide Pow;
    TimesFiveStep(k, m, e, m', d);
  }

  lemma SquareAbove(k: nat, m: nat, e: nat, m': nat, d: nat, shift: nat)
    requires AtMostFive(k, m, e) && shift == Pow(2, d) && m * m <= m' * shift
    ensures AtMostFive(k + k, m', e + e + d)
  {
    hide Pow;
    PowAdd(5, k, k);
    PowAdd(2, e, e);
    PowAdd(2, d, e + e);
    MulLe(Pow(5, k), m * Pow(2, e), Pow(5, k), m * Pow(2, e));
    Squares(m, Pow(2, e));
    MulLe(m * m, m' * Pow(2, d), Pow(2, e + e), Pow(2, e + e));
    Assoc(m', Pow(2, d), Pow(2, e + e));
  }

  lemma FiveAbove(k: nat, m: nat, e: nat, m': nat, d: nat, shift: nat)
    requires AtMostFive(k, m, e) && shift == Pow(2, d) && 5 * m <= m' * shift
    ensures AtMostFive(k + 1, m', e + d)
  {
    hide Pow;
    PowAdd(5, 1, k);
    PowAdd(2, d, e);
    PowOne(5);
    MulLe(5, 5, Pow(5, k), m * Pow(2, e));
    Assoc(5, m, Pow(2, e));
    MulLe(5 * m, m' * Pow(2, d), Pow(2, e), Pow(2, e));
    Assoc(m', Pow(2, d), Pow(2, e));
  }

  lemma Shifts()
    ensures Pow(2, 0) == 1 && Pow(2, 2) == 4 && Pow(2, 3) == 8 && Pow(2, 6) == 64 && Pow(2, 15) == 32768
    ensures Pow(2, 63) == 9223372036854775808 && Pow(2, 64) == 18446744073709551616
  {
    hide Pow;
    SmallPowers();
    PowOne(2);
    PowAdd(2, 3, 3);
    PowAdd(2, 6, 6);
    PowAdd(2, 12, 3);
    PowAdd(2, 48, 15);
    PowAdd(2, 63, 1);
  }

  // 5^579001193 from below and 5^1054128743 from above, by squaring with 64-bit
  // mantissas.

  lemma TenAbove1()
    ensures AtLeastFive(552, 15028224520079441722, 1218)
  {
    AtLeastFiveStart();
    hide AtLeastFive, Pow;
    Shifts();
    SquareBelow(1, 5, 0, 25, 0, 0x1);
    SquareBelow(2, 25, 0, 625, 0, 0x1);
    SquareBelow(4, 625, 0, 390625, 0, 0x1);
    SquareBelow(8, 390625, 0, 152587890625, 0, 0x1);
    FiveBelow(16, 152587890625, 0, 762939453125, 0, 0x1);
    SquareBelow(17, 762939453125, 0, 17763568394002504646, 15, 0x8000);
    SquareBelow(34, 17763568394002504646, 15, 17105694144590052133, 64, 0x10000000000000000);
    FiveBelow(68, 17105694144590052133, 94, 10691058840368782583, 3, 0x8);
    SquareBelow(69, 10691058840368782583, 97, 12392294127517818469, 63, 0x8000000000000000);
    SquareBelow(138, 12392294127517818469, 257, 16649979327439178898, 63, 0x8000000000000000);
    SquareBelow(276, 16649979327439178898, 577, 15028224520079441722, 64, 0x10000000000000000);
  }

  lemma TenAbove2()
    ensures AtLeastFive(141356, 12755744408023532527, 328155)
  {
    TenAbove1();
    hide AtLeastFive, Pow;
    Shifts();
    SquareBelow(552, 15028224520079441722, 1218, 12243219254491457402, 64, 0x10000000000000000);
    SquareBelow(1104, 12243219254491457402, 2500, 16251802173282594738, 63, 0x8000000000000000);
    SquareBelow(2208, 16251802173282594738, 5063, 14318032104968613593, 64, 0x10000000000000000);
    FiveBelow(4416, 14318032104968613593, 10190, 17897540131210766991, 2, 0x4);
    SquareBelow(4417, 17897540131210766991, 10192, 17364687311124207224, 64, 0x10000000000000000);
    SquareBelow(8834, 17364687311124207224, 20448, 16346102282779778371, 64, 0x10000000000000000);
    FiveBelow(17668, 16346102282779778371, 40960, 10216313926737361481, 3, 0x8);
    SquareBelow(17669, 10216313926737361481, 40963, 11316150951365027875, 63, 0x8000000000000000);
    FiveBelow(35338, 11316150951365027875, 81989, 14145188689206284843, 2, 0x4);
    SquareBelow(35339, 14145188689206284843, 81991, 10846703475352819180, 64, 0x10000000000000000);
    SquareBelow(70678, 10846703475352819180, 164046, 12755744408023532527, 63, 0x8000000000000000);
  }

  lemma TenAbove3()
    ensures AtLeastFive(9046893, 9405040173677066622, 21006172)
  {
    TenAbove2();
    hide AtLeastFive, Pow;
    Shifts();
    FiveBelow(141356, 12755744408023532527, 328155, 15944680510029415658, 2, 0x4);
    SquareBelow(141357, 15944680510029415658, 328157, 13781989686149904096, 64, 0x10000000000000000);
    FiveBelow(282714, 13781989686149904096, 656378, 17227487107687380120, 2, 0x4);
    SquareBelow(282715, 17227487107687380120, 656380, 16088818214186488258, 64, 0x10000000000000000);
    SquareBelow(565430, 16088818214186488258, 1312824, 14032290494996030769, 64, 0x10000000000000000);
    FiveBelow(1130860, 14032290494996030769, 2625712, 17540363118745038461, 2, 0x4);
    SquareBelow(1130861, 17540363118745038461, 2625714, 16678517201087907312, 64, 0x10000000000000000);
    FiveBelow(2261722, 16678517201087907312, 5251492, 10424073250679942070, 3, 0x8);
    SquareBelow(2261723, 10424073250679942070, 5251495, 11781082092465960940, 63, 0x8000000000000000);
    SquareBelow(4523446, 11781082092465960940, 10503053, 15048064277883306596, 63, 0x8000000000000000);
    FiveBelow(9046892, 15048064277883306596, 21006169, 9405040173677066622, 3, 0x8);
  }

  lemma TenAbove4()
    ensures AtLeastFive(579001193, 9223372037098434993, 1344399074)
  {
    TenAbove3();
    hide AtLeastFive, Pow;
    Shifts();
    SquareBelow(9046893, 9405040173677066622, 21006172, 9590286536749432554, 63, 0x8000000000000000);
    FiveBelow(18093786, 9590286536749432554, 42012407, 11987858170936790692, 2, 0x4);
    SquareBelow(18093787, 11987858170936790692, 42012409, 15580933193658910978, 63, 0x8000000000000000);
    SquareBelow(36187574, 15580933193658910978, 84024881, 13160342996857282222, 64, 0x10000000000000000);
    FiveBelow(72375148, 13160342996857282222, 168049826, 16450428746071602777, 2, 0x4);
    SquareBelow(72375149, 16450428746071602777, 168049828, 14670155602975155596, 64, 0x10000000000000000);
    SquareBelow(144750298, 14670155602975155596, 336099720, 11666745337581135370, 64, 0x10000000000000000);
    SquareBelow(289500596, 11666745337581135370, 672199504, 14757395259357495990, 63, 0x8000000000000000);
    FiveBelow(579001192, 14757395259357495990, 1344399071, 9223372037098434993, 3, 0x8);
  }

  lemma TenBelow1()
    ensures AtMostFive(125, 10900377190420865846, 227)
  {
    AtMostFiveStart();
    hide AtMostFive, Pow;
    Shifts();
    SquareAbove(1, 5, 0, 25, 0, 0x1);
    FiveAbove(2, 25, 0, 125, 0, 0x1);
    SquareAbove(3, 125, 0, 15625, 0, 0x1);
    FiveAbove(6, 15625, 0, 78125, 0, 0x1);
    SquareAbove(7, 78125, 0, 6103515625, 0, 0x1);
    FiveAbove(14, 6103515625, 0, 30517578125, 0, 0x1);
    SquareAbove(15, 30517578125, 0, 14551915228366851807, 6, 0x40);
    FiveAbove(30, 14551915228366851807, 6, 18189894035458564759, 2, 0x4);
    SquareAbove(31, 18189894035458564759, 8, 17936620343357658510, 64, 0x10000000000000000);
    SquareAbove(62, 17936620343357658510, 80, 17440603504673385353, 64, 0x10000000000000000);
    FiveAbove(124, 17440603504673385353, 224, 10900377190420865846, 3, 0x8);
  }

  lemma TenBelow2()
    ensures AtMostFive(32168, 15870224468631544674, 74628)
  {
    TenBelow1();
    hide AtMostFive, Pow;
    Shifts();
    SquareAbove(125, 10900377190420865846, 227, 12882297539194266624, 63, 0x8000000000000000);
    FiveAbove(250, 12882297539194266624, 517, 16102871923992833280, 2, 0x4);
    SquareAbove(251, 16102871923992833280, 519, 14056815835054417185, 64, 0x10000000000000000);
    SquareAbove(502, 14056815835054417185, 1102, 10711596075225506904, 64, 0x10000000000000000);
    FiveAbove(1004, 10711596075225506904, 2268, 13389495094031883630, 2, 0x4);
    SquareAbove(1005, 13389495094031883630, 2270, 9718711234716654216, 64, 0x10000000000000000);
    SquareAbove(2010, 9718711234716654216, 4604, 10240652516930983688, 63, 0x8000000000000000);
    FiveAbove(4020, 10240652516930983688, 9271, 12800815646163729610, 2, 0x4);
    SquareAbove(4021, 12800815646163729610, 9273, 17765832339009461456, 63, 0x8000000000000000);
    SquareAbove(8042, 17765832339009461456, 18609, 17110054621922434545, 64, 0x10000000000000000);
    SquareAbove(16084, 17110054621922434545, 37282, 15870224468631544674, 64, 0x10000000000000000);
  }

  lemma TenBelow3()
    ensures AtMostFive(2058845, 9538832264400131258, 4780427)
  {
    TenBelow2();
    hide AtMostFive, Pow;
    Shifts();
    FiveAbove(32168, 15870224468631544674, 74628, 9918890292894715422, 3, 0x8);
    SquareAbove(32169, 9918890292894715422, 74631, 10666856356802741328, 63, 0x8000000000000000);
    SquareAbove(64338, 10666856356802741328, 149325, 12336250135201455451, 63, 0x8000000000000000);
    FiveAbove(128676, 12336250135201455451, 298713, 15420312669001819314, 2, 0x4);
    SquareAbove(128677, 15420312669001819314, 298715, 12890407210054624098, 64, 0x10000000000000000);
    FiveAbove(257354, 12890407210054624098, 597494, 16113009012568280123, 2, 0x4);
    SquareAbove(257355, 16113009012568280123, 597496, 14074519514212378024, 64, 0x10000000000000000);
    FiveAbove(514710, 14074519514212378024, 1195056, 17593149392765472530, 2, 0x4);
    SquareAbove(514711, 17593149392765472530, 1195058, 16779053491466440117, 64, 0x10000000000000000);
    SquareAbove(1029422, 16779053491466440117, 2390180, 15262131623040210012, 64, 0x10000000000000000);
    FiveAbove(2058844, 15262131623040210012, 4780424, 9538832264400131258, 3, 0x8);
  }

  lemma TenBelow4()
    ensures AtMostFive(527064370, 13199415580404663891, 1223805505)
  {
    TenBelow3();
    hide AtMostFive, Pow;
    Shifts();
    SquareAbove(2058845, 9538832264400131258, 4780427, 9865081946687778844, 63, 0x8000000000000000);
    SquareAbove(4117690, 9865081946687778844, 9560917, 10551438392162241731, 63, 0x8000000000000000);
    SquareAbove(8235380, 10551438392162241731, 19121897, 12070732016309348753, 63, 0x8000000000000000);
    FiveAbove(16470760, 12070732016309348753, 38243857, 15088415020386685942, 2, 0x4);
    SquareAbove(16470761, 15088415020386685942, 38243859, 12341487848356599993, 64, 0x10000000000000000);
    FiveAbove(32941522, 12341487848356599993, 76487782, 15426859810445749992, 2, 0x4);
    SquareAbove(32941523, 15426859810445749992, 76487784, 12901355527034643634, 64, 0x10000000000000000);
    SquareAbove(65883046, 12901355527034643634, 152975632, 18046000288166415988, 63, 0x8000000000000000);
    SquareAbove(131766092, 18046000288166415988, 305951327, 17653962406549183729, 64, 0x10000000000000000);
    FiveAbove(263532184, 17653962406549183729, 611902718, 11033726504093239831, 3, 0x8);
    SquareAbove(263532185, 11033726504093239831, 611902721, 13199415580404663891, 63, 0x8000000000000000);
  }

  lemma TenBelow5()
    ensures AtMostFive(1054128743, 18446744052608785309, 2447611080)
  {
    TenBelow4();
    hide AtMostFive, Pow;
    Shifts();
    FiveAbove(527064370, 13199415580404663891, 1223805505, 16499269475505829864, 2, 0x4);
    SquareAbove(527064371, 16499269475505829864, 1223805507, 14757395242087028247, 64, 0x10000000000000000);
    FiveAbove(1054128742, 14757395242087028247, 2447611078, 18446744052608785309, 2, 0x4);
  }

  // The two powers of ten.

  lemma TenToAbove()
    ensures Pow(2, ABOVE_DEN) < Pow(10, ABOVE_NUM)
  {
    hide AtLeastFive, Pow;
    TenAbove4();
    AboveTen(ABOVE_NUM, 9223372037098434993, 1344399074, ABOVE_DEN);
  }

  lemma AboveTen(k: nat, m: nat, e: nat, n: nat)
    requires AtLeastFive(k, m, e) && n == e + k + 63 && m > 9223372036854775808
    ensures Pow(2, n) < Pow(10, k)
  {
    hide Pow;
    Shifts();
    PowOfProduct(2, 5, k);
    PowAdd(2, k, e);
    PowAdd(2, 63, e + k);
    ScaledAbove(Pow(2, k), Pow(5, k), Pow(2, e), m, 9223372036854775808);
  }

  lemma ScaledAbove(t: nat, f: nat, x: nat, m: nat, h: nat)
    requires f >= m * x && m > h && x > 0 && t > 0
    ensures h * (t * x) < t * f
  {
    MulLe(t, t, m * x, f);
    Assoc(t, m, x);
    Assoc(m, t, x);
    assert t * (m * x) == m * (t * x);
    MulLt(h, m, t * x);
  }

  lemma TenToBelow()
    ensures Pow(10, BELOW_NUM) < Pow(2, BELOW_DEN)
  {
    hide AtMostFive, Pow;
    TenBelow5();
    BelowTen(BELOW_NUM, 18446744052608785309, 2447611080, BELOW_DEN);
  }

  lemma BelowTen(k: nat, m: nat, e: nat, n: nat)
    requires AtMostFive(k, m, e) && n == e + k + 64 && m < 18446744073709551616
    ensures Pow(10, k) < Pow(2, n)
  {
    hide Pow;
    Shifts();
    PowOfProduct(2, 5, k);
    PowAdd(2, k, e);
    PowAdd(2, 64, e + k);
    ScaledBelow(Pow(2, k), Pow(5, k), Pow(2, e), m, 18446744073709551616);
  }

  lemma ScaledBelow(t: nat, f: nat, x: nat, m: nat, h: nat)
    requires f <= m * x && m < h && x > 0 && t > 0
    ensures t * f < h * (t * x)
  {
    MulLe(t, t, f, m * x);
    Assoc(t, m, x);
    Assoc(m, t, x);
    assert t * (m * x) == m * (t * x);
    MulLt(m, h, t * x);
  }

  // Comparing through the fractions.

  lemma {:induction false} PowBaseStrict(a: nat, b: nat, e: nat)
    requires a < b && e > 0
    ensures Pow(a, e) < Pow(b, e)
    decreases e
  {
    if e > 1 {
      PowBaseStrict(a, b, e - 1);
      MulLe(a, b - 1, Pow(a, e - 1), Pow(b, e - 1));
      MulLt(b - 1, b, Pow(b, e - 1));
    } else {
      PowOne(a);
      PowOne(b);
    }
  }

  lemma Roots(a: nat, b: nat, e: nat)
    requires e > 0 && Pow(a, e) <= Pow(b, e)
    ensures a <= b
  {
    if a > b {
      PowBaseStrict(b, a, e);
    }
  }

  lemma StrictRoots(a: nat, b: nat, e: nat)
    requires e > 0 && Pow(a, e) < Pow(b, e)
    ensures a < b
  {
    if a >= b {
      PowBaseMono(b, a, e);
    }
  }

  lemma PowMulIs(b: nat, x: nat, y: nat, xy: nat)
    requires xy == x * y
    ensures Pow(Pow(b, x), y) == Pow(b, xy)
  {
    PowMul(b, x, y);
  }

  /** b^a is at most c^d when a/d is at most x/y and b^x at most c^y. */
  lemma AtMostThrough(b: nat, a: nat, c: nat, d: nat, x: nat, y: nat, ay: nat, xd: nat, dy: nat)
    requires b > 0 && y > 0 && Pow(b, x) <= Pow(c, y)
    requires ay == a * y && xd == x * d && dy == d * y && dy == y * d && ay <= xd
    ensures Pow(b, a) <= Pow(c, d)
  {
    hide *;
    PowMulIs(b, a, y, ay);
    PowMulIs(c, d, y, dy);
    PowMulIs(b, x, d, xd);
    PowMulIs(c, y, d, dy);
    PowMono(b, ay, xd);
    PowBaseMono(Pow(b, x), Pow(c, y), d);
    Roots(Pow(b, a), Pow(c, d), y);
  }

  /** c^d is below b^a when a/d is at least x/y and c^y below b^x. */
  lemma BelowThrough(c: nat, d: nat, b: nat, a: nat, x: nat, y: nat, ay: nat, xd: nat, dy: nat)
    requires b > 0 && y > 0 && d > 0 && Pow(c, y) < Pow(b, x)
    requires ay == a * y && xd == x * d && dy == d * y && dy == y * d && xd <= ay
    ensures Pow(c, d) < Pow(b, a)
  {
    hide *;
    PowMulIs(b, a, y, ay);
    PowMulIs(c, d, y, dy);
    PowMulIs(b, x, d, xd);
    PowMulIs(c, y, d, dy);
    PowMono(b, xd, ay);
    PowBaseStrict(Pow(c, y), Pow(b, x), d);
    StrictRoots(Pow(c, d), Pow(b, a), y);
  }

  /** The digit count of 2^p is exact for every 32-bit p. */
  lemma DigitsExact(p: nat)
    requires p < 0x1_0000_0000
    ensures Pow(10, Pow2Digits(p) - 1) <= Pow(2, p) < Pow(10, Pow2Digits(p))
  {
    hide Pow;
    var d := Pow2Digits(p);
    if p == 0 {
      PowZero(10);
      PowZero(2);
      PowOne(10);
    } else {
      Pow2DigitsCeiling(p);
      LowerSide(d - 1, p);
      UpperSide(d, p);
      TenToBelow();
      TenToAbove();
      AtMostThrough(10, d - 1, 2, p, BELOW_NUM, BELOW_DEN, (d - 1) * BELOW_DEN, BELOW_NUM * p, p * BELOW_DEN);
      BelowThrough(2, p, 10, d, ABOVE_NUM, ABOVE_DEN, d * ABOVE_DEN, ABOVE_NUM * p, p * ABOVE_DEN);
    }
  }

  /** The digits a literal is written with: the fewest n for which the decimals of n
      digits are finer than the values of p bits, 10^(n-1) being above 2^p. */
  lemma FewestDigits(p: nat, n: nat)
    requires p < 0x1_0000_0000 && n > 0
    ensures Pow(10, n - 1) > Pow(2, p) <==> n >= BigFloatDigits(p)
  {
    hide Pow;
    DigitsExact(p);
    var d := Pow2Digits(p);
    if n >= d + 1 {
      PowMono(10, d, n - 1);
    } else {
      PowMono(10, n - 1, d - 1);
    }
  }
}
