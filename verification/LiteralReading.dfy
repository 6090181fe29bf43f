/** What any literal is read as: the number it is spelled as, to the nearest float of
    its precision but for the rounding of the power of five. */
module LiteralReading {
  import opened Powers
  import opened Decimals
  import opened Reals
  import opened Floats
  import opened PowerOfFive
  import opened PowerOfFiveBound
  import opened PowTwoDigits
  import opened ReadBack
  import opened Literals
  import opened LiteralSpelling
  import opened BigUintText
  import opened BigFloats

  /** The number spelled, without its sign. */
  ghost function Denoted(s: Spelling): real
    requires Proper(s)
  {
    DecVal(s.whole + s.fraction) as real * Exp(10, Power(s.exponent) - |s.fraction|)
  }

  // A finite conversion is close to the decimal.

  lemma {:induction false} FiniteProduct(x: Fl, y: Fl, prec: nat)
    requires x.Finite? && y.Finite? && x.mant > 0 && y.mant > 0 && prec > 0 && Mul(x, y, prec).Finite?
    ensures RoundsTo(Val(x) * Val(y), Mul(x, y, prec), prec)
  {
    hide RoundsTo, RoundInto, BitLen, V;
    var product := x.mant * y.mant;
    FiniteInRange(product, x.exp + y.exp - x.prec - y.prec + BitLen(product), prec, false);
    MulNearest(x, y, prec);
  }

  lemma {:induction false} FiniteQuotient(x: Fl, y: Fl, prec: nat)
    requires x.Finite? && y.Finite? && x.mant > 0 && y.mant > 0 && prec > 0 && Quo(x, y, prec).Finite?
    ensures RoundsTo(Val(x) / Val(y), Quo(x, y, prec), prec)
  {
    hide RoundsTo, RoundInto, BitLen, V, QuoNum, QuoDen;
    var s := QuoShift(x.mant, y.mant, prec);
    var num, den := QuoNum(x.mant, s), QuoDen(y.mant, s);
    FiniteInRange(Quot(num, den), QuoExp(x, y, prec), prec, num % den != 0);
    QuoNearest(x, y, prec);
  }

  lemma {:induction false} FiniteWhole(d: nat, prec: nat)
    requires d > 0 && prec > 0 && RoundInto(d, BitLen(d), prec, false).Finite?
    ensures RoundsTo(d as real, RoundInto(d, BitLen(d), prec, false), prec)
  {
    hide Exp, BitLen, RoundsTo, RoundInto, Carries;
    UnitScale(d);
    UnitTimes(d);
    FiniteInRange(d, BitLen(d), prec, false);
    RoundIntoNearest(d, BitLen(d), prec, false, d as real, 0.0);
  }

  /** A result is finite only through a finite power of five. */
  lemma {:induction false} FiniteOperands(d: nat, exp5: int, prec: nat)
    requires d > 0 && prec > 0 && FromDecimal(d, exp5, prec).Finite?
    ensures exp5 != 0 ==> Pow5(if exp5 < 0 then -exp5 else exp5, prec + 64).Finite?
  {
    hide RoundInto, Pow5, BitLen, QuoNum, QuoDen;
  }

  lemma {:induction false} PowerClose(exp5: int, prec: nat)
    requires -(Pow(2, 40) as int) < exp5 < Pow(2, 40)
    requires exp5 != 0 ==> Pow5(if exp5 < 0 then -exp5 else exp5, prec + 64).Finite?
    ensures var n := if exp5 < 0 then -exp5 else exp5;
            Pow5(n, prec + 64).Finite? && Normalized(Pow5(n, prec + 64))
            && CloseTo(Val(Pow5(n, prec + 64)), Pow(5, n) as real, 128.0 * Eps(prec + 64))
  {
    hide V, Eps, Pow, Pow5, CloseTo, InBits, Exp;
    var n := if exp5 < 0 then -exp5 else exp5;
    if n == 0 {
      PowerOfFive.Pow5Exact(0, prec + 64);
    }
    Pow5CloseFinite(n, prec + 64);
  }

  /** The value rounded at the end is within 256 fine units of the decimal's. */
  lemma {:induction false} FiniteClose(d: nat, exp5: int, prec: nat)
    requires d > 0 && BitLen(d) < ReadBack.TWO32 && -(Pow(2, 40) as int) < exp5 < Pow(2, 40)
    requires exp5 != 0 ==> Pow5(if exp5 < 0 then -exp5 else exp5, prec + 64).Finite?
    ensures Normalized(Pow5(if exp5 < 0 then -exp5 else exp5, prec + 64))
    ensures CloseTo(Computed(d, exp5, prec), DecimalValue(d, exp5), 256.0 * Eps(prec + 64))
  {
    hide *;
    var n := if exp5 < 0 then -exp5 else exp5;
    PowerClose(exp5, prec);
    FineDelta(prec);
    ExactValue(d, exp5);
    var five, p, v := Pow(5, n) as real, Val(Pow5(n, prec + 64)), V(d, exp5);
    ComputedForm(d, exp5, prec);
    DecimalForm(d, exp5, n);
    if exp5 == 0 {
      Positive(256.0 * Eps(prec + 64), d as real);
      CloseToItself(d as real, 256.0 * Eps(prec + 64));
    } else {
      PositiveParts(d, exp5, n);
      if exp5 > 0 {
        CloseProduct(v, five, p, Computed(d, exp5, prec), DecimalValue(d, exp5), 128.0 * Eps(prec + 64));
      } else {
        CloseQuotient(v, five, p, Computed(d, exp5, prec), DecimalValue(d, exp5), 128.0 * Eps(prec + 64));
      }
    }
  }

  lemma {:induction false} PositiveParts(d: nat, exp5: int, n: nat)
    requires d > 0
    ensures V(d, exp5) > 0.0 && Pow(5, n) as real > 0.0 && DecimalValue(d, exp5) > 0.0
  {
    hide Exp;
    Positive(d as real, Exp(2, exp5));
  }

  lemma {:induction false} FineDelta(prec: nat)
    ensures 0.0 < 128.0 * Eps(prec + 64) <= 0.25 && 2.0 * (128.0 * Eps(prec + 64)) == 256.0 * Eps(prec + 64)
    ensures 256.0 * Eps(prec + 64) <= Eps(prec) / 10000000000000000.0
  {
    hide Exp;
    ExpMono(2, -(prec + 64), -9);
    ExpNeg(2, 9);
    ExpNat(2, 9);
    assert Pow(2, 9) == 512;
    FineEps(prec);
  }

  lemma {:induction false} FiniteRounds(d: nat, exp5: int, prec: nat)
    requires d > 0 && BitLen(d) < ReadBack.TWO32 && prec > 0 && FromDecimal(d, exp5, prec).Finite?
    requires Normalized(Pow5(if exp5 < 0 then -exp5 else exp5, prec + 64))
    ensures RoundsTo(Computed(d, exp5, prec), FromDecimal(d, exp5, prec), prec)
  {
    hide V, Exp, Pow5, BitLen, RoundsTo, Mul, Quo, RoundInto, ExactDecimal, Pow;
    ExactValue(d, exp5);
    if exp5 == 0 {
      FiniteWhole(d, prec);
    } else if exp5 > 0 {
      var x, p := ExactDecimal(d, exp5), Pow5(exp5, prec + 64);
      SameReal(Computed(d, exp5, prec), Val(x) * Val(p), FromDecimal(d, exp5, prec), prec);
      FiniteProduct(x, p, prec);
    } else {
      FiniteQuotient(ExactDecimal(d, exp5), Pow5(-exp5, prec + 64), prec);
    }
  }

  /** At most one unit of roundoff, and a part in 2^40 of one. */
  ghost predicate ReadAs(w: real, v: real, p: nat) {
    Abs(v - w) <= Eps(p) * w * (1.0 + Eps(40))
  }

  lemma {:induction false} DecimalRead(d: nat, exp5: int, prec: nat)
    requires d > 0 && BitLen(d) < ReadBack.TWO32 && prec > 0 && FromDecimal(d, exp5, prec).Finite?
    requires -(Pow(2, 40) as int) < exp5 < Pow(2, 40)
    ensures var f := FromDecimal(d, exp5, prec);
            Normalized(f) && f.prec == prec && ReadAs(DecimalValue(d, exp5), Val(f), prec)
  {
    hide *;
    var f := FromDecimal(d, exp5, prec);
    FiniteOperands(d, exp5, prec);
    FiniteClose(d, exp5, prec);
    FiniteRounds(d, exp5, prec);
    FiniteRound(Computed(d, exp5, prec), f, prec);
    WithinIs(Computed(d, exp5, prec), Val(f), prec);
    EpsSmall(prec);
    PositiveParts(d, exp5, 0);
    FineDelta(prec);
    FortyPositive();
    TwoErrors(DecimalValue(d, exp5), Computed(d, exp5, prec), Val(f), Eps(prec), 256.0 * Eps(prec + 64), Eps(40));
    ReadAsIs(DecimalValue(d, exp5), Computed(d, exp5, prec), Val(f), prec);
  }

  lemma {:induction false} WithinIs(y: real, v: real, p: nat)
    requires Within(y, v, p)
    ensures Abs(y - v) <= Eps(p) * y
  {}

  lemma {:induction false} FortyPositive()
    ensures 1.0 / 1099511627776.0 <= Eps(40) <= 1.0
  {
    hide Exp;
    ExpNeg(2, 40);
    ExpNat(2, 40);
    TwoTo40();
    hide Pow;
  }

  lemma {:induction false} TwoErrors(w: real, y: real, v: real, u: real, delta: real, e: real)
    requires w > 0.0 && CloseTo(y, w, delta) && Abs(y - v) <= u * y
    requires 0.0 < u <= 1.0 && 0.0 < delta <= u / 10000000000000000.0 && 1.0 / 1099511627776.0 <= e <= 1.0
    ensures Abs(v - w) <= u * w * (1.0 + e)
  {
    var uw, dw := u * w, delta * w;
    ScaleLe(w, delta, u / 10000000000000000.0, dw, w * (u / 10000000000000000.0));
    assert w * (u / 10000000000000000.0) == uw / 10000000000000000.0;
    Positive(u, w);
    Positive(delta, w);
    ScaleLe(u, y, w + dw, u * y, u * (w + dw));
    assert u * (w + dw) == uw + u * dw;
    ScaleLe(dw, u, 1.0, u * dw, dw);
    ScaleLe(uw, 1.0 / 1099511627776.0, e, uw * (1.0 / 1099511627776.0), uw * e);
    assert uw * (1.0 + e) == uw + uw * e;
    ErrorsAdd(y, v, w, uw, dw, u * y, uw * e);
  }

  lemma {:induction false} ErrorsAdd(y: real, v: real, w: real, uw: real, dw: real, uy: real, slack: real)
    requires Abs(y - v) <= uy && w - dw <= y <= w + dw && uy <= uw + dw
    requires dw <= uw / 10000000000000000.0 && slack >= uw / 1099511627776.0 && uw > 0.0
    ensures Abs(v - w) <= uw + slack
  {}

  lemma {:induction false} ReadAsIs(w: real, y: real, v: real, p: nat)
    requires Abs(v - w) <= Eps(p) * w * (1.0 + Eps(40))
    ensures ReadAs(w, v, p)
  {}

  // The theorem.

  /** The precision a literal is read at: its suffix, or 256. */
  function Precision(suffix: string): nat
    requires AllDigits(suffix)
  {
    if suffix == "" then 256 else DecVal(suffix)
  }

  /** What a message denotes, without its sign. */
  ghost function MessageValue(x: BigFloatLit): real {
    BytesVal(x.mantissa) as real * Exp(2, x.exponent)
  }

  lemma {:induction false} PrecisionRead(suffix: string, maxDigits: nat)
    requires AllDigits(suffix) && ReadPrec(suffix, maxDigits).Ok?
    ensures ReadPrec(suffix, maxDigits).value == Precision(suffix) > 0
  {
    hide DecVal, BigFloatDigits;
  }

  lemma {:induction false} DigitBits(s: string)
    requires AllDigits(s) && |s| <= 0x1000_0000
    ensures BitLen(DecVal(s)) < ReadBack.TWO32
  {
    hide DecVal, Pow;
    DecBound(s);
    var d := DecVal(s);
    if d > 0 {
      PowBaseMono(10, 16, |s|);
      SixteenBits(|s|);
      BitLenBounds(d);
      if BitLen(d) > 4 * |s| + 1 {
        PowMono(2, 4 * |s|, BitLen(d) - 1);
      }
    }
  }

  lemma {:induction false} SixteenBits(n: nat)
    ensures Pow(16, n) == Pow(2, 4 * n)
  {
    assert Pow(2, 4) == 16;
    PowMul(2, 4, n);
  }

  lemma {:induction false} NonZeroAt(t: string, k: nat)
    requires k < |t| && '1' <= t[k] <= '9' && forall j :: 0 <= j < k ==> t[j] != 'e' && t[j] != 'E'
    ensures HasNonZeroDigit(t)
    decreases k
  {
    if k > 0 {
      NonZeroAt(t[1..], k - 1);
    }
  }

  lemma {:induction false} NonZeroDigit(s: string) returns (k: nat)
    requires AllDigits(s) && DecVal(s) > 0
    ensures k < |s| && '1' <= s[k] <= '9'
    decreases |s|
  {
    if s[|s| - 1] == '0' {
      k := NonZeroDigit(s[..|s| - 1]);
    } else {
      k := |s| - 1;
    }
  }

  lemma {:induction false} MantissaDigit(s: Spelling) returns (k: nat)
    requires Proper(s) && DecVal(s.whole + s.fraction) > 0
    ensures var m := MantissaSpelled(s);
            k < |m| && '1' <= m[k] <= '9' && forall j :: 0 <= j < |m| ==> m[j] != 'e' && m[j] != 'E'
  {
    hide DecVal;
    k := NonZeroDigit(s.whole + s.fraction);
    var m := MantissaSpelled(s);
    assert forall j :: 0 <= j < |m| ==> m[j] == '.' || IsDigit(m[j]);
    if k < |s.whole| {
      assert m[k] == s.whole[k];
    } else {
      assert s.point && m[k + 1] == s.fraction[k - |s.whole|];
      k := k + 1;
    }
  }

  /** Any digit of the mantissa that is not zero is noticed. */
  lemma {:induction false} NonZeroSeen(s: Spelling)
    requires Proper(s) && DecVal(s.whole + s.fraction) > 0
    ensures HasNonZeroDigit(Unsigned(Spelled(s)))
  {
    hide HasNonZeroDigit, DecVal, ExponentSpelled, MantissaSpelled, Unsigned, Spelled;
    SignRead(s);
    var k := MantissaDigit(s);
    var m, e := MantissaSpelled(s), ExponentSpelled(s.exponent);
    assert forall j :: 0 <= j < |m| ==> (m + e)[j] == m[j];
    NonZeroAt(m + e, k);
  }

  /** What the last step makes of a rounded value. */
  lemma {:induction false} EmitRead(value: Fl, l: Literal, body: string, suffixed: bool, prec: nat, maxExponent: nat, w: real)
    requires Emit(value, l, body, suffixed, prec, maxExponent).Ok?
    requires value.Finite? ==> Normalized(value) && value.prec == prec && ReadAs(w, Val(value), prec)
    requires value.Zero? ==> HasNonZeroDigit(body)
    ensures var x := Emit(value, l, body, suffixed, prec, maxExponent).value;
            && x.negative == l.negative && x.prec == prec && InBits(BytesVal(x.mantissa), prec)
            && -(maxExponent as int) <= x.exponent + x.prec <= maxExponent
            && ReadAs(w, MessageValue(x), prec)
  {
    hide HasNonZeroDigit, ToBytes, BytesVal, Exp, InBits, ReadAs;
    if value.Finite? {
      var x := Emit(value, l, body, suffixed, prec, maxExponent).value;
      assert BytesVal(x.mantissa) == value.mant && x.exponent == value.exp - value.prec;
      assert MessageValue(x) == Val(value);
    }
  }

  /** Any literal, of any digits and any spelling of its exponent: when it is accepted,
      the message has its sign, its precision, an exponent within the limit, and its
      number to within a unit of roundoff. */
  lemma {:induction false} ReadsAsSpelled(s: Spelling, suffix: string, maxDigits: nat, maxExponent: nat)
    requires Proper(s) && AllDigits(suffix) && |s.whole| + |s.fraction| <= 0x1000_0000
    ensures AllDigits(s.whole + s.fraction)
    ensures var r := Parse(Spelled(s), suffix, maxDigits, maxExponent);
            r.Ok? ==>
              var d, x := DecVal(s.whole + s.fraction), r.value;
              && x.negative == s.negative
              && (d == 0 ==> x.mantissa == [] && x.exponent == 0 && x.prec == if suffix == "" then 0 else DecVal(suffix))
              && (d > 0 ==>
                    && x.prec == Precision(suffix) && InBits(BytesVal(x.mantissa), x.prec)
                    && -(maxExponent as int) <= x.exponent + x.prec <= maxExponent
                    && ReadAs(Denoted(s), MessageValue(x), x.prec))
  {
    hide Spelled, DecVal, ReadPrec, FromDecimal, BitLen, V, Exp, InBits, ReadAs, HasNonZeroDigit, Unsigned, ToBytes, BytesVal, Split;
    var r := Parse(Spelled(s), suffix, maxDigits, maxExponent);
    var digits := s.whole + s.fraction;
    SplitSpelled(s, maxDigits);
    if r.Ok? {
      PrecisionRead(suffix, maxDigits);
      var d, exp5, prec := DecVal(digits), Power(s.exponent) - |s.fraction|, Precision(suffix);
      if d > 0 {
        hide Emit, MessageValue, Convert;
        NonZeroRead(s, prec, suffix != [], maxExponent);
      }
    }
  }

  function PartsOf(s: Spelling): (l: Literal)
    requires Proper(s)
    ensures AllDigits(l.digits)
  {
    Literal(s.negative, s.whole + s.fraction, |s.fraction|, Power(s.exponent))
  }

  lemma {:induction false} NonZeroRead(s: Spelling, prec: nat, suffixed: bool, maxExponent: nat)
    requires Proper(s) && |s.whole| + |s.fraction| <= 0x1000_0000 && DecVal(PartsOf(s).digits) > 0 && prec > 0
    requires Convert(PartsOf(s), prec).Ok?
    requires Emit(Convert(PartsOf(s), prec).value, PartsOf(s), Unsigned(Spelled(s)), suffixed, prec, maxExponent).Ok?
    ensures var x := Emit(Convert(PartsOf(s), prec).value, PartsOf(s), Unsigned(Spelled(s)), suffixed, prec, maxExponent).value;
            && x.negative == s.negative && x.prec == prec && InBits(BytesVal(x.mantissa), prec)
            && -(maxExponent as int) <= x.exponent + x.prec <= maxExponent
            && ReadAs(Denoted(s), MessageValue(x), prec)
  {
    hide *;
    var l := PartsOf(s);
    var value := Convert(l, prec).value;
    PartsAre(s);
    DigitBits(l.digits);
    Converted(l, prec);
    ExponentBounds(DecVal(l.digits), l.exp10 - l.places);
    if value.Finite? {
      DecimalRead(DecVal(l.digits), l.exp10 - l.places, prec);
    }
    NonZeroSeen(s);
    EmitRead(value, l, Unsigned(Spelled(s)), suffixed, prec, maxExponent, Denoted(s));
  }

  lemma {:induction false} PartsAre(s: Spelling)
    requires Proper(s)
    ensures var l := PartsOf(s);
            && l.negative == s.negative && l.digits == s.whole + s.fraction && |l.digits| == |s.whole| + |s.fraction|
            && AllDigits(s.whole + s.fraction)
            && Denoted(s) == DecimalValue(DecVal(l.digits), l.exp10 - l.places)
  {
    hide DecVal, Exp, Power;
  }

  lemma {:induction false} DenotedIs(s: Spelling)
    requires Proper(s)
    ensures AllDigits(s.whole + s.fraction)
    ensures Denoted(s) == DecimalValue(DecVal(s.whole + s.fraction), Power(s.exponent) - |s.fraction|)
  {
    hide DecVal, Exp, Power;
  }

  lemma {:induction false} Converted(l: Literal, prec: nat)
    requires AllDigits(l.digits) && DecVal(l.digits) > 0 && Convert(l, prec).Ok?
    ensures Convert(l, prec).value == FromDecimal(DecVal(l.digits), l.exp10 - l.places, prec)
    ensures MIN_EXP <= BitLen(DecVal(l.digits)) + (l.exp10 - l.places) <= MAX_EXP
  {
    hide FromDecimal, BitLen, DecVal;
  }

  lemma {:induction false} ExponentBounds(d: nat, exp5: int)
    requires BitLen(d) < ReadBack.TWO32 && MIN_EXP <= BitLen(d) + exp5 <= MAX_EXP
    ensures -(Pow(2, 40) as int) < exp5 < Pow(2, 40)
  {
    TwoTo40();
  }

  // Which literals are accepted.

  /** The number lies well within the exponents a message can have. */
  ghost predicate Representable(w: real) {
    Exp(2, -16380) <= w < Exp(2, 16380)
  }

  lemma {:induction false} ExponentSmall(d: nat, exp5: int, n: nat)
    requires d > 0 && d < Pow(10, n) && n <= 4096 && Representable(DecimalValue(d, exp5))
    ensures -(Pow(2, 20) as int) < exp5 < Pow(2, 20)
  {
    hide Exp, Pow;
    TwoTo20();
    var w := DecimalValue(d, exp5);
    assert w == Exp(10, exp5) * d as real;
    TensAboveTwos(exp5);
    if exp5 >= Pow(2, 20) {
      ExpMono(2, 16380, exp5);
      assert Exp(10, exp5) > 0.0;
      ScaleLe(Exp(10, exp5), 1.0, d as real, Exp(10, exp5), w);
    }
    if exp5 <= -(Pow(2, 20) as int) {
      ExpNat(10, n);
      ScaleLess(Exp(10, exp5), d as real, Exp(10, n), w, Exp(10, exp5) * Exp(10, n));
      ExpAdd(10, exp5, n);
      TensAboveTwos(exp5 + n);
      ExpMono(2, exp5 + n, -16380);
    }
  }

  /** Powers of ten are further from one than those of two. */
  lemma {:induction false} TensAboveTwos(e: int)
    ensures e >= 0 ==> Exp(10, e) >= Exp(2, e)
    ensures e <= 0 ==> Exp(10, e) <= Exp(2, e)
    decreases if e < 0 then -e else e
  {
    hide Exp;
    var n: nat := if e < 0 then -e else e;
    ExpNat(10, n);
    ExpNat(2, n);
    PowBaseMono(2, 10, n);
    if e < 0 {
      ExpNeg(10, n);
      ExpNeg(2, n);
      Reciprocals(Exp(10, n), Exp(10, e), Exp(2, n), Exp(2, e));
    }
  }

  lemma {:induction false} Reciprocals(a: real, x: real, b: real, y: real)
    requires a * x == 1.0 && b * y == 1.0 && a >= b > 0.0 && x > 0.0 && y > 0.0
    ensures x <= y
  {
    if x > y {
      ScaleLess(b, y, x, 1.0, b * x);
      ScaleLe(x, b, a, b * x, 1.0);
    }
  }

  /** Rounding moves a number by at most half, and its exponent little. */
  lemma {:induction false} RoundedExponent(y: real, w: real, f: Fl, p: nat)
    requires Representable(w) && 0.5 * w <= y <= 2.0 * w && p > 0 && f.Finite? && RoundsTo(y, f, p)
    ensures -16384 <= f.exp <= 16384 && f.prec == p
  {
    hide Exp, V, RoundsTo, InBits;
    FiniteRound(y, f, p);
    WithinIs(y, Val(f), p);
    EpsSmall(p);
    ScaleLe(y, Eps(p), 0.5, y * Eps(p), y * 0.5);
    FloatFacts(f.mant, f.exp - p, p);
    ExpStep(2, 16380);
    ExpStep(2, 16381);
    ExpStep(2, -16381);
    ExpStep(2, -16382);
    assert 0.25 * w <= Val(f) <= 4.0 * w;
    ExpOrder(f.exp - 1, 16382);
    ExpOrder(-16382, f.exp);
  }

  lemma {:induction false} CloseHalf(y: real, w: real, delta: real)
    requires w > 0.0 && 0.0 < delta <= 0.5 && CloseTo(y, w, delta)
    ensures 0.5 * w <= y <= 2.0 * w
  {
    ScaleLe(w, delta, 0.5, w * delta, w * 0.5);
  }

  lemma {:induction false} RangeInside(y: real, w: real)
    requires Representable(w) && 0.5 * w <= y <= 2.0 * w
    ensures WellInRange(y)
  {
    hide Exp;
    ExpStep(2, 16380);
    ExpStep(2, -16381);
    ExpMono(2, -0x4000_0000, -16381);
    ExpMono(2, 16381, 0x4000_0000);
  }

  lemma {:induction false} ConvertsInRange(d: nat, exp5: int, n: nat, prec: nat)
    requires d > 0 && d < Pow(10, n) && n <= 4096 && prec > 0 && BitLen(d) < ReadBack.TWO32 && Representable(DecimalValue(d, exp5))
    ensures var f := FromDecimal(d, exp5, prec);
            f.Finite? && f.prec == prec && -16384 <= f.exp <= 16384
    ensures -(Pow(2, 20) as int) < exp5 < Pow(2, 20)
  {
    hide *;
    ExponentSmall(d, exp5, n);
    ComputedClose(d, exp5, prec);
    SmallDelta(prec);
    PositiveParts(d, exp5, 0);
    var y, w := Computed(d, exp5, prec), DecimalValue(d, exp5);
    CloseHalf(y, w, 128.0 * Eps(prec + 64));
    RangeInside(y, w);
    FromDecimalRounds(d, exp5, prec);
    RoundedExponent(y, w, FromDecimal(d, exp5, prec), prec);
  }

  lemma {:induction false} ShortBits(s: string)
    requires AllDigits(s) && |s| <= 4096
    ensures BitLen(DecVal(s)) <= 16385 && DecVal(s) < Pow(10, |s|)
  {
    hide DecVal, Pow;
    DecBound(s);
    var d := DecVal(s);
    if d > 0 {
      PowBaseMono(10, 16, |s|);
      SixteenBits(|s|);
      BitLenBounds(d);
      if BitLen(d) > 4 * |s| + 1 {
        PowMono(2, 4 * |s|, BitLen(d) - 1);
      }
    }
  }

  /** A literal within the constant limits is accepted when its number is zero or well
      within the exponents a message can have. */
  lemma {:induction false} AcceptsInRange(s: Spelling, suffix: string)
    requires Proper(s) && |s.whole| + |s.fraction| <= MAX_NUMERIC_LITERAL_DIGITS && PowerFits(s.exponent)
    requires AllDigits(suffix) && (suffix != "" ==> 0 < DecVal(suffix) && BigFloatDigits(DecVal(suffix)) <= MAX_NUMERIC_LITERAL_DIGITS)
    requires AllDigits(s.whole + s.fraction) && (DecVal(s.whole + s.fraction) > 0 ==> Representable(Denoted(s)))
    ensures Parse(Spelled(s), suffix, MAX_NUMERIC_LITERAL_DIGITS, MAX_BIG_FLOAT_EXPONENT).Ok?
  {
    hide Spelled, DecVal, FromDecimal, BitLen, BigFloatDigits, HasNonZeroDigit, Unsigned, Split, Representable, Denoted, Pow, Exp;
    SplitSpelled(s, MAX_NUMERIC_LITERAL_DIGITS);
    SuffixInRange(suffix);
    var digits := s.whole + s.fraction;
    var d, exp5 := DecVal(digits), Power(s.exponent) - |s.fraction|;
    if d == 0 {
      ZeroUnseen(s);
    } else {
      ShortBits(digits);
      DenotedIs(s);
      ConvertsInRange(d, exp5, |digits|, Precision(suffix));
      TwoTo20();
    }
  }

  lemma {:induction false} SuffixInRange(suffix: string)
    requires AllDigits(suffix) && (suffix != "" ==> 0 < DecVal(suffix) && BigFloatDigits(DecVal(suffix)) <= MAX_NUMERIC_LITERAL_DIGITS)
    ensures ReadPrec(suffix, MAX_NUMERIC_LITERAL_DIGITS) == Ok(Precision(suffix)) && 0 < Precision(suffix) <= 13603
  {
    hide DecVal, BigFloatDigits;
    if suffix != "" {
      DigitsBoundPrecision(DecVal(suffix));
    }
  }

  lemma {:induction false} AllZeros(s: string)
    requires AllDigits(s) && DecVal(s) == 0
    ensures forall k :: 0 <= k < |s| ==> s[k] == '0'
    decreases |s|
  {
    if s != "" {
      AllZeros(s[..|s| - 1]);
    }
  }

  lemma {:induction false} NothingSeen(t: string, k: nat)
    requires k <= |t| && (k < |t| ==> t[k] == 'e' || t[k] == 'E') && forall j :: 0 <= j < k ==> !('1' <= t[j] <= '9')
    ensures !HasNonZeroDigit(t)
    decreases k
  {
    if k > 0 {
      NothingSeen(t[1..], k - 1);
    }
  }

  lemma {:induction false} ZeroUnseen(s: Spelling)
    requires Proper(s) && DecVal(s.whole + s.fraction) == 0
    ensures !HasNonZeroDigit(Unsigned(Spelled(s)))
  {
    hide HasNonZeroDigit, DecVal, Unsigned, Spelled;
    SignRead(s);
    AllZeros(s.whole + s.fraction);
    MantissaZeros(s);
    var m, e := MantissaSpelled(s), ExponentSpelled(s.exponent);
    assert forall j :: 0 <= j < |m| ==> (m + e)[j] == m[j];
    if e != "" {
      assert (m + e)[|m|] == e[0];
    }
    NothingSeen(m + e, |m|);
  }

  lemma {:induction false} MantissaZeros(s: Spelling)
    requires Proper(s) && forall k :: 0 <= k < |s.whole + s.fraction| ==> (s.whole + s.fraction)[k] == '0'
    ensures forall j :: 0 <= j < |MantissaSpelled(s)| ==> !('1' <= MantissaSpelled(s)[j] <= '9')
  {
    var all := s.whole + s.fraction;
    assert forall k :: 0 <= k < |s.whole| ==> all[k] == s.whole[k];
    assert forall k :: 0 <= k < |s.fraction| ==> all[|s.whole| + k] == s.fraction[k];
  }

  lemma {:induction false} NoSuffixMark(s: Spelling)
    requires Proper(s)
    ensures forall j :: 0 <= j < |Spelled(s)| ==> Spelled(s)[j] != 'p'
  {
    hide DecVal;
    var m, e := MantissaSpelled(s), ExponentSpelled(s.exponent);
    assert forall j :: 0 <= j < |m| ==> m[j] == '.' || IsDigit(m[j]);
    if s.exponent.Some? {
      var x := s.exponent.value;
      assert forall j :: 0 <= j < |e| ==> e[j] in {'e', 'E', '+', '-'} || IsDigit(e[j]);
    }
    hide MantissaSpelled, ExponentSpelled;
  }

  /** A schema's literal: the suffix stands after a p in the string. */
  lemma {:induction false} DefaultSpelled(s: Spelling, suffix: string)
    requires Proper(s) && AllDigits(suffix)
    ensures ParseDefault(Spelled(s) + if suffix == "" then "" else "p" + suffix)
         == Parse(Spelled(s), suffix, MAX_NUMERIC_LITERAL_DIGITS, MAX_BIG_FLOAT_EXPONENT)
  {
    hide Parse, Spelled, IndexOf;
    NoSuffixMark(s);
    var t := Spelled(s) + if suffix == "" then "" else "p" + suffix;
    LiteralText.IndexIs(t, 'p', 'p', |Spelled(s)|);
    if suffix == "" {
      assert t == Spelled(s);
    } else {
      assert t[..|Spelled(s)|] == Spelled(s) && t[|Spelled(s)| + 1..] == suffix;
    }
  }
}
