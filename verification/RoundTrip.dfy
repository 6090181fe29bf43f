/** A printed BigFloat literal reads back as the message it was printed from. */
module RoundTrip {
  import opened Bytes
  import opened Powers
  import opened Reals
  import opened Decimals
  import opened BigUintText
  import opened Floats
  import opened PowerOfFiveBound
  import opened PowTwoDigits
  import opened ReadBack
  import opened DecimalRounding
  import opened Literals
  import opened LiteralText
  import opened BigFloats

  // Sizes.

  lemma FewDigits(n: nat, b: nat)
    requires 0 < n < Pow(2, b)
    ensures |ToDec(n)| <= b
  {
    hide ToDec, Pow;
    var len := |ToDec(n)|;
    ToDecLength(n);
    PowBaseMono(2, 10, len - 1);
    PowLtImpliesLt(2, len - 1, b);
  }

  lemma ExpansionDigits(m: nat, e: int, p: nat)
    requires InBits(m, p) && p <= 13603 && -30000 <= e <= 16400 && e + p <= 16400
    ensures |ToDec(Expansion(m, e))| <= 110000
  {
    hide ToDec, Pow;
    ExpansionValue(m, e);
    if e >= 0 {
      PowAdd(2, p, e);
      ProductBelow(m, Pow(2, p), Pow(2, e), Pow(2, p + e));
      FewDigits(Expansion(m, e), p + e);
    } else {
      var k: nat := -e;
      EightsAbove(k);
      PowAdd(2, p, 3 * k);
      ProductBelow(m, Pow(2, p), Pow(5, k), Pow(2, p) * Pow(5, k));
      MulLe(Pow(2, p), Pow(2, p), Pow(5, k), Pow(2, 3 * k));
      FewDigits(Expansion(m, e), p + 3 * k);
    }
  }

  lemma ProductBelow(m: nat, top: nat, f: nat, tf: nat)
    requires m < top && f > 0 && tf == top * f
    ensures m * f < tf
  {
    MulLt(m, top, f);
  }

  lemma EightsAbove(k: nat)
    ensures Pow(5, k) <= Pow(2, 3 * k)
  {
    assert Pow(2, 3) == 8;
    PowMul(2, 3, k);
    PowBaseMono(5, 8, k);
  }

  /** The point stands at a moderate place. */
  lemma PointBounds(m: nat, e: int, p: nat, digits: nat)
    requires InBits(m, p) && p <= 13603 && -30000 <= e <= 16400 && e + p <= 16400
    requires 0 < digits <= 4096
    ensures -30000 <= WrittenPoint(m, e, digits) <= 120000
  {
    hide ToDec, Significant, Pow;
    var n := Expansion(m, e);
    ExpansionValue(m, e);
    ExpansionDigits(m, e, p);
    SignificantLength(n, digits);
  }

  lemma SignificantLength(n: nat, digits: nat)
    requires n > 0 && digits > 0
    ensures |ToDec(Significant(n, digits))| + Excess(n, digits) <= |ToDec(n)| + 1
  {
    hide ToDec, Pow, Significant;
    var q := Significant(n, digits);
    SignificantRange(n, digits);
    if |ToDec(n)| > digits {
      TenBelow(q, digits);
    }
  }

  lemma TenBelow(q: nat, digits: nat)
    requires q <= Pow(10, digits)
    ensures |ToDec(q)| <= digits + 1
  {
    assert Pow(10, digits + 1) == 10 * Pow(10, digits);
    hide ToDec, Pow;
    ToDecFits(q, digits + 1);
  }

  /** What is read: no more digits than 4101, a small exponent. */
  lemma ReadSizes(d: string, dexp: int, digits: nat)
    requires Printable(d, digits) && digits <= 4096 && -30000 <= dexp <= 120000
    ensures PrintedDigits(d, dexp, digits) <= digits + 4
    ensures -200000 <= ReadExponent(d, dexp, digits) - |PrintedFraction(d, dexp, digits)| <= 200000
  {}

  lemma DigitsBits(s: string)
    requires AllDigits(s) && |s| <= 4100
    ensures BitLen(DecVal(s)) <= 16400
  {
    hide Pow;
    var n := DecVal(s);
    DecBound(s);
    if n == 0 {
      assert BitLen(0) == 0;
    } else {
      PowMono(10, |s|, 4100);
      PowBaseMono(10, 16, 4100);
      SixteenIs(4100);
      BitLenBounds(n);
      PowLtImpliesLt(2, BitLen(n) - 1, 16400);
    }
  }

  lemma SixteenIs(k: nat)
    ensures Pow(16, k) == Pow(2, 4 * k)
  {
    assert Pow(2, 4) == 16;
    PowMul(2, 4, k);
  }

  // From the printed digits back to the float.

  /** Trimmed digits keep their value, with the zeros in the exponent. */
  lemma {:induction false} TrimValue(s: string)
    requires AllDigits(s)
    ensures var t := TrimZeros(s);
            AllDigits(t) && DecVal(s) == DecVal(t) * Pow(10, |s| - |t|)
    decreases |s|
  {
    if s != [] && s[|s| - 1] == '0' {
      var r := s[..|s| - 1];
      TrimValue(r);
      Assoc(10, DecVal(TrimZeros(r)), Pow(10, |r| - |TrimZeros(r)|));
      Assoc(DecVal(TrimZeros(r)), 10, Pow(10, |r| - |TrimZeros(r)|));
    }
  }

  /** The written digits and point denote the rounded expansion. */
  lemma WrittenValue(m: nat, e: int, digits: nat)
    requires m > 0 && digits > 0
    ensures AllDigits(WrittenDigits(m, e, digits))
    ensures var n, d := Expansion(m, e), WrittenDigits(m, e, digits);
            DecimalValue(DecVal(d), WrittenPoint(m, e, digits) - |d|)
            == DecimalValue(Significant(n, digits), Excess(n, digits) - Places(e))
  {
    hide ToDec, DecimalValue, Significant, Excess, Expansion;
    var n := Expansion(m, e);
    var s := ToDec(Significant(n, digits));
    TrimValue(s);
    DecimalShift(DecVal(TrimZeros(s)), |s| - |TrimZeros(s)|, Excess(n, digits) - Places(e));
  }

  /** The printed literal is within half a gap of the float it was printed from. */
  lemma WrittenReadable(m: nat, e: int, p: nat)
    requires m > 0 && 0 < p < 15437
    ensures AllDigits(WrittenDigits(m, e, BigFloatDigits(p)))
    ensures var d := WrittenDigits(m, e, BigFloatDigits(p));
            Readable(DecimalValue(DecVal(d), WrittenPoint(m, e, BigFloatDigits(p)) - |d|), V(m, e), p)
  {
    hide *;
    MoreThanOne(p);
    WrittenValue(m, e, BigFloatDigits(p));
    ExpansionValue(m, e);
    SignificantReadable(Expansion(m, e), -(Places(e) as int), p);
  }

  /** What a finite message's float is, and where its exponents lie. */
  ghost predicate Writable(m: nat, e: int, p: nat) {
    InBits(m, p) && 0 < p <= 13603 && BigFloatDigits(p) <= 4096 && -16384 <= e + p <= 16385
  }

  lemma PositiveDigits(d: nat, x: int, d': nat, x': int)
    requires DecimalValue(d, x) == DecimalValue(d', x') && d' > 0
    ensures d > 0
  {
    hide Exp;
    assert DecimalValue(0, x) == 0.0;
    assert DecimalValue(d', x') > 0.0;
  }

  /** Converting a readable decimal of moderate size. */
  lemma ConvertBack(l: Literal, m: nat, e: int, p: nat)
    requires Writable(m, e, p) && AllDigits(l.digits) && |l.digits| <= 4100
    requires DecVal(l.digits) > 0 && -200000 <= l.exp10 - l.places <= 200000
    requires Readable(LiteralValue(l), V(m, e), p)
    ensures Convert(l, p) == Ok(Finite(m, e + p, p))
  {
    hide FromDecimal, DecVal, DecimalValue, BitLen, Readable, V, Pow, InBits, Pow2Digits;
    DigitsBits(l.digits);
    TwoTo20();
    DecimalBack(DecVal(l.digits), l.exp10 - l.places, m, e, p);
  }

  /** The literal that reading the printed form gives. */
  function PrintedLiteral(m: nat, e: int, p: nat, negative: bool): (l: Literal)
    requires m > 0
    ensures AllDigits(l.digits)
  {
    var digits := BigFloatDigits(p);
    var d, dexp := WrittenDigits(m, e, digits), WrittenPoint(m, e, digits);
    WrittenPrintable(m, e, digits);
    PrintedValue(d, dexp, digits);
    Literal(negative, PrintedWhole(d, dexp, digits) + PrintedFraction(d, dexp, digits),
            |PrintedFraction(d, dexp, digits)|, ReadExponent(d, dexp, digits))
  }

  lemma PrintedLiteralValue(m: nat, e: int, p: nat, negative: bool)
    requires Writable(m, e, p)
    ensures var l := PrintedLiteral(m, e, p, negative);
            && DecVal(l.digits) > 0 && Readable(LiteralValue(l), V(m, e), p)
  {
    hide DecimalValue, Readable, V, Pow, PrintedWhole, PrintedFraction, ReadExponent, WrittenDigits, WrittenPoint,
         ToDec, DecVal, Pow2Digits, BigFloatDigits;
    MantissaPositive(m, p);
    var digits := BigFloatDigits(p);
    var d, dexp := WrittenDigits(m, e, digits), WrittenPoint(m, e, digits);
    WrittenPrintable(m, e, digits);
    PrintedValue(d, dexp, digits);
    WrittenReadable(m, e, p);
    DecLower(d);
    PositiveDigits(DecVal(PrintedWhole(d, dexp, digits) + PrintedFraction(d, dexp, digits)),
                   ReadExponent(d, dexp, digits) - |PrintedFraction(d, dexp, digits)|,
                   DecVal(d), dexp - |d|);
  }

  /** The printed literal denotes exactly the float's expansion rounded to the
      significant digits, half to even. */
  lemma PrintedRounds(m: nat, e: int, p: nat, negative: bool)
    requires m > 0
    ensures var digits, n, l := BigFloatDigits(p), Expansion(m, e), PrintedLiteral(m, e, p, negative);
            var drop := Excess(n, digits);
            var k, unit := DivHalfEven(n, Pow(10, drop)), Pow(10, drop);
            && DecimalValue(n, -(Places(e) as int)) == V(m, e)
            && LiteralValue(l) == DecimalValue(k, drop - Places(e))
            && -(unit as int) <= 2 * (k * unit - n) <= unit
            && (2 * (k * unit - n) == unit || 2 * (k * unit - n) == -(unit as int) ==> k % 2 == 0)
            && (drop > 0 ==> Pow(10, digits - 1) <= k <= Pow(10, digits))
  {
    hide DecimalValue, V, Pow, PrintedWhole, PrintedFraction, ReadExponent, WrittenDigits, WrittenPoint, ToDec, DecVal,
         Pow2Digits, BigFloatDigits, DivHalfEven, Expansion;
    var digits := BigFloatDigits(p);
    var d, dexp := WrittenDigits(m, e, digits), WrittenPoint(m, e, digits);
    WrittenPrintable(m, e, digits);
    PrintedValue(d, dexp, digits);
    WrittenValue(m, e, digits);
    ExpansionValue(m, e);
    DivHalfEvenNearest(Expansion(m, e), Pow(10, Excess(Expansion(m, e), digits)));
    SignificantRange(Expansion(m, e), digits);
  }

  lemma MantissaPositive(m: nat, p: nat)
    requires InBits(m, p)
    ensures m > 0
  {}

  lemma PrintedLiteralSizes(m: nat, e: int, p: nat, negative: bool)
    requires m > 0 && Writable(m, e, p)
    ensures var l := PrintedLiteral(m, e, p, negative);
            |l.digits| <= BigFloatDigits(p) + 4 && -200000 <= l.exp10 - l.places <= 200000
  {
    hide Pow, PrintedWhole, PrintedFraction, ReadExponent, WrittenDigits, WrittenPoint, ToDec, DecVal, Pow2Digits,
         BigFloatDigits, InBits;
    var digits := BigFloatDigits(p);
    WrittenPrintable(m, e, digits);
    PointBounds(m, e, p, digits);
    ReadSizes(WrittenDigits(m, e, digits), WrittenPoint(m, e, digits), digits);
  }

  // The suffix.

  lemma SuffixBack(p: nat, maxDigits: nat)
    requires 0 < p < TWO32
    ensures ReadPrec(ToDec(p), maxDigits) == if BigFloatDigits(p) > maxDigits then Err(SuffixTooWide) else Ok(p)
  {
    hide ToDec, BigFloatDigits;
    assert IsDigit(ToDec(p)[0]);
  }

  // Reading the printed number.

  /** The number of digits the mantissa of the literal is printed with. */
  function TextDigits(m: nat, e: int, p: nat): nat
    requires m > 0
  {
    |PrintedLiteral(m, e, p, false).digits|
  }

  lemma NumberSplit(m: nat, e: int, p: nat, negative: bool, maxDigits: nat)
    requires m > 0 && Writable(m, e, p)
    ensures Split(Number(m, e, p, negative), maxDigits)
         == if TextDigits(m, e, p) > maxDigits then Err(TooManyDigits) else Ok(PrintedLiteral(m, e, p, negative))
  {
    hide Split, General, WrittenDigits, WrittenPoint, PrintedWhole, PrintedFraction, ReadExponent, InBits,
         Pow, BigFloatDigits, ToDec, ExponentForm, Pow2Digits;
    var digits := BigFloatDigits(p);
    WrittenPrintable(m, e, digits);
    PointBounds(m, e, p, digits);
    GeneralSplit(negative, WrittenDigits(m, e, digits), WrittenPoint(m, e, digits), digits, maxDigits);
  }

  lemma NumberConverts(m: nat, e: int, p: nat, negative: bool)
    requires m > 0 && Writable(m, e, p)
    ensures Convert(PrintedLiteral(m, e, p, negative), p) == Ok(Finite(m, e + p, p))
  {
    hide Convert, BigFloatDigits, PrintedLiteral, V, DecVal, Readable, LiteralValue, InBits;
    PrintedLiteralValue(m, e, p, negative);
    PrintedLiteralSizes(m, e, p, negative);
    ConvertBack(PrintedLiteral(m, e, p, negative), m, e, p);
  }

  function Magnitude(e: int): nat {
    if e < 0 then -e else e
  }

  /** The refusals of a printed literal, in the order they are checked, and the
      message it gives when none applies. */
  function ReadOutcome(m: nat, e: int, p: nat, negative: bool, maxDigits: nat, maxExponent: nat): Result<BigFloatLit>
    requires m > 0
  {
    if BigFloatDigits(p) > maxDigits then Err(SuffixTooWide)
    else if TextDigits(m, e, p) > maxDigits then Err(TooManyDigits)
    else if Magnitude(e + p) > maxExponent then Err(ExponentTooLarge)
    else Ok(BigFloatLit(ToBytes(m), e, p, negative))
  }

  lemma NumberParses(m: nat, e: int, p: nat, negative: bool, maxDigits: nat, maxExponent: nat)
    requires m > 0 && Writable(m, e, p)
    ensures Parse(Number(m, e, p, negative), ToDec(p), maxDigits, maxExponent)
         == ReadOutcome(m, e, p, negative, maxDigits, maxExponent)
  {
    hide Split, Number, PrintedLiteral, ReadPrec, Convert, BigFloatDigits, ToDec, InBits, TextDigits, ToBytes,
         HasNonZeroDigit, Unsigned;
    SuffixBack(p, maxDigits);
    NumberSplit(m, e, p, negative, maxDigits);
    NumberConverts(m, e, p, negative);
    SignKept(m, e, p, negative);
  }

  lemma SignKept(m: nat, e: int, p: nat, negative: bool)
    requires m > 0
    ensures PrintedLiteral(m, e, p, negative).negative == negative
  {
    hide WrittenDigits, WrittenPoint, PrintedWhole, PrintedFraction, ReadExponent, BigFloatDigits;
  }

  // The theorems.

  /** The float a message denotes once its mantissa is rounded to prec bits. */
  function Value(x: BigFloatLit): Fl {
    var m := BytesVal(x.mantissa);
    match RoundInto(m, BitLen(m), x.prec, false)
    case Finite(mant, exp, prec) => Finite(mant, exp + x.exponent, prec)
    case Zero => Zero
    case Inf => Inf
  }

  lemma FormatWritable(x: BigFloatLit)
    requires Format(x).Ok? && x.prec > 0 && BytesVal(x.mantissa) > 0
    ensures var v := Value(x);
            && Normalized(v) && v.prec == x.prec && v.mant > 0 && Writable(v.mant, v.exp - v.prec, v.prec)
            && Format(x).value == Number(v.mant, v.exp - v.prec, v.prec, x.negative) + Suffix(x.prec)
  {
    hide RoundInto, BitLen, Number, Suffix, Pow, BigFloatDigits;
    DigitsBoundPrecision(x.prec);
    RoundedMantissa(BytesVal(x.mantissa), x.prec);
  }

  /** Reading the literal of any non-zero message under any limits: it is refused
      exactly for its precision's digits, its own digits or its exponent, and
      gives the rounded message otherwise. */
  lemma LiteralReadsBack(x: BigFloatLit, maxDigits: nat, maxExponent: nat)
    requires Format(x).Ok? && x.prec > 0 && BytesVal(x.mantissa) > 0
    ensures Normalized(Value(x))
    ensures var v := Value(x);
            && Format(x).value == Number(v.mant, v.exp - v.prec, v.prec, x.negative) + Suffix(x.prec)
            && Parse(Number(v.mant, v.exp - v.prec, v.prec, x.negative), ToDec(x.prec), maxDigits, maxExponent)
               == ReadOutcome(v.mant, v.exp - v.prec, v.prec, x.negative, maxDigits, maxExponent)
  {
    hide Format, Value, Parse, Number, ReadOutcome, Writable, InBits, ToDec, Suffix;
    FormatWritable(x);
    var v := Value(x);
    NumberParses(v.mant, v.exp - v.prec, v.prec, x.negative, maxDigits, maxExponent);
  }

  // The literal with its suffix in one string.

  predicate NoP(s: string) {
    forall i :: 0 <= i < |s| ==> s[i] != 'p'
  }

  lemma DigitsNoP(s: string)
    requires AllDigits(s)
    ensures NoP(s)
  {}

  lemma NumberNoP(m: nat, e: int, p: nat, negative: bool)
    requires m > 0
    ensures NoP(Number(m, e, p, negative))
  {
    hide WrittenDigits, WrittenPoint, General, PrintedWhole, PrintedFraction, PrintedExponent, Pointed, BigFloatDigits;
    var digits := BigFloatDigits(p);
    var d, dexp := WrittenDigits(m, e, digits), WrittenPoint(m, e, digits);
    WrittenPrintable(m, e, digits);
    GeneralShape(d, dexp, digits);
    PointedNoP(PrintedWhole(d, dexp, digits), PrintedFraction(d, dexp, digits));
    ExponentNoP(d, dexp, digits);
  }

  lemma PointedNoP(whole: string, fraction: string)
    requires Parts(whole, fraction)
    ensures NoP(Pointed(whole, fraction))
  {
    DigitsNoP(whole);
    DigitsNoP(fraction);
  }

  lemma ExponentNoP(d: string, dexp: int, digits: nat)
    ensures NoP(PrintedExponent(d, dexp, digits))
  {
    hide ExponentForm, ToDec;
    var e := dexp - 1;
    DigitsNoP(ToDec(if e < 0 then -e else e));
  }

  lemma SplitSuffix(number: string, p: nat)
    requires NoP(number)
    ensures ParseDefault(number + Suffix(p))
         == Parse(number, ToDec(p), MAX_NUMERIC_LITERAL_DIGITS, MAX_BIG_FLOAT_EXPONENT)
  {
    hide Parse, ToDec, IndexOf;
    var s := number + Suffix(p);
    IndexIs(s, 'p', 'p', |number|);
    assert s[..|number|] == number && s[|number| + 1..] == ToDec(p);
  }

  /** The same through the suffixed string, under the constant limits: only a
      text of too many digits, or a mantissa whose rounding carries past the top
      exponent, is refused. */
  lemma DefaultReadsBack(x: BigFloatLit)
    requires Format(x).Ok? && x.prec > 0 && BytesVal(x.mantissa) > 0
    ensures Normalized(Value(x))
    ensures var v := Value(x);
            ParseDefault(Format(x).value)
            == if TextDigits(v.mant, v.exp - v.prec, v.prec) > MAX_NUMERIC_LITERAL_DIGITS then Err(TooManyDigits)
               else if v.exp > MAX_BIG_FLOAT_EXPONENT then Err(ExponentTooLarge)
               else Ok(BigFloatLit(ToBytes(v.mant), v.exp - v.prec, v.prec, x.negative))
  {
    hide Format, Value, Parse, Number, BigFloatDigits, TextDigits, InBits, ToDec, Suffix, ParseDefault, ToBytes;
    FormatWritable(x);
    var v := Value(x);
    NumberNoP(v.mant, v.exp - v.prec, v.prec, x.negative);
    SplitSuffix(Number(v.mant, v.exp - v.prec, v.prec, x.negative), v.prec);
    LiteralReadsBack(x, MAX_NUMERIC_LITERAL_DIGITS, MAX_BIG_FLOAT_EXPONENT);
  }

  /** Zeros read back with their sign, and with their precision unless that is
      zero too. */
  lemma ZeroReadsBack(x: BigFloatLit)
    requires Format(x).Ok? && (x.prec == 0 || BytesVal(x.mantissa) == 0) && x.prec < TWO32
    ensures ParseDefault(Format(x).value) == Ok(BigFloatLit([], 0, x.prec, x.negative))
  {
    hide BigFloatDigits, Suffix, ParseDefault, Parse;
    var number := Sign(x.negative) + "0";
    assert NoP(number);
    ZeroParses(x.negative, x.prec);
    if x.prec == 0 {
      NoSuffix(number);
    } else {
      SplitSuffix(number, x.prec);
    }
  }

  lemma NoSuffix(number: string)
    requires NoP(number)
    ensures ParseDefault(number) == Parse(number, "", MAX_NUMERIC_LITERAL_DIGITS, MAX_BIG_FLOAT_EXPONENT)
  {
    hide Parse, IndexOf;
    IndexIs(number, 'p', 'p', |number|);
  }

  lemma ZeroParses(negative: bool, p: nat)
    requires p < TWO32 && (p > 0 ==> BigFloatDigits(p) <= MAX_NUMERIC_LITERAL_DIGITS)
    ensures Parse(Sign(negative) + "0", if p == 0 then "" else ToDec(p),
                  MAX_NUMERIC_LITERAL_DIGITS, MAX_BIG_FLOAT_EXPONENT)
         == Ok(BigFloatLit([], 0, p, negative))
  {
    hide BigFloatDigits, Split, ToDec, DecVal, ReadPrec;
    ZeroLiteral(negative);
    ZeroSuffix(p);
  }

  lemma ZeroSuffix(p: nat)
    requires p < TWO32 && (p > 0 ==> BigFloatDigits(p) <= MAX_NUMERIC_LITERAL_DIGITS)
    ensures p == 0 ==> ReadPrec("", MAX_NUMERIC_LITERAL_DIGITS) == Ok(BIG_FLOAT_PREC)
    ensures p > 0 ==> ReadPrec(ToDec(p), MAX_NUMERIC_LITERAL_DIGITS) == Ok(p)
  {
    hide ToDec, BigFloatDigits;
    if p > 0 {
      SuffixBack(p, MAX_NUMERIC_LITERAL_DIGITS);
    }
  }

  lemma ZeroLiteral(negative: bool)
    ensures Split(Sign(negative) + "0", MAX_NUMERIC_LITERAL_DIGITS) == Ok(Literal(negative, "0", 0, 0))
    ensures AllDigits("0") && DecVal("0") == 0
    ensures !HasNonZeroDigit(Unsigned(Sign(negative) + "0"))
  {
    hide Split, MantissaText, Literals.Fraction, CountDigits;
    assert "0"[..0] == "";
    SplitParts(negative, "0", "", "", 0, MAX_NUMERIC_LITERAL_DIGITS);
    assert Pointed("0", "") + "" == "0";
    assert "0" + "" == "0";
    UnsignedOf(negative, "0");
    ZeroDigits("0");
  }

  lemma ZeroDigits(s: string)
    requires s == "0"
    ensures !HasNonZeroDigit(s) && AllDigits(s) && DecVal(s) == 0
  {
    assert s[..0] == "" && s[1..] == "";
  }

  lemma {:induction false} CanonicalPositive(b: seq<Byte>)
    requires b != [] && b[0] != 0
    ensures BytesVal(b) > 0
    decreases |b|
  {
    if |b| > 1 {
      CanonicalPositive(b[..|b| - 1]);
    }
  }

  /** The wire magnitude of a number is unique. */
  lemma {:induction false} BytesUnique(a: seq<Byte>, b: seq<Byte>)
    requires CanonicalBytes(a) && CanonicalBytes(b) && BytesVal(a) == BytesVal(b)
    ensures a == b
    decreases |a|
  {
    if a == [] {
      if b != [] {
        CanonicalPositive(b);
      }
    } else if b == [] {
      CanonicalPositive(a);
    } else {
      BytesUnique(a[..|a| - 1], b[..|b| - 1]);
      assert a == a[..|a| - 1] + [a[|a| - 1]] && b == b[..|b| - 1] + [b[|b| - 1]];
    }
  }

  /** A full mantissa is not rounded. */
  lemma FullValue(m: nat, p: nat)
    requires InBits(m, p)
    ensures p <= MAX_EXP ==> RoundInto(m, BitLen(m), p, false) == Finite(m, p, p)
    ensures BitLen(m) == p
  {
    hide BitLen;
    BitLenUnique(m, p);
    assert Pow(2, 0) == 1;
  }

  /** A message in normal form reads back unchanged exactly when its text is
      within the digit limit. */
  lemma FullMantissaReadsBack(x: BigFloatLit)
    requires Format(x).Ok? && x.prec > 0 && CanonicalBytes(x.mantissa) && InBits(BytesVal(x.mantissa), x.prec)
    ensures BytesVal(x.mantissa) > 0
    ensures ParseDefault(Format(x).value) == Ok(x)
       <==> TextDigits(BytesVal(x.mantissa), x.exponent, x.prec) <= MAX_NUMERIC_LITERAL_DIGITS
    ensures BigFloatDigits(x.prec) <= MAX_NUMERIC_LITERAL_DIGITS - 4 ==> ParseDefault(Format(x).value) == Ok(x)
  {
    hide Format, ParseDefault, TextDigits, InBits, ToBytes, BytesVal, RoundInto, BitLen, BigFloatDigits, Value;
    var m := BytesVal(x.mantissa);
    MantissaPositive(m, x.prec);
    FullMantissaValue(x);
    FormatWritable(x);
    DefaultReadsBack(x);
    BytesUnique(x.mantissa, ToBytes(m));
    FewTextDigits(m, x.exponent, x.prec);
  }

  lemma FullMantissaValue(x: BigFloatLit)
    requires Format(x).Ok? && x.prec > 0 && InBits(BytesVal(x.mantissa), x.prec) && BytesVal(x.mantissa) > 0
    ensures Value(x) == Finite(BytesVal(x.mantissa), x.exponent + x.prec, x.prec)
    ensures x.exponent + x.prec <= MAX_BIG_FLOAT_EXPONENT
  {
    hide Format, RoundInto, BitLen, InBits, BytesVal;
    FullValue(BytesVal(x.mantissa), x.prec);
    FormatBounds(x);
  }

  lemma FormatBounds(x: BigFloatLit)
    requires Format(x).Ok? && x.prec > 0 && BytesVal(x.mantissa) > 0
    ensures x.prec <= MAX_EXP
    ensures x.exponent + BitLen(BytesVal(x.mantissa)) <= MAX_BIG_FLOAT_EXPONENT
  {
    hide BigFloatDigits, BitLen, RoundInto, Number, Suffix;
    DigitsBoundPrecision(x.prec);
  }

  lemma FewTextDigits(m: nat, e: int, p: nat)
    requires m > 0 && Writable(m, e, p)
    ensures TextDigits(m, e, p) <= BigFloatDigits(p) + 4
  {
    hide PrintedLiteral, BigFloatDigits, Writable;
    PrintedLiteralSizes(m, e, p, false);
  }

  /** A wider mantissa at the top exponent is printed, but its rounding carries
      into the next exponent and the literal is refused. */
  lemma CarryPastTheBound()
    ensures var x := BigFloatLit([3], 16382, 1, false);
            Format(x).Ok? && ParseDefault(Format(x).value) == Err(ExponentTooLarge)
  {
    var x := BigFloatLit([3], 16382, 1, false);
    ThreeFormats();
    hide *;
    DefaultReadsBack(x);
    FormatWritable(x);
    FewTextDigits(1, 16384, 1);
  }

  lemma ThreeFormats()
    ensures var x := BigFloatLit([3], 16382, 1, false);
            Format(x).Ok? && BytesVal(x.mantissa) > 0 && Value(x) == Finite(1, 16385, 1)
    ensures BigFloatDigits(1) == 2
  {
    hide RoundInto, BytesVal, BitLen, Pow2Digits, Number, Suffix;
    ThreeInOneBit();
  }

  lemma ThreeInOneBit()
    ensures BytesVal([3]) == 3 && BitLen(3) == 2 && Pow2Digits(1) == 1
    ensures RoundInto(3, 2, 1, false) == Finite(1, 3, 1)
  {
    assert [3 as Byte][..0] == [];
    assert BytesVal([3]) == 3;
    assert BitLen(1) == 1;
    assert Pow(2, 1) == 2 && Pow(2, 0) == 1;
    assert BitLen(2) == 2;
    assert Rounded(3, 1, false) == 2;
  }
}
