/** The printed form is read apart again into a decimal of the same value. */
module LiteralText {
  import opened Powers
  import opened Decimals
  import opened ReadBack
  import opened DecimalRounding
  import opened Literals

  /** An optional point and fraction. */
  function Pointed(whole: string, fraction: string): (t: string) {
    whole + if fraction == [] then "" else "." + fraction
  }

  predicate Parts(whole: string, fraction: string) {
    whole != [] && AllDigits(whole) && AllDigits(fraction)
  }

  lemma IndexIs(s: string, a: char, b: char, k: nat)
    requires k <= |s|
    requires forall j :: 0 <= j < k ==> s[j] != a && s[j] != b
    requires k < |s| ==> s[k] == a || s[k] == b
    ensures IndexOf(s, a, b) == k
  {
    hide IndexOf;
    var i := IndexOf(s, a, b);
    assert !(i < k);
    assert !(k < i);
  }

  /** A text without e or E up to position i has its mantissa there. */
  lemma MantissaOf(mantissa: string, exponent: string)
    requires forall j :: 0 <= j < |mantissa| ==> mantissa[j] != 'e' && mantissa[j] != 'E'
    requires exponent != [] ==> exponent[0] == 'e'
    ensures MantissaText(mantissa + exponent) == mantissa
    ensures exponent != [] ==> (mantissa + exponent)[|mantissa| + 1..] == exponent[1..]
  {
    hide IndexOf;
    IndexIs(mantissa + exponent, 'e', 'E', |mantissa|);
  }

  lemma PointOf(whole: string, fraction: string)
    requires Parts(whole, fraction)
    ensures Whole(Pointed(whole, fraction)) == whole && Fraction(Pointed(whole, fraction)) == fraction
  {
    hide IndexOf;
    var t := Pointed(whole, fraction);
    assert forall j :: 0 <= j < |whole| ==> t[j] == whole[j] && IsDigit(whole[j]);
    IndexIs(t, '.', '.', |whole|);
  }

  lemma {:induction false} CountAppend(s: string, t: string)
    ensures CountDigits(s + t) == CountDigits(s) + CountDigits(t)
    decreases |t|
  {
    if t == [] {
      assert s + t == s;
    } else {
      CountAppend(s, t[..|t| - 1]);
      assert (s + t)[..|s + t| - 1] == s + t[..|t| - 1];
    }
  }

  lemma {:induction false} CountAll(s: string)
    requires AllDigits(s)
    ensures CountDigits(s) == |s|
    decreases |s|
  {
    if s != [] {
      CountAll(s[..|s| - 1]);
    }
  }

  lemma PointedDigits(whole: string, fraction: string)
    requires Parts(whole, fraction)
    ensures CountDigits(Pointed(whole, fraction)) == |whole| + |fraction|
  {
    CountAll(whole);
    CountAll(fraction);
    CountAppend(whole, if fraction == [] then "" else "." + fraction);
    CountAppend(".", fraction);
    assert CountDigits(".") == 0;
  }

  lemma PointedPlain(whole: string, fraction: string)
    requires Parts(whole, fraction)
    ensures forall j :: 0 <= j < |Pointed(whole, fraction)| ==>
              var c := Pointed(whole, fraction)[j]; c == '.' || IsDigit(c)
  {}

  lemma UnsignedOf(negative: bool, body: string)
    requires body != [] && IsDigit(body[0])
    ensures var s := (if negative then "-" else "") + body;
            Unsigned(s) == body && (negative <==> s != [] && s[0] == '-')
  {
    assert negative ==> ("-" + body)[1..] == body;
  }

  /** What reading a literal of this shape gives. */
  lemma SplitParts(negative: bool, whole: string, fraction: string, exponent: string, exp10: int, maxDigits: nat)
    requires Parts(whole, fraction)
    requires if exponent == [] then exp10 == 0
             else exponent[0] == 'e' && ParseExponent(exponent[1..]) == Ok(exp10)
    ensures Split((if negative then "-" else "") + (Pointed(whole, fraction) + exponent), maxDigits)
         == if |whole| + |fraction| > maxDigits then Err(TooManyDigits)
            else Ok(Literal(negative, whole + fraction, |fraction|, exp10))
  {
    hide IndexOf, Unsigned, MantissaText, Whole, Fraction, ParseExponent, CountDigits;
    var mantissa := Pointed(whole, fraction);
    PointedPlain(whole, fraction);
    assert mantissa[0] == whole[0];
    UnsignedOf(negative, mantissa + exponent);
    MantissaOf(mantissa, exponent);
    PointedDigits(whole, fraction);
    PointOf(whole, fraction);
  }

  // The parts of the printed form.

  /** Significant digits as the printer holds them. */
  predicate Printable(d: string, digits: nat) {
    d != [] && AllDigits(d) && |d| <= digits
  }

  function PrintedWhole(d: string, dexp: int, digits: nat): string
    requires d != []
  {
    if ExponentForm(d, dexp, digits) then d[..1]
    else if dexp <= 0 then "0"
    else if |d| > dexp then d[..dexp]
    else d + Zeros(dexp - |d|)
  }

  function PrintedFraction(d: string, dexp: int, digits: nat): string
    requires d != []
  {
    if ExponentForm(d, dexp, digits) then d[1..]
    else if dexp <= 0 then Zeros(-dexp) + d
    else if |d| > dexp then d[dexp..]
    else ""
  }

  function PrintedExponent(d: string, dexp: int, digits: nat): string {
    if ExponentForm(d, dexp, digits) then "e" + ExponentText(dexp - 1) else ""
  }

  lemma GeneralShape(d: string, dexp: int, digits: nat)
    requires Printable(d, digits)
    ensures General(d, dexp, digits)
         == Pointed(PrintedWhole(d, dexp, digits), PrintedFraction(d, dexp, digits))
            + PrintedExponent(d, dexp, digits)
    ensures Parts(PrintedWhole(d, dexp, digits), PrintedFraction(d, dexp, digits))
  {
    hide ExponentText;
    if ExponentForm(d, dexp, digits) {
      ShapeE(d, dexp);
    } else if dexp <= 0 {
      ShapeBelowOne(d, dexp);
    } else if |d| > dexp {
      ShapeWithin(d, dexp);
    } else {
      ShapeWhole(d, dexp);
    }
  }

  lemma ShapeE(d: string, dexp: int)
    requires d != []
    ensures FmtE(|d| - 1, d, dexp) == Pointed(d[..1], d[1..]) + ("e" + ExponentText(dexp - 1))
  {
    hide ExponentText;
    var e := ExponentText(dexp - 1);
    assert d[1..|d|] + Zeros(0) == d[1..];
    if |d| > 1 {
      assert Pointed(d[..1], d[1..]) == d[..1] + ("." + d[1..|d|] + Zeros(0));
    } else {
      assert Pointed(d[..1], d[1..]) == d[..1] + "";
    }
    Joined(Pointed(d[..1], d[1..]), "e", e);
  }

  lemma Joined(a: string, b: string, c: string)
    ensures a + b + c == a + (b + c)
  {}

  lemma ShapeBelowOne(d: string, dexp: int)
    requires d != [] && dexp <= 0
    ensures FmtF(|d| - dexp, d, dexp) == Pointed("0", Zeros(-dexp) + d) + ""
  {
    var f := seq(|d| - dexp, i requires i >= 0 => DigitAt(d, dexp + i));
    var z := Zeros(-dexp) + d;
    forall i | 0 <= i < |f| ensures f[i] == z[i] {
      assert f[i] == DigitAt(d, dexp + i);
      if i < -dexp {
        assert z[i] == Zeros(-dexp)[i] == '0';
      } else {
        assert z[i] == d[i - (-dexp)];
      }
    }
    assert f == z;
  }

  lemma ShapeWithin(d: string, dexp: int)
    requires 0 < dexp < |d|
    ensures FmtF(|d| - dexp, d, dexp) == Pointed(d[..dexp], d[dexp..]) + ""
  {
    var f := seq(|d| - dexp, i requires i >= 0 => DigitAt(d, dexp + i));
    forall i | 0 <= i < |f| ensures f[i] == d[dexp..][i] {
      assert f[i] == DigitAt(d, dexp + i) == d[dexp + i];
    }
    assert f == d[dexp..];
    assert d[..dexp] + Zeros(0) == d[..dexp];
  }

  lemma ShapeWhole(d: string, dexp: int)
    requires 0 < |d| <= dexp
    ensures FmtF(0, d, dexp) == Pointed(d + Zeros(dexp - |d|), "") + ""
  {
    assert d[..|d|] == d;
  }

  /** The printed exponent is read back. */
  lemma ExponentBack(e: int)
    requires -I64_MAX <= e <= I64_MAX
    ensures ParseExponent(ExponentText(e)) == Ok(e)
  {
    hide *;
    var a := if e < 0 then -e else e;
    var digits := PadText(a);
    PadValue(a);
    SignedExponent(e < 0, digits);
    ExponentIs(e);
  }

  /** Two digits at least. */
  function PadText(a: nat): string {
    (if a < 10 then "0" else "") + ToDec(a)
  }

  lemma ExponentIs(e: int)
    ensures ExponentText(e) == (if e < 0 then "-" else "+") + PadText(if e < 0 then -e else e)
  {
    hide ToDec;
  }

  lemma SignedExponent(negative: bool, digits: string)
    requires digits != [] && AllDigits(digits) && DecVal(digits) <= I64_MAX
    ensures ParseExponent((if negative then "-" else "+") + digits)
         == Ok(if negative then -(DecVal(digits) as int) else DecVal(digits))
  {
    hide DecVal, AllDigits;
    var text := (if negative then "-" else "+") + digits;
    assert text[1..] == digits;
  }

  lemma PadValue(a: nat)
    ensures var digits := PadText(a);
            digits != [] && AllDigits(digits) && DecVal(digits) == a
  {
    hide ToDec;
    DecAppend(if a < 10 then "0" else "", ToDec(a));
    assert DecVal("") == 0;
    assert DecVal("0") == 0 by { assert "0"[..0] == ""; }
  }

  /** How many digits the printed mantissa has; the zeros that place the point
      count. */
  function PrintedDigits(d: string, dexp: int, digits: nat): (n: nat)
    requires d != []
  {
    |PrintedWhole(d, dexp, digits)| + |PrintedFraction(d, dexp, digits)|
  }

  /** The exponent the printed form is read with. */
  function ReadExponent(d: string, dexp: int, digits: nat): int {
    if ExponentForm(d, dexp, digits) then dexp - 1 else 0
  }

  /** Reading the printed form: refused exactly when its digits are too many, and
      otherwise the parts that were printed. */
  lemma GeneralSplit(negative: bool, d: string, dexp: int, digits: nat, maxDigits: nat)
    requires Printable(d, digits) && -I64_MAX <= dexp - 1 <= I64_MAX
    ensures Split((if negative then "-" else "") + General(d, dexp, digits), maxDigits)
         == if PrintedDigits(d, dexp, digits) > maxDigits then Err(TooManyDigits)
            else Ok(Literal(negative, PrintedWhole(d, dexp, digits) + PrintedFraction(d, dexp, digits),
                            |PrintedFraction(d, dexp, digits)|, ReadExponent(d, dexp, digits)))
  {
    hide Split, General, PrintedWhole, PrintedFraction, ParseExponent, ExponentText, ExponentForm;
    GeneralShape(d, dexp, digits);
    var exponent := PrintedExponent(d, dexp, digits);
    ExponentBack(dexp - 1);
    if exponent != [] {
      assert exponent[1..] == ExponentText(dexp - 1);
    }
    SplitParts(negative, PrintedWhole(d, dexp, digits), PrintedFraction(d, dexp, digits), exponent,
               ReadExponent(d, dexp, digits), maxDigits);
  }

  /** The number a literal denotes, without its sign. */
  ghost function LiteralValue(l: Literal): real
    requires AllDigits(l.digits)
  {
    DecimalValue(DecVal(l.digits), l.exp10 - l.places)
  }

  /** Either form denotes exactly the digits, with the point at dexp. */
  lemma PrintedValue(d: string, dexp: int, digits: nat)
    requires Printable(d, digits)
    ensures AllDigits(PrintedWhole(d, dexp, digits) + PrintedFraction(d, dexp, digits))
    ensures DecimalValue(DecVal(PrintedWhole(d, dexp, digits) + PrintedFraction(d, dexp, digits)),
                         ReadExponent(d, dexp, digits) - |PrintedFraction(d, dexp, digits)|)
         == DecimalValue(DecVal(d), dexp - |d|)
  {
    hide DecimalValue;
    if ExponentForm(d, dexp, digits) {
      assert d[..1] + d[1..] == d;
    } else if dexp <= 0 {
      LeadingZeros(-dexp, d);
    } else if |d| > dexp {
      assert d[..dexp] + d[dexp..] == d;
    } else {
      TrailingZeros(d, dexp - |d|);
      assert d + Zeros(dexp - |d|) + "" == d + Zeros(dexp - |d|);
    }
  }

  lemma LeadingZeros(n: nat, d: string)
    requires AllDigits(d)
    ensures AllDigits("0" + (Zeros(n) + d)) && DecVal("0" + (Zeros(n) + d)) == DecVal(d)
  {
    ZerosVal(n + 1);
    DecAppend(Zeros(n + 1), d);
    assert "0" + (Zeros(n) + d) == Zeros(n + 1) + d;
  }

  lemma TrailingZeros(d: string, n: nat)
    requires AllDigits(d)
    ensures AllDigits(d + Zeros(n)) && DecVal(d + Zeros(n)) == DecVal(d) * Pow(10, n)
    ensures DecimalValue(DecVal(d + Zeros(n)), 0) == DecimalValue(DecVal(d), n)
  {
    hide DecimalValue;
    ZerosVal(n);
    DecAppend(d, Zeros(n));
    DecimalShift(DecVal(d), n, 0);
  }
}
