/** BigFloat literals as they are spelled, and what taking one apart gives: any sign,
    any digits around an optional point, and any spelling of the exponent. */
module LiteralSpelling {
  import opened Options
  import opened Decimals
  import opened Literals
  import opened LiteralText

  datatype ExponentSign = NoSign | Plus | Minus

  /** The exponent's mark, its sign and its digits. */
  datatype Exponent = Exponent(upper: bool, sign: ExponentSign, digits: string)

  datatype Spelling = Spelling(negative: bool, whole: string, point: bool, fraction: string, exponent: Option<Exponent>)

  function SignText(sign: ExponentSign): string {
    match sign
    case NoSign => ""
    case Plus => "+"
    case Minus => "-"
  }

  function ExponentSpelled(e: Option<Exponent>): string {
    match e
    case None => ""
    case Some(x) => (if x.upper then "E" else "e") + (SignText(x.sign) + x.digits)
  }

  function MantissaSpelled(s: Spelling): string {
    s.whole + if s.point then "." + s.fraction else ""
  }

  function Spelled(s: Spelling): string {
    (if s.negative then "-" else "") + (MantissaSpelled(s) + ExponentSpelled(s.exponent))
  }

  /** Digits before or after the point, and in the exponent. */
  predicate Proper(s: Spelling) {
    && AllDigits(s.whole) && AllDigits(s.fraction) && (s.whole != "" || s.fraction != "")
    && (!s.point ==> s.fraction == "")
    && (s.exponent.Some? ==> s.exponent.value.digits != "" && AllDigits(s.exponent.value.digits))
  }

  /** The power of ten an exponent stands for. */
  function Power(e: Option<Exponent>): int
    requires e.Some? ==> AllDigits(e.value.digits)
  {
    match e
    case None => 0
    case Some(x) => if x.sign.Minus? then -(DecVal(x.digits) as int) else DecVal(x.digits)
  }

  /** The exponent's digits are within 63 bits. */
  predicate PowerFits(e: Option<Exponent>)
    requires e.Some? ==> AllDigits(e.value.digits)
  {
    e.Some? ==> DecVal(e.value.digits) <= I64_MAX
  }

  // Every spelling is taken apart into its parts.

  lemma {:induction false} ExponentRead(sign: ExponentSign, digits: string)
    requires digits != "" && AllDigits(digits)
    ensures ParseExponent(SignText(sign) + digits)
         == if DecVal(digits) > I64_MAX then Err(Invalid)
            else Ok(if sign.Minus? then -(DecVal(digits) as int) else DecVal(digits))
  {
    hide DecVal;
    var t := SignText(sign) + digits;
    if sign.NoSign? {
      assert t == digits && IsDigit(t[0]);
    } else {
      assert t[1..] == digits;
    }
  }

  lemma {:induction false} MantissaRead(s: Spelling)
    requires Proper(s)
    ensures var body := MantissaSpelled(s) + ExponentSpelled(s.exponent);
            && MantissaText(body) == MantissaSpelled(s)
            && (s.exponent.None? <==> |body| == |MantissaSpelled(s)|)
            && (s.exponent.Some? ==>
                  body[|MantissaSpelled(s)| + 1..] == SignText(s.exponent.value.sign) + s.exponent.value.digits)
  {
    hide IndexOf, SignText;
    var m, e := MantissaSpelled(s), ExponentSpelled(s.exponent);
    var body := m + e;
    assert forall j :: 0 <= j < |m| ==> body[j] == m[j] && (m[j] == '.' || IsDigit(m[j]));
    if s.exponent.Some? {
      assert body[|m|] == e[0];
      assert e[1..] == SignText(s.exponent.value.sign) + s.exponent.value.digits;
      assert body[|m| + 1..] == e[1..];
    }
    IndexIs(body, 'e', 'E', |m|);
    assert body[..|m|] == m;
  }

  lemma {:induction false} PointRead(s: Spelling)
    requires Proper(s)
    ensures Whole(MantissaSpelled(s)) == s.whole && Literals.Fraction(MantissaSpelled(s)) == s.fraction
    ensures CountDigits(MantissaSpelled(s)) == |s.whole| + |s.fraction|
  {
    hide IndexOf, CountDigits;
    var m := MantissaSpelled(s);
    assert forall j :: 0 <= j < |s.whole| ==> m[j] == s.whole[j] && IsDigit(m[j]);
    IndexIs(m, '.', '.', |s.whole|);
    assert m[..|s.whole|] == s.whole;
    CountAll(s.whole);
    if s.point {
      assert m[|s.whole| + 1..] == s.fraction;
      CountAll(s.fraction);
      CountAppend(s.whole, "." + s.fraction);
      CountAppend(".", s.fraction);
      PointCount();
    } else {
      assert m == s.whole;
    }
  }

  lemma {:induction false} PointCount()
    ensures CountDigits(".") == 0
  {
    assert "."[..0] == "";
  }

  lemma {:induction false} SignRead(s: Spelling)
    requires Proper(s)
    ensures Unsigned(Spelled(s)) == MantissaSpelled(s) + ExponentSpelled(s.exponent)
    ensures s.negative <==> Spelled(s) != [] && Spelled(s)[0] == '-'
  {
    hide ExponentSpelled;
    var body := MantissaSpelled(s) + ExponentSpelled(s.exponent);
    assert body[0] == MantissaSpelled(s)[0];
    assert body[0] == '.' || IsDigit(body[0]);
    if s.negative {
      assert ("-" + body)[1..] == body;
    } else {
      assert "" + body == body;
    }
  }

  /** Whatever the spelling, the parts are its sign, its digits, the count of those past
      the point and its power of ten, unless its digits are too many or its exponent
      too large. */
  lemma {:induction false} SplitSpelled(s: Spelling, maxDigits: nat)
    requires Proper(s)
    ensures Split(Spelled(s), maxDigits)
         == if |s.whole| + |s.fraction| > maxDigits then Err(TooManyDigits)
            else if !PowerFits(s.exponent) then Err(Invalid)
            else Ok(Literal(s.negative, s.whole + s.fraction, |s.fraction|, Power(s.exponent)))
  {
    hide Spelled, MantissaSpelled, ExponentSpelled, Unsigned, MantissaText, Whole, Literals.Fraction, CountDigits, ParseExponent,
         DecVal, SignText;
    SignRead(s);
    MantissaRead(s);
    PointRead(s);
    if s.exponent.Some? {
      ExponentRead(s.exponent.value.sign, s.exponent.value.digits);
    }
  }

  // And only spellings are taken apart.

  function ExponentOf(mark: char, e: string): Exponent {
    if e != [] && e[0] == '+' then Exponent(mark == 'E', Plus, e[1..])
    else if e != [] && e[0] == '-' then Exponent(mark == 'E', Minus, e[1..])
    else Exponent(mark == 'E', NoSign, e)
  }

  lemma {:induction false} ExponentOfText(mark: char, e: string)
    requires mark == 'e' || mark == 'E'
    ensures ExponentSpelled(Some(ExponentOf(mark, e))) == [mark] + e
  {
    var x := ExponentOf(mark, e);
    if x.sign.NoSign? {
      assert SignText(x.sign) + x.digits == e;
    } else {
      assert e == [e[0]] + e[1..];
    }
  }

  /** The spelling of a text. */
  function SpellingOf(t: string): Spelling {
    var body := Unsigned(t);
    var m := MantissaText(body);
    Spelling(t != [] && t[0] == '-', Whole(m), IndexOf(m, '.', '.') < |m|, Literals.Fraction(m),
             if |m| == |body| then None else Some(ExponentOf(body[|m|], body[|m| + 1..])))
  }

  lemma {:induction false} TextOfMantissa(t: string)
    ensures MantissaSpelled(SpellingOf(t)) == MantissaText(Unsigned(t))
  {
    hide MantissaText, Unsigned;
    var m := MantissaText(Unsigned(t));
    var dot := IndexOf(m, '.', '.');
    if dot < |m| {
      assert m == m[..dot] + ([m[dot]] + m[dot + 1..]);
    }
    hide IndexOf;
  }

  lemma {:induction false} TextOfExponent(t: string)
    ensures var body := Unsigned(t);
            ExponentSpelled(SpellingOf(t).exponent) == body[|MantissaText(body)|..]
  {
    hide Unsigned, ExponentOf, ExponentSpelled;
    var body := Unsigned(t);
    var m := MantissaText(body);
    if |m| < |body| {
      ExponentOfText(body[|m|], body[|m| + 1..]);
      assert body[|m|..] == [body[|m|]] + body[|m| + 1..];
    } else {
      NoExponent();
      assert body[|m|..] == "";
    }
  }

  lemma {:induction false} NoExponent()
    ensures ExponentSpelled(None) == ""
  {}

  lemma {:induction false} ProperExponent(mark: char, e: string)
    requires ParseExponent(e).Ok?
    ensures ExponentOf(mark, e).digits != "" && AllDigits(ExponentOf(mark, e).digits)
  {
    hide DecVal;
  }

  lemma {:induction false} ProperOf(t: string, maxDigits: nat)
    requires Split(t, maxDigits).Ok?
    ensures Proper(SpellingOf(t))
  {
    hide CountDigits, Unsigned, ParseExponent, ExponentOf;
    var body := Unsigned(t);
    var m := MantissaText(body);
    if |m| < |body| {
      ProperExponent(body[|m|], body[|m| + 1..]);
    }
  }

  /** A text that is taken apart is one of these spellings. */
  lemma {:induction false} OnlySpelled(t: string, maxDigits: nat)
    requires Split(t, maxDigits).Ok?
    ensures Proper(SpellingOf(t)) && Spelled(SpellingOf(t)) == t
  {
    hide Split, MantissaSpelled, ExponentSpelled, Unsigned, Proper, MantissaText, SpellingOf;
    ProperOf(t, maxDigits);
    TextOfMantissa(t);
    TextOfExponent(t);
    SignOf(t);
    Rejoined(Unsigned(t));
  }

  lemma {:induction false} Rejoined(body: string)
    ensures body == MantissaText(body) + body[|MantissaText(body)|..]
  {}

  lemma {:induction false} SignOf(t: string)
    ensures t == (if SpellingOf(t).negative then "-" else "") + Unsigned(t)
  {
    hide MantissaText, IndexOf, ExponentOf;
    if t != [] && t[0] == '-' {
      assert t == "-" + t[1..];
    }
  }
}
