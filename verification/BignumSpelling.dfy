/** Every big integer and decimal literal by its text. */
module BignumSpelling {
  import opened Bytes
  import opened Decimals
  import opened BigUintText
  import opened BigFloats
  import opened Bignums
  import Literals
  import LiteralText

  /** An optional minus, digits, and an optional point with or without digits. */
  datatype Spelling = Spelling(minus: bool, whole: string, point: bool, fraction: string)

  function Text(s: Spelling): string {
    (if s.minus then "-" else "") + (s.whole + (if s.point then "." + s.fraction else ""))
  }

  /** A digit on either side of the point. */
  predicate Proper(s: Spelling) {
    && AllDigits(s.whole) && AllDigits(s.fraction)
    && (s.fraction != "" ==> s.point) && (s.whole != "" || s.fraction != "")
  }

  lemma {:induction false} TextSplit(s: Spelling)
    requires Proper(s)
    ensures var t := Text(s);
            var body := Literals.Unsigned(t);
            var at := Literals.IndexOf(body, '.', '.');
            && StartsMinus(t) == s.minus && Literals.CountDigits(t) == |s.whole| + |s.fraction|
            && body[..at] == s.whole && (if at < |body| then body[at + 1..] else "") == s.fraction
            && (!s.point ==> body == s.whole)
  {
    var tail := if s.point then "." + s.fraction else "";
    SignSplit(s, s.whole + tail);
    BodySplit(s.whole, tail);
    Counted(s);
    assert tail != "" ==> tail[1..] == s.fraction;
    hide Literals.IndexOf, Literals.CountDigits, Literals.Unsigned, AllDigits, Text;
  }

  lemma {:induction false} SignSplit(s: Spelling, body: string)
    requires Proper(s) && body == s.whole + if s.point then "." + s.fraction else ""
    ensures Literals.Unsigned(Text(s)) == body && StartsMinus(Text(s)) == s.minus
  {
    assert body[0] == '.' || IsDigit(body[0]);
    assert Text(s) == (if s.minus then "-" else "") + body;
    if s.minus {
      assert Text(s)[1..] == body;
    } else {
      assert Text(s) == body;
    }
  }

  lemma {:induction false} BodySplit(whole: string, tail: string)
    requires AllDigits(whole) && (tail == "" || tail[0] == '.')
    ensures Literals.IndexOf(whole + tail, '.', '.') == |whole|
    ensures (whole + tail)[..|whole|] == whole && (tail != "" ==> (whole + tail)[|whole| + 1..] == tail[1..])
  {
    LiteralText.IndexIs(whole + tail, '.', '.', |whole|);
  }

  lemma {:induction false} Counted(s: Spelling)
    requires Proper(s)
    ensures Literals.CountDigits(Text(s)) == |s.whole| + |s.fraction|
  {
    var sign, tail := if s.minus then "-" else "", if s.point then "." + s.fraction else "";
    LiteralText.CountAppend(sign, s.whole + tail);
    LiteralText.CountAppend(s.whole, tail);
    LiteralText.CountAppend(".", s.fraction);
    LiteralText.CountAll(s.whole);
    LiteralText.CountAll(s.fraction);
    assert Literals.CountDigits("-") == 0 && Literals.CountDigits(".") == 0 && Literals.CountDigits("") == 0;
  }

  /** A decimal literal is read as its digits, its sign, and the length of its fraction,
      when its digits are not too many. */
  lemma {:induction false} DecimalSpelled(s: Spelling, maxDigits: nat)
    requires Proper(s)
    ensures ParseDecimal(Text(s), maxDigits)
         == if |s.whole| + |s.fraction| > maxDigits then Err(TooManyDigits)
            else Ok(DecimalLit(ToBytes(DecVal(s.whole + s.fraction)), Scale(|s.fraction|), s.minus))
  {
    TextSplit(s);
    hide Text, Literals.IndexOf, Literals.CountDigits, AllDigits, ToBytes, DecVal, Literals.Unsigned, StartsMinus;
  }

  /** An integer literal is read as its digits, negative when it is not zero. */
  lemma {:induction false} IntegerSpelled(s: Spelling, maxDigits: nat)
    requires Proper(s) && !s.point
    ensures ParseBigInt(Text(s), maxDigits)
         == if |s.whole| > maxDigits then Err(TooManyDigits)
            else Ok(BigIntLit(ToBytes(DecVal(s.whole)), s.minus && DecVal(s.whole) > 0))
  {
    TextSplit(s);
    hide Text, Literals.IndexOf, Literals.CountDigits, AllDigits, ToBytes, DecVal, Literals.Unsigned, StartsMinus;
  }

  /** Nothing else is read as a decimal. */
  lemma {:induction false} OnlyDecimals(t: string, maxDigits: nat)
    requires ParseDecimal(t, maxDigits).Ok?
    ensures exists s :: Proper(s) && t == Text(s)
  {
    var body := Literals.Unsigned(t);
    var at := Literals.IndexOf(body, '.', '.');
    ReadParts(t, maxDigits, body, at);
    Rejoined(t, body, at);
    var s := Spelling(StartsMinus(t), body[..at], at < |body|, if at < |body| then body[at + 1..] else "");
    hide Literals.CountDigits, ToBytes, DecVal, AllDigits, ParseDecimal, Literals.IndexOf, Literals.Unsigned, StartsMinus;
    assert Proper(s) && t == Text(s);
  }

  lemma {:induction false} ReadParts(t: string, maxDigits: nat, body: string, at: nat)
    requires ParseDecimal(t, maxDigits).Ok? && body == Literals.Unsigned(t) && at == Literals.IndexOf(body, '.', '.')
    ensures var whole, fraction := body[..at], if at < |body| then body[at + 1..] else "";
            AllDigits(whole) && AllDigits(fraction) && (whole != "" || fraction != "")
  {
    hide Literals.CountDigits, ToBytes, DecVal, AllDigits, Literals.IndexOf, Literals.Unsigned;
  }

  lemma {:induction false} Rejoined(t: string, body: string, at: nat)
    requires body == Literals.Unsigned(t) && at <= |body| && (at < |body| ==> body[at] == '.')
    ensures t == (if StartsMinus(t) then "-" else "") + (body[..at] + if at < |body| then "." + body[at + 1..] else "")
  {
    assert at < |body| ==> body[at..] == "." + body[at + 1..];
    assert body == body[..at] + body[at..];
    assert t == (if StartsMinus(t) then "-" else "") + body;
  }

  /** Nothing else is read as an integer. */
  lemma {:induction false} OnlyIntegers(t: string, maxDigits: nat)
    requires ParseBigInt(t, maxDigits).Ok?
    ensures exists s :: Proper(s) && !s.point && t == Text(s)
  {
    var body := Literals.Unsigned(t);
    var s := Spelling(StartsMinus(t), body, false, "");
    assert Proper(s);
    assert body + "" == body;
    assert t == (if s.minus then "-" else "") + body;
    assert t == Text(s);
    hide Literals.CountDigits, ToBytes, DecVal, AllDigits;
  }

  // How they are printed.

  /** No zero before another digit. */
  predicate Canonical(whole: string) {
    |whole| > 1 ==> whole[0] != '0'
  }

  /** A big integer is printed as its digits, with a minus when negative and not zero. */
  lemma {:induction false} IntegerPrinted(abs: seq<Byte>, negative: bool)
    requires FormatBigInt(abs, negative).Ok?
    ensures var n := BytesVal(abs);
            FormatBigInt(abs, negative).value == Text(Spelling(negative && n > 0, ToDec(n), false, ""))
  {
    var digits := ToDec(BytesVal(abs));
    ZeroIsZero(BytesVal(abs));
    hide ToDec, SignificantDigits;
    assert digits + "" == digits && "" + digits == digits;
  }

  lemma {:induction false} WholeCanonical(n: nat, scale: int)
    ensures Canonical(WholePart(ToDec(n), scale))
  {
    var digits := ToDec(n);
    ZeroIsZero(n);
    if scale <= 0 {
      assert WholePart(digits, scale)[0] == digits[0];
    } else if |digits| > scale {
      assert WholePart(digits, scale) == digits[..|digits| - scale];
    } else {
      assert |WholePart(digits, scale)| == 1;
    }
    hide ToDec;
  }

  /** A decimal is printed with its sign, as many digits after the point as its scale,
      or no point, and no zero before another digit. */
  lemma {:induction false} DecimalPrinted(unscaled: seq<Byte>, scale: int, negative: bool) returns (s: Spelling)
    requires FormatDecimal(unscaled, scale, negative).Ok?
    ensures Proper(s) && FormatDecimal(unscaled, scale, negative).value == Text(s)
    ensures s.minus == negative && s.point == (scale > 0) && |s.fraction| == (if scale > 0 then scale else 0)
    ensures s.whole != "" && Canonical(s.whole) && DecVal(s.whole + s.fraction) == Unscaled(BytesVal(unscaled), scale)
  {
    var n := BytesVal(unscaled);
    var digits := ToDec(n);
    var whole, fraction := WholePart(digits, scale), FractionPart(digits, scale);
    TextParts(n, scale);
    TextJoined(n, scale, negative);
    Printed(unscaled, scale, negative);
    WholeCanonical(n, scale);
    s := Spelling(negative, whole, scale > 0, fraction);
    TextParted(n, scale, whole, fraction);
    PointedText(s);
    hide ToDec, WholePart, FractionPart, TextIs, DecimalText, Canonical, Text, Unscaled, DecVal, AllDigits, Widened;
  }

  lemma {:induction false} TextParted(n: nat, scale: int, whole: string, fraction: string)
    requires TextIs(n, scale, whole, fraction)
    ensures whole != "" && AllDigits(whole) && AllDigits(fraction)
    ensures DecVal(whole + fraction) == Unscaled(n, scale) && |fraction| == (if scale > 0 then scale else 0)
  {
    hide SignificantDigits, DecVal, AllDigits, Unscaled;
  }

  lemma {:induction false} PointedText(s: Spelling)
    requires s.point == (s.fraction != "")
    ensures Text(s) == Signed(s.minus, s.whole, s.fraction)
  {}
}
