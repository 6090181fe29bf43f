/** BigFloat literal text: how a literal is taken apart, and the %g form it is
    printed in. */
module Literals {
  import opened Decimals

  datatype LiteralError =
    | BadSuffix
    | SuffixTooWide
    | TooManyDigits
    | Invalid
    | AboveRange
    | BelowRange
    | BelowWire
    | ExponentTooLarge
    | NotFinite

  datatype Result<+T> = Ok(value: T) | Err(error: LiteralError) {
    predicate IsFailure() {
      Err?
    }

    function PropagateFailure<U>(): Result<U>
      requires Err?
    {
      Err(error)
    }

    function Extract(): T
      requires Ok?
    {
      value
    }
  }

  const I64_MAX: int := 0x7fff_ffff_ffff_ffff
  const I64_MIN: int := -0x8000_0000_0000_0000

  /** A literal's parts: (-1)^negative * digits * 10^(exp10 - places). */
  datatype Literal = Literal(negative: bool, digits: string, places: nat, exp10: int)

  // Scanning.

  /** The first position of either character, or the length. */
  function IndexOf(s: string, a: char, b: char): (i: nat)
    ensures i <= |s|
    ensures forall j :: 0 <= j < i ==> s[j] != a && s[j] != b
    ensures i < |s| ==> s[i] == a || s[i] == b
  {
    if s == [] then 0
    else if s[0] == a || s[0] == b then 0
    else 1 + IndexOf(s[1..], a, b)
  }

  function CountDigits(s: string): (n: nat) {
    if s == [] then 0 else CountDigits(s[..|s| - 1]) + if IsDigit(s[|s| - 1]) then 1 else 0
  }

  /** The exponent after the e: an optional sign and decimal digits that fit i64. */
  function ParseExponent(e: string): Result<int> {
    var negative := e != [] && e[0] == '-';
    var digits := if e != [] && (e[0] == '+' || e[0] == '-') then e[1..] else e;
    if digits == [] || !AllDigits(digits) || DecVal(digits) > I64_MAX then Err(Invalid)
    else Ok(if negative then -(DecVal(digits) as int) else DecVal(digits))
  }

  function Unsigned(s: string): string {
    if s != [] && s[0] == '-' then s[1..] else s
  }

  /** The text before the exponent. */
  function MantissaText(body: string): string {
    body[..IndexOf(body, 'e', 'E')]
  }

  /** Digits with an optional point and fraction. */
  predicate IsNumber(whole: string, fraction: string) {
    (whole != [] || fraction != []) && AllDigits(whole) && AllDigits(fraction)
  }

  function Whole(mantissa: string): string {
    mantissa[..IndexOf(mantissa, '.', '.')]
  }

  function Fraction(mantissa: string): string {
    var dot := IndexOf(mantissa, '.', '.');
    if dot < |mantissa| then mantissa[dot + 1..] else ""
  }

  /** An optional minus, digits with an optional point, an optional exponent. */
  function Split(s: string, maxDigits: nat): Result<Literal> {
    var body := Unsigned(s);
    var mantissa := MantissaText(body);
    var whole, fraction := Whole(mantissa), Fraction(mantissa);
    if CountDigits(mantissa) > maxDigits then Err(TooManyDigits)
    else if !IsNumber(whole, fraction) then Err(Invalid)
    else
      var exp10 :- if |mantissa| == |body| then Ok(0) else ParseExponent(body[|mantissa| + 1..]);
      Ok(Literal(s != [] && s[0] == '-', whole + fraction, |fraction|, exp10))
  }

  // Printing.

  function Zeros(n: nat): (s: string)
    ensures |s| == n && AllDigits(s)
  {
    seq(n, i => '0')
  }

  /** d[0].d[1..]e±XX with prec digits after the point. */
  function FmtE(prec: nat, d: string, dexp: int): string
    requires d != []
  {
    var m := if |d| < prec + 1 then |d| else prec + 1;
    var fraction := if prec > 0 then "." + d[1..m] + Zeros(prec + 1 - m) else "";
    d[..1] + fraction + "e" + ExponentText(dexp - 1)
  }

  /** A sign and at least two digits. */
  function ExponentText(e: int): string {
    var a := if e < 0 then -e else e;
    (if e < 0 then "-" else "+") + (if a < 10 then "0" else "") + ToDec(a)
  }

  function DigitAt(d: string, j: int): char {
    if 0 <= j < |d| then d[j] else '0'
  }

  /** The integer part, and prec digits after the point. */
  function FmtF(prec: nat, d: string, dexp: int): string {
    var whole :=
      if dexp > 0 then
        var m := if |d| < dexp then |d| else dexp;
        d[..m] + Zeros(dexp - m)
      else "0";
    whole + if prec > 0 then "." + seq(prec, i requires i >= 0 => DigitAt(d, dexp + i)) else ""
  }

  /** Whether %g takes the exponent form, as the printer decides it. */
  predicate ExponentForm(d: string, dexp: int, digits: nat) {
    var eprec := if digits > |d| && |d| >= dexp then |d| else digits;
    dexp - 1 < -4 || dexp - 1 >= eprec
  }

  /** %g at `digits` significant digits, trailing zeros dropped. */
  function General(d: string, dexp: int, digits: nat): string
    requires d != [] && digits > 0
  {
    if ExponentForm(d, dexp, digits) then FmtE((if digits > |d| then |d| else digits) - 1, d, dexp)
    else
      var places := (if digits > dexp then |d| else digits) - dexp;
      FmtF(if places > 0 then places else 0, d, dexp)
  }

  /** The exponent form is chosen exactly when the decimal exponent is below -4
      or at least the number of digits. */
  lemma ExponentFormChosen(d: string, dexp: int, digits: nat)
    requires |d| <= digits
    ensures ExponentForm(d, dexp, digits) <==> dexp - 1 < -4 || dexp - 1 >= digits
  {}
}
