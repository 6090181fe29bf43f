/** pxf.BigFloat: the wire message, its literal, and the two conversions. */
module BigFloats {
  import opened Bytes
  import opened Powers
  import opened Decimals
  import opened BigUintText
  import opened Floats
  import opened PowerOfFive
  import opened PowTwoDigits
  import opened ReadBack
  import opened DecimalRounding
  import opened Literals

  const BIG_FLOAT_PREC: nat := 256
  const MAX_NUMERIC_LITERAL_DIGITS: nat := 4096
  const MAX_BIG_FLOAT_EXPONENT: nat := 16384

  /** (-1)^negative * mantissa * 2^exponent, the mantissa big-endian and empty
      for zero. */
  datatype BigFloatLit = BigFloatLit(mantissa: seq<Byte>, exponent: int, prec: nat, negative: bool)

  // Reading.

  /** A Rust u32: an optional plus and digits, within 32 bits. */
  function ParseU32(s: string): (n: nat) {
    var digits := if s != [] && s[0] == '+' then s[1..] else s;
    if digits == [] || !AllDigits(digits) || DecVal(digits) >= TWO32 then 0 else DecVal(digits)
  }

  /** The precision a literal is read at; a suffix that is not a positive u32,
      or whose digits are too many, is refused. */
  function ReadPrec(suffix: string, maxDigits: nat): Result<nat> {
    if suffix == [] then Ok(BIG_FLOAT_PREC)
    else
      var p := ParseU32(suffix);
      if p == 0 then Err(BadSuffix)
      else if BigFloatDigits(p) > maxDigits then Err(SuffixTooWide)
      else Ok(p)
  }

  /** The digits' value at the literal's power of ten, rounded to prec bits. */
  function Convert(l: Literal, prec: nat): Result<Fl>
    requires AllDigits(l.digits)
  {
    var d := DecVal(l.digits);
    var exp5 := l.exp10 - l.places;
    if d == 0 then Ok(Zero)
    else if exp5 < I64_MIN then Err(Invalid)
    else
      var exp2 := BitLen(d) + exp5;
      if exp2 < MIN_EXP || exp2 > MAX_EXP then Err(Invalid) else Ok(FromDecimal(d, exp5, prec))
  }

  predicate HasNonZeroDigit(s: string) {
    s != [] && s[0] != 'e' && s[0] != 'E' && ('1' <= s[0] <= '9' || HasNonZeroDigit(s[1..]))
  }

  /** A magnitude as the wire carries it: big-endian, no leading zero byte. */
  function ToBytes(n: nat): (b: seq<Byte>)
    ensures CanonicalBytes(b) && BytesVal(b) == n
  {
    if n == 0 then []
    else
      var high := ToBytes(n / 256);
      assert (high + [n % 256])[..|high|] == high;
      high + [n % 256]
  }

  function Emit(value: Fl, l: Literal, body: string, suffixed: bool, readPrec: nat, maxExponent: nat): Result<BigFloatLit> {
    match value
    case Inf => Err(AboveRange)
    case Zero =>
      if HasNonZeroDigit(body) then Err(BelowRange)
      else Ok(BigFloatLit([], 0, if suffixed then readPrec else 0, l.negative))
    case Finite(mant, exp, prec) =>
      if exp - prec < MIN_EXP then Err(BelowWire)
      else if (if exp < 0 then -exp else exp) > maxExponent then Err(ExponentTooLarge)
      else Ok(BigFloatLit(ToBytes(mant), exp - prec, prec, l.negative))
  }

  lemma SplitDigits(s: string, maxDigits: nat)
    ensures Split(s, maxDigits).Ok? ==> AllDigits(Split(s, maxDigits).value.digits)
  {}

  /** parse_big_float. */
  function Parse(s: string, suffix: string, maxDigits: nat, maxExponent: nat): Result<BigFloatLit> {
    var prec :- ReadPrec(suffix, maxDigits);
    SplitDigits(s, maxDigits);
    var l :- Split(s, maxDigits);
    var value :- Convert(l, prec);
    Emit(value, l, Unsigned(s), suffix != [], prec, maxExponent)
  }

  /** parse_big_float_default: the suffix is part of the string, the limits are
      the constants. */
  function ParseDefault(s: string): Result<BigFloatLit> {
    var p := IndexOf(s, 'p', 'p');
    if p < |s| then
      if s[p + 1..] == [] then Err(BadSuffix)
      else Parse(s[..p], s[p + 1..], MAX_NUMERIC_LITERAL_DIGITS, MAX_BIG_FLOAT_EXPONENT)
    else Parse(s, "", MAX_NUMERIC_LITERAL_DIGITS, MAX_BIG_FLOAT_EXPONENT)
  }

  // Writing.

  function TrimZeros(s: string): (t: string)
    ensures |t| <= |s| && t == s[..|t|]
    ensures t != [] ==> t[|t| - 1] != '0'
  {
    if s != [] && s[|s| - 1] == '0' then TrimZeros(s[..|s| - 1]) else s
  }

  /** The significant digits written for m * 2^e, trailing zeros dropped. */
  function WrittenDigits(m: nat, e: int, digits: nat): string {
    TrimZeros(ToDec(Significant(Expansion(m, e), digits)))
  }

  /** Where the decimal point stands before those digits. */
  function WrittenPoint(m: nat, e: int, digits: nat): int {
    var n := Expansion(m, e);
    |ToDec(Significant(n, digits))| + Excess(n, digits) - Places(e)
  }

  function Sign(negative: bool): string {
    if negative then "-" else ""
  }

  function Suffix(prec: nat): string {
    "p" + ToDec(prec)
  }

  /** The wire exponent and the mantissa's bit length bound the value. */
  predicate ExponentInBounds(m: nat, exponent: int) {
    m == 0 || -(MAX_BIG_FLOAT_EXPONENT as int) <= exponent + BitLen(m) <= MAX_BIG_FLOAT_EXPONENT
  }

  lemma RoundedMantissa(m: nat, prec: nat)
    requires m > 0 && prec > 0
    ensures var f := RoundInto(m, BitLen(m), prec, false);
            f.Finite? ==> Normalized(f) && f.prec == prec && BitLen(m) <= f.exp <= BitLen(m) + 1
  {
    RoundedExponent(m, prec);
    hide RoundInto, BitLen, RoundsTo, Carries, InBits;
    FiniteInRange(m, BitLen(m), prec, false);
    if RoundInto(m, BitLen(m), prec, false).Finite? {
      UnitScale(m);
      RoundIntoNearest(m, BitLen(m), prec, false, m as real, 0.0);
      FiniteRound(m as real, RoundInto(m, BitLen(m), prec, false), prec);
    }
  }

  lemma RoundedExponent(m: nat, prec: nat)
    ensures var f := RoundInto(m, BitLen(m), prec, false);
            f.Finite? ==> BitLen(m) <= f.exp <= BitLen(m) + 1
  {
    hide BitLen, Rounded, Pow;
  }

  /** The digits written are at most as many as asked for, and none of the outer
      ones is zero. */
  lemma WrittenPrintable(m: nat, e: int, digits: nat)
    requires m > 0 && digits > 0
    ensures var d := WrittenDigits(m, e, digits);
            && d != [] && AllDigits(d) && |d| <= digits
            && d[0] != '0' && d[|d| - 1] != '0'
  {
    hide Significant, Expansion, Excess;
    ExpansionValue(m, e);
    var n := Expansion(m, e);
    var q := Significant(n, digits);
    SignificantRange(n, digits);
    TrimmedLength(q, digits);
  }

  lemma TrimmedLength(q: nat, digits: nat)
    requires 0 < q && digits > 0 && (q <= Pow(10, digits) || |ToDec(q)| <= digits)
    ensures var d := TrimZeros(ToDec(q));
            d != [] && |d| <= digits && d[0] != '0' && d[|d| - 1] != '0' && AllDigits(d)
  {
    hide ToDec;
    var s := ToDec(q);
    TrimKeeps(s);
    if |s| > digits {
      ToDecLength(q);
      PowOfTenDigits(q, digits);
    }
  }

  lemma {:induction false} TrimKeeps(s: string)
    requires s != [] && s[0] != '0'
    ensures TrimZeros(s) != []
    decreases |s|
  {
    if |s| > 1 {
      TrimKeeps(s[..|s| - 1]);
    }
  }

  /** The one power of ten among the rounded values ends in a zero. */
  lemma PowOfTenDigits(q: nat, digits: nat)
    requires 0 < q <= Pow(10, digits) && digits > 0 && |ToDec(q)| > digits
    ensures TrimZeros(ToDec(q)) == TrimZeros(ToDec(q)[..|ToDec(q)| - 1]) && |ToDec(q)| == digits + 1
  {
    hide ToDec;
    var s := ToDec(q);
    ToDecLength(q);
    PowMono(10, digits, |s| - 1);
    assert q == Pow(10, digits) == 10 * Pow(10, digits - 1);
    if |s| - 1 > digits {
      PowStrict(10, digits, |s| - 1);
    }
    LastDigit(s, Pow(10, digits - 1));
  }

  lemma LastDigit(s: string, n: nat)
    requires s != [] && AllDigits(s) && DecVal(s) == 10 * n
    ensures s[|s| - 1] == '0'
  {}

  /** format_big_float. */
  function Format(x: BigFloatLit): Result<string> {
    var m, digits := BytesVal(x.mantissa), BigFloatDigits(x.prec);
    if x.prec == 0 then Ok(Sign(x.negative) + "0")
    else if !ExponentInBounds(m, x.exponent) then Err(ExponentTooLarge)
    else if digits > MAX_NUMERIC_LITERAL_DIGITS then Err(SuffixTooWide)
    else if m == 0 then Ok(Sign(x.negative) + "0" + Suffix(x.prec))
    else
      var value := RoundInto(m, BitLen(m), x.prec, false);
      if !value.Finite? then Err(NotFinite)
      else
        RoundedMantissa(m, x.prec);
        Ok(Number(value.mant, value.exp + x.exponent - x.prec, x.prec, x.negative) + Suffix(x.prec))
  }

  /** The literal of m * 2^e, without its suffix. */
  function Number(m: nat, e: int, prec: nat, negative: bool): string
    requires m > 0
  {
    var digits := BigFloatDigits(prec);
    WrittenPrintable(m, e, digits);
    Sign(negative) + General(WrittenDigits(m, e, digits), WrittenPoint(m, e, digits), digits)
  }
}
