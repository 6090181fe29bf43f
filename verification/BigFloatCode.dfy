/** Reading and printing a BigFloat literal as they run: limb integers, digit
    buffers and character loops, equal to the specification. */
module BigFloatCode {
  import opened Bytes
  import opened Powers
  import opened Limbs
  import opened Decimals
  import opened BigUints
  import opened BigUintText
  import opened FloatCode
  import Floats
  import PowerOfFive
  import opened PowTwoDigits
  import opened ReadBack
  import opened DecimalRounding
  import opened Literals
  import opened BigFloats
  import opened DigitBuffer
  import RoundTrip

  /** The exponent's digits, accumulated in an i64 with checked steps. */
  method ExponentDigits(digits: string) returns (v: Result<int>)
    requires AllDigits(digits)
    ensures v == if DecVal(digits) > I64_MAX then Err(Invalid) else Ok(DecVal(digits))
  {
    var sum: int := 0;
    for i := 0 to |digits|
      invariant sum == DecVal(digits[..i]) <= I64_MAX
    {
      PrefixLe(digits, i + 1);
      assert digits[..i + 1][..i] == digits[..i];
      if sum * 10 > I64_MAX {
        return Err(Invalid);
      }
      sum := sum * 10;
      if sum + Digit(digits[i]) > I64_MAX {
        return Err(Invalid);
      }
      sum := sum + Digit(digits[i]);
    }
    assert digits[..|digits|] == digits;
    v := Ok(sum);
  }

  lemma PrefixLe(s: string, i: nat)
    requires AllDigits(s) && i <= |s|
    ensures DecVal(s[..i]) <= DecVal(s)
  {
    Cut(s, i);
    MulLe(DecVal(s[..i]), DecVal(s[..i]), 1, Pow(10, |s| - i));
  }

  method ReadExponent(e: string) returns (r: Result<int>)
    ensures r == ParseExponent(e)
  {
    hide DecVal;
    var sign := 1;
    var digits := e;
    if e != [] && e[0] == '+' {
      digits := e[1..];
    } else if e != [] && e[0] == '-' {
      sign, digits := -1, e[1..];
    }
    if digits == [] || !AllDigits(digits) {
      return Err(Invalid);
    }
    var v := ExponentDigits(digits);
    if v.Err? {
      return v;
    }
    r := Ok(sign * v.value);
  }

  method SplitLiteral(s: string, maxDigits: nat) returns (r: Result<Literal>)
    ensures r == Split(s, maxDigits)
  {
    hide ParseExponent, CountDigits, IndexOf;
    var body := Unsigned(s);
    var mantissa := MantissaText(body);
    if CountDigits(mantissa) > maxDigits {
      return Err(TooManyDigits);
    }
    var whole, fraction := Whole(mantissa), Literals.Fraction(mantissa);
    if !IsNumber(whole, fraction) {
      return Err(Invalid);
    }
    var exp10 := Ok(0);
    if |mantissa| < |body| {
      exp10 := ReadExponent(body[|mantissa| + 1..]);
      if exp10.Err? {
        return Err(exp10.error);
      }
    }
    r := Ok(Literal(s != [] && s[0] == '-', whole + fraction, |fraction|, exp10.value));
  }

  /** d * 10^exp5, with d in limbs, at prec bits. */
  method FromDecimalLimbs(d: BigUint, exp5: int, prec: nat) returns (r: LimbFl)
    requires d.Valid() && d.Value() > 0
    ensures Holds(r, FromDecimal(d.Value(), exp5, prec))
  {
    hide Floats.Mul, Floats.Quo, PowerOfFive.Pow5, Floats.RoundInto, Normal, Nat;
    var bits := d.BitLength();
    var digits := new BigUint.Clone(d);
    var exact := LimbFinite(digits, bits + exp5, bits % TWO32);
    if exp5 == 0 {
      r := FloatCode.RoundInto(d, bits, prec, false);
    } else if exp5 > 0 {
      var p := FloatCode.Pow5(exp5, prec + 64);
      r := FloatCode.Mul(exact, p, prec, ExactDecimal(d.Value(), exp5), PowerOfFive.Pow5(exp5, prec + 64));
    } else {
      var p := FloatCode.Pow5(-exp5, prec + 64);
      Pow5Positive(-exp5, prec + 64);
      r := FloatCode.Quo(exact, p, prec, ExactDecimal(d.Value(), exp5), PowerOfFive.Pow5(-exp5, prec + 64));
    }
  }

  method ReadPrecision(suffix: string, maxDigits: nat) returns (r: Result<nat>)
    ensures r == ReadPrec(suffix, maxDigits)
  {
    if suffix == [] {
      return Ok(BIG_FLOAT_PREC);
    }
    var p := ParseU32(suffix);
    if p == 0 {
      return Err(BadSuffix);
    }
    if BigFloatDigits(p) > maxDigits {
      return Err(SuffixTooWide);
    }
    r := Ok(p);
  }

  /** parse_big_float. */
  method ParseBigFloat(s: string, suffix: string, maxDigits: nat, maxExponent: nat) returns (r: Result<BigFloatLit>)
    ensures r == Parse(s, suffix, maxDigits, maxExponent)
  {
    hide Split, ReadPrec, FromDecimal, DecVal, HasNonZeroDigit, Unsigned, Normal, Nat;
    var prec := ReadPrecision(suffix, maxDigits);
    if prec.Err? {
      return Err(prec.error);
    }
    var l := SplitLiteral(s, maxDigits);
    if l.Err? {
      return Err(l.error);
    }
    SplitDigits(s, maxDigits);
    var value, f := ConvertLimbs(l.value, prec.value);
    if value.Err? {
      return Err(value.error);
    }
    r := EmitLimbs(value.value, f, l.value, Unsigned(s), suffix != [], prec.value, maxExponent);
  }

  /** The value of the digits, or the refusal of their exponent. */
  method ConvertLimbs(l: Literal, prec: nat) returns (r: Result<LimbFl>, ghost f: Floats.Fl)
    requires AllDigits(l.digits)
    ensures r.Ok? ==> Convert(l, prec) == Ok(f) && Holds(r.value, f)
    ensures r.Err? ==> Convert(l, prec) == Err(r.error)
  {
    hide FromDecimal, DecVal, Normal, Nat;
    f := Floats.Zero;
    var d := FromDecimalDigits(l.digits);
    if d.IsZero() {
      return Ok(LimbZero), f;
    }
    var exp5 := l.exp10 - l.places;
    if exp5 < I64_MIN {
      return Err(Invalid), f;
    }
    var exp2 := d.BitLength() + exp5;
    if exp2 < Floats.MIN_EXP || exp2 > Floats.MAX_EXP {
      return Err(Invalid), f;
    }
    f := FromDecimal(d.Value(), exp5, prec);
    var value := FromDecimalLimbs(d, exp5, prec);
    r := Ok(value);
  }

  method EmitLimbs(value: LimbFl, ghost f: Floats.Fl, l: Literal, body: string, suffixed: bool, readPrec: nat,
                   maxExponent: nat) returns (r: Result<BigFloatLit>)
    requires Holds(value, f)
    ensures r == Emit(f, l, body, suffixed, readPrec, maxExponent)
  {
    hide HasNonZeroDigit, ToBytes;
    match value
    case LimbInf => return Err(AboveRange);
    case LimbZero =>
      if HasNonZeroDigit(body) {
        return Err(BelowRange);
      }
      return Ok(BigFloatLit([], 0, if suffixed then readPrec else 0, l.negative));
    case LimbFinite(mant, exp, prec) =>
      if exp - prec < Floats.MIN_EXP {
        return Err(BelowWire);
      }
      if (if exp < 0 then -exp else exp) > maxExponent {
        return Err(ExponentTooLarge);
      }
      var bytes := ToBeBytes(mant);
      RoundTrip.BytesUnique(bytes, ToBytes(mant.Value()));
      r := Ok(BigFloatLit(bytes, exp - prec, prec, l.negative));
  }

  // Printing.

  /** The bit length of a big-endian mantissa, read off its bytes; none for zero. */
  method ValueBits(mantissa: seq<Byte>) returns (zero: bool, bits: nat)
    ensures zero <==> BytesVal(mantissa) == 0
    ensures !zero ==> bits == BitLen(BytesVal(mantissa))
  {
    bits := 0;
    var start := 0;
    assert mantissa[0..] == mantissa;
    while start < |mantissa| && mantissa[start] == 0
      invariant start <= |mantissa|
      invariant BytesVal(mantissa[start..]) == BytesVal(mantissa)
    {
      assert mantissa[start..][1..] == mantissa[start + 1..];
      TopByte(mantissa[start..]);
      start := start + 1;
    }
    zero := start == |mantissa|;
    if !zero {
      TopBits(mantissa[start..]);
      bits := 8 * (|mantissa| - start - 1) + BitLen(mantissa[start]);
    }
  }

  lemma TopBits(b: seq<Byte>)
    requires b != [] && b[0] != 0
    ensures BytesVal(b) > 0 && BitLen(BytesVal(b)) == 8 * (|b| - 1) + BitLen(b[0])
  {
    hide BitLen, Pow;
    var k, n := 8 * (|b| - 1), BitLen(b[0]);
    TopByte(b);
    BytesBelow(b[1..]);
    BitLenBounds(b[0]);
    PowAdd(2, n - 1, k);
    PowAdd(2, n, k);
    TopProduct(b[0], BytesVal(b[1..]), Pow(2, k), Pow(2, n - 1), Pow(2, n));
    BitLenUnique(BytesVal(b), n + k);
  }

  lemma TopProduct(top: nat, rest: nat, p: nat, lo: nat, hi: nat)
    requires rest < p && lo <= top < hi
    ensures lo * p <= top * p + rest < hi * p
  {
    MulLe(lo, top, p, p);
    MulLe(top + 1, hi, p, p);
  }

  lemma {:induction false} BytesBelow(b: seq<Byte>)
    ensures BytesVal(b) < Pow(256, |b|) && Pow(256, |b|) == Pow(2, 8 * |b|)
    decreases |b|
  {
    PowBytes(|b|, 0, 8 * |b|);
    if b != [] {
      BytesBelow(b[..|b| - 1]);
    }
  }

  method WriteE(out: string, prec: nat, d: string, dexp: int) returns (r: string)
    requires d != []
    ensures r == out + FmtE(prec, d, dexp)
  {
    hide ToDec, ExponentText;
    r := d[..1];
    if prec > 0 {
      r := r + ".";
      var m := if |d| < prec + 1 then |d| else prec + 1;
      var i := 1;
      if i < m {
        r := r + d[i..m];
        i := m;
      }
      ghost var head := r;
      while i <= prec
        invariant m <= i <= prec + 1 && r == head + Zeros(i - m)
      {
        assert Zeros(i - m) + "0" == Zeros(i + 1 - m);
        r := r + "0";
        i := i + 1;
      }
      assert r == d[..1] + ("." + d[1..m] + Zeros(prec + 1 - m));
    }
    r := r + "e";
    var exponent := WriteExponent(dexp - 1);
    r := out + (r + exponent);
  }

  method WriteExponent(exp: int) returns (r: string)
    ensures r == ExponentText(exp)
  {
    hide ToDec;
    r := if exp < 0 then "-" else "+";
    var a := if exp < 0 then -exp else exp;
    if a < 10 {
      r := r + "0";
    } else {
      assert r + "" == r;
    }
    r := r + ToDec(a);
  }

  method WriteF(out: string, prec: nat, d: string, dexp: int) returns (r: string)
    ensures r == out + FmtF(prec, d, dexp)
  {
    if dexp > 0 {
      var m := if |d| < dexp then |d| else dexp;
      r := d[..m];
      for i := m to dexp
        invariant r == d[..m] + Zeros(i - m)
      {
        assert Zeros(i - m) + "0" == Zeros(i + 1 - m);
        r := r + "0";
      }
    } else {
      r := "0";
    }
    if prec > 0 {
      ghost var whole := r;
      r := r + ".";
      for i := 0 to prec
        invariant r == whole + ("." + seq(i, j requires j >= 0 => DigitAt(d, dexp + j)))
      {
        r := r + [DigitAt(d, dexp + i)];
      }
    }
    r := out + r;
  }

  method WriteGeneral(out: string, d: string, dexp: int, digits: nat) returns (r: string)
    requires d != [] && digits > 0
    ensures r == out + General(d, dexp, digits)
  {
    hide FmtE, FmtF;
    var precG, eprec := digits, digits;
    if eprec > |d| && |d| >= dexp {
      eprec := |d|;
    }
    var exp10 := dexp - 1;
    if exp10 < -4 || exp10 >= eprec {
      if precG > |d| {
        precG := |d|;
      }
      r := WriteE(out, precG - 1, d, dexp);
    } else {
      if precG > dexp {
        precG := |d|;
      }
      r := WriteF(out, if precG - dexp > 0 then precG - dexp else 0, d, dexp);
    }
  }

  /** The exact decimal expansion of mant * 2^e, as digits and a point. */
  method Expand(mant: BigUint, e: int) returns (s: string, dexp: int)
    requires mant.Valid()
    ensures s == ToDec(Expansion(mant.Value(), e)) && dexp == |s| - Places(e)
  {
    hide ToDec, Normal, Nat;
    var n;
    if e >= 0 {
      n := mant.Shl(e);
    } else {
      var p := BigUintText.Pow5Exact(-e);
      n := mant.Mul(p);
    }
    s := ToDecimalString(n);
    dexp := |s| - Places(e);
  }

  /** format_big_float. */
  method FormatBigFloat(x: BigFloatLit) returns (r: Result<string>)
    ensures r == Format(x)
  {
    hide Floats.RoundInto, Number, BigFloatDigits, ToDec, Normal, Nat, BytesVal, BitLen;
    if x.prec == 0 {
      return Ok(Sign(x.negative) + "0");
    }
    var zero, bits := ValueBits(x.mantissa);
    if !zero && (if x.exponent + bits < 0 then -(x.exponent + bits) else x.exponent + bits) > MAX_BIG_FLOAT_EXPONENT {
      return Err(ExponentTooLarge);
    }
    var digits := BigFloatDigits(x.prec);
    if digits > MAX_NUMERIC_LITERAL_DIGITS {
      return Err(SuffixTooWide);
    }
    var m := FromBeBytes(x.mantissa);
    if m.IsZero() {
      return Ok(Sign(x.negative) + "0" + Suffix(x.prec));
    }
    var value := FloatCode.RoundInto(m, m.BitLength(), x.prec, false);
    if !value.LimbFinite? {
      return Err(NotFinite);
    }
    RoundedMantissa(m.Value(), x.prec);
    RoundTrip.MantissaPositive(value.mant.Value(), x.prec);
    var number := WriteNumber(value.mant, value.exp + x.exponent - x.prec, x.prec, x.negative);
    r := Ok(number + Suffix(x.prec));
  }

  method WriteNumber(mant: BigUint, e: int, prec: nat, negative: bool) returns (number: string)
    requires mant.Valid() && mant.Value() > 0
    ensures number == Number(mant.Value(), e, prec, negative)
  {
    hide Floats.RoundInto, General, Pow2Digits, ToDec, Normal, Nat, Significant, Excess, Expansion, Places;
    var digits := BigFloatDigits(prec);
    ExpansionValue(mant.Value(), e);
    WrittenPrintable(mant.Value(), e, digits);
    var s, point := Expand(mant, e);
    var d, dexp := RoundDigits(Expansion(mant.Value(), e), s, point, digits);
    number := WriteGeneral(Sign(negative), d, dexp, digits);
  }
}
