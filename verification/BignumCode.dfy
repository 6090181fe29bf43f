/** The bignum conversions and literals as they run. */
module BignumCode {
  import opened Bytes
  import opened Decimals
  import opened BigUintText
  import opened BigFloats
  import Literals
  import opened LiteralText
  import opened Bignums

  // Digits to bytes: multiply by ten and add, limb by limb.

  function Reversed<T>(s: seq<T>): (r: seq<T>)
    ensures |r| == |s|
  {
    if s == [] then [] else Reversed(s[1..]) + [s[0]]
  }

  lemma {:induction false} ReversedValue(s: seq<Byte>)
    ensures BytesVal(Reversed(s)) == FromLe(s)
    decreases |s|
  {
    if s != [] {
      ReversedValue(s[1..]);
      var r := Reversed(s);
      assert r[..|r| - 1] == Reversed(s[1..]);
    }
  }

  lemma {:induction false} ReversedFirst<T>(s: seq<T>)
    requires s != []
    ensures Reversed(s)[0] == s[|s| - 1]
    decreases |s|
  {
    if |s| > 1 {
      ReversedFirst(s[1..]);
    }
  }

  /** A carry's bytes, least significant first. */
  function LowBytes(c: nat): (s: seq<Byte>)
    ensures FromLe(s) == c && NoTopZero(s) && (s == [] <==> c == 0)
  {
    if c == 0 then [] else [c % 256] + LowBytes(c / 256)
  }

  predicate NoTopZero(s: seq<Byte>) {
    s != [] ==> s[|s| - 1] != 0
  }

  /** Ten times a little-endian number, plus a carry. */
  function TimesTen(s: seq<Byte>, carry: nat): (t: seq<Byte>)
    ensures FromLe(t) == 10 * FromLe(s) + carry
    ensures NoTopZero(s) ==> NoTopZero(t) && (s != [] ==> t != [])
    decreases |s|
  {
    if s == [] then LowBytes(carry)
    else
      var v: nat := s[0] * 10 + carry;
      var t := TimesTen(s[1..], v / 256);
      assert ([v % 256] + t)[1..] == t;
      [v % 256] + t
  }

  /** The loop over the limbs for one digit. */
  method TakeDigit(before: seq<Byte>, d: nat) returns (le: seq<Byte>)
    ensures le == TimesTen(before, d)
  {
    hide FromLe;
    le := before;
    var carry: nat := d;
    var k := 0;
    while k < |le|
      invariant k <= |le| == |before|
      invariant le[k..] == before[k..]
      invariant TimesTen(before, d) == le[..k] + TimesTen(before[k..], carry)
    {
      var v: nat := le[k] * 10 + carry;
      assert before[k..][1..] == before[k + 1..] && before[k..][0] == le[k];
      ghost var done := le[..k];
      ghost var rest := TimesTen(before[k + 1..], v / 256);
      assert done + ([v % 256] + rest) == (done + [v % 256]) + rest;
      le := le[k := v % 256];
      assert le[..k + 1] == done + [v % 256];
      carry := v / 256;
      k := k + 1;
    }
    assert before[k..] == [] && le[..k] == le;
    while carry > 0
      invariant TimesTen(before, d) == le + LowBytes(carry)
    {
      assert le + ([carry % 256] + LowBytes(carry / 256)) == (le + [carry % 256]) + LowBytes(carry / 256);
      le := le + [carry % 256];
      carry := carry / 256;
    }
  }

  /** decimal_digits_to_be_bytes */
  method DecimalDigitsToBeBytes(digits: string) returns (bytes: seq<Byte>)
    requires AllDigits(digits)
    ensures bytes == ToBytes(DecVal(digits))
  {
    hide TimesTen, FromLe, ToBytes, Reversed, BytesVal;
    var le: seq<Byte> := [];
    var i := 0;
    assert FromLe([]) == 0 by { NoBytes(); }
    while i < |digits|
      invariant i <= |digits| && FromLe(le) == DecVal(digits[..i]) && NoTopZero(le)
    {
      le := TakeDigit(le, Digit(digits[i]));
      assert digits[..i + 1][..i] == digits[..i];
      i := i + 1;
    }
    assert digits[..|digits|] == digits;
    bytes := Reversed(le);
    ReversedValue(le);
    if le != [] {
      ReversedFirst(le);
    }
    CanonicalBack(bytes);
  }

  lemma NoBytes()
    ensures FromLe([]) == 0
  {}

  // Bytes to digits: divide by ten, most significant byte first.

  /** One long division by ten in place: the quotient's bytes and the remainder. */
  method DivideByTen(mag: seq<Byte>) returns (quotient: seq<Byte>, rem: nat)
    ensures |quotient| == |mag| && BytesVal(mag) == 10 * BytesVal(quotient) + rem && rem < 10
  {
    quotient := mag;
    rem := 0;
    var i := 0;
    while i < |quotient|
      invariant i <= |quotient| == |mag| && rem < 10
      invariant quotient[i..] == mag[i..]
      invariant BytesVal(mag[..i]) == 10 * BytesVal(quotient[..i]) + rem
    {
      var v: nat := rem * 256 + quotient[i];
      ghost var done := quotient[..i];
      quotient := quotient[i := v / 10];
      assert mag[..i + 1][..i] == mag[..i];
      assert quotient[..i + 1][..i] == done;
      rem := v % 10;
      i := i + 1;
    }
    assert mag[..|mag|] == mag && quotient[..|quotient|] == quotient;
  }

  method SkipZeroBytes(bytes: seq<Byte>) returns (mag: seq<Byte>)
    ensures CanonicalBytes(mag) && BytesVal(mag) == BytesVal(bytes) && |mag| <= |bytes|
  {
    mag := bytes;
    while mag != [] && mag[0] == 0
      invariant BytesVal(mag) == BytesVal(bytes) && |mag| <= |bytes|
    {
      BytesAppend([0], mag[1..]);
      assert [0] + mag[1..] == mag;
      assert BytesVal([0]) == 0 by { assert [0 as Byte][..0] == []; }
      mag := mag[1..];
    }
  }

  /** The digits of n, or none for zero. */
  function Significant(n: nat): string {
    if n == 0 then [] else ToDec(n)
  }

  lemma SignificantStep(n: nat)
    requires n > 0
    ensures Significant(n) == Significant(n / 10) + [DigitChar(n % 10)]
  {}

  /** be_bytes_to_decimal */
  method BeBytesToDecimal(bytes: seq<Byte>) returns (text: string)
    ensures text == ToDec(BytesVal(bytes))
  {
    var mag := SkipZeroBytes(bytes);
    if mag == [] {
      assert ToDec(0) == "0";
      return "0";
    }
    NotZero(mag);
    text := CollectDigits(mag);
  }

  method CollectDigits(bytes: seq<Byte>) returns (text: string)
    requires CanonicalBytes(bytes)
    ensures text == Significant(BytesVal(bytes))
  {
    hide ToDec, BytesVal, Significant, Reversed, CanonicalBytes;
    var mag := bytes;
    var digits: string := [];
    NoDigits();
    while mag != []
      invariant CanonicalBytes(mag)
      invariant Significant(BytesVal(bytes)) == Significant(BytesVal(mag)) + Reversed(digits)
      decreases BytesVal(mag), |mag|
    {
      NotZero(mag);
      SignificantStep(BytesVal(mag));
      var quotient, rem := DivideByTen(mag);
      ghost var n := BytesVal(mag);
      mag := SkipZeroBytes(quotient);
      PushReversed(digits, DigitChar(rem));
      assert (Significant(n / 10) + [DigitChar(rem)]) + Reversed(digits) == Significant(n / 10) + ([DigitChar(rem)] + Reversed(digits));
      digits := digits + [DigitChar(rem)];
    }
    text := Reversed(digits);
    assert [] + text == text;
  }

  lemma NoDigits()
    ensures BytesVal([]) == 0 && Significant(0) == "" && Reversed<char>([]) == []
  {}

  lemma {:induction false} PushReversed(s: string, c: char)
    ensures Reversed(s + [c]) == [c] + Reversed(s)
    decreases |s|
  {
    if s == [] {
      assert ([] + [c])[1..] == [];
    } else {
      PushReversed(s[1..], c);
      assert (s + [c])[1..] == s[1..] + [c];
    }
  }

  // The literals.

  /** check_literal_digits */
  method CheckLiteralDigits(s: string, maxDigits: nat) returns (ok: bool)
    ensures ok <==> Literals.CountDigits(s) <= maxDigits
  {
    CountAtMost(s);
    if |s| <= maxDigits {
      return true;
    }
    var n := 0;
    var i := 0;
    while i < |s|
      invariant i <= |s| && n == Literals.CountDigits(s[..i])
    {
      assert s[..i + 1][..i] == s[..i];
      if IsDigit(s[i]) {
        n := n + 1;
      }
      i := i + 1;
    }
    assert s[..|s|] == s;
    ok := n <= maxDigits;
  }

  method IsAllDigits(s: string) returns (ok: bool)
    ensures ok <==> AllDigits(s)
  {
    var i := 0;
    while i < |s|
      invariant i <= |s| && AllDigits(s[..i])
    {
      if !IsDigit(s[i]) {
        return false;
      }
      i := i + 1;
    }
    ok := true;
  }

  method ReadBigInt(s: string, maxDigits: nat) returns (r: Outcome<BigIntLit>)
    ensures r == ParseBigInt(s, maxDigits)
  {
    hide Literals.CountDigits, ToBytes, DecVal;
    var within := CheckLiteralDigits(s, maxDigits);
    if !within {
      return Err(TooManyDigits);
    }
    var negative := s != [] && s[0] == '-';
    var digits := if negative then s[1..] else s;
    var numeric := IsAllDigits(digits);
    if digits == [] || !numeric {
      return Err(NotANumber);
    }
    var abs := DecimalDigitsToBeBytes(digits);
    ZeroBytes(DecVal(digits));
    r := Ok(BigIntLit(abs, negative && abs != []));
  }

  lemma ZeroBytes(n: nat)
    ensures ToBytes(n) == [] <==> n == 0
  {}

  lemma Concatenated(whole: string, fraction: string)
    ensures AllDigits(whole + fraction) <==> AllDigits(whole) && AllDigits(fraction)
  {
    var digits := whole + fraction;
    assert digits[..|whole|] == whole && digits[|whole|..] == fraction;
    assert AllDigits(digits) ==> AllDigits(digits[..|whole|]) && AllDigits(digits[|whole|..]);
  }

  method ReadDecimal(s: string, maxDigits: nat) returns (r: Outcome<DecimalLit>)
    ensures r == ParseDecimal(s, maxDigits)
  {
    hide Literals.CountDigits, Literals.IndexOf, ToBytes, AllDigits, DecVal;
    var within := CheckLiteralDigits(s, maxDigits);
    if !within {
      return Err(TooManyDigits);
    }
    var negative := s != [] && s[0] == '-';
    var body := if negative then s[1..] else s;
    var point := 0;
    while point < |body| && body[point] != '.'
      invariant point <= |body| && forall j :: 0 <= j < point ==> body[j] != '.'
    {
      point := point + 1;
    }
    IndexIs(body, '.', '.', point);
    var whole, fraction := body[..point], if point < |body| then body[point + 1..] else [];
    var digits := whole + fraction;
    var numeric := IsAllDigits(digits);
    Concatenated(whole, fraction);
    if digits == [] || !numeric {
      return Err(NotANumber);
    }
    var unscaled := DecimalDigitsToBeBytes(digits);
    r := Ok(DecimalLit(unscaled, if |fraction| > I32_MAX then I32_MAX else |fraction|, negative));
  }

  /** bound_literal */
  method BoundLiteral(s: string) returns (r: Outcome<string>)
    ensures r == Bounded(s)
  {
    if |s| <= MAX_NUMERIC_LITERAL_DIGITS {
      return Ok(s);
    }
    var i := 0;
    assert s[0..] == s;
    while i < |s| && !(IsDigit(s[i]) && s[i] != '0')
      invariant i <= |s| && SignificantDigits(s) == SignificantDigits(s[i..])
    {
      assert s[i..][1..] == s[i + 1..];
      i := i + 1;
    }
    var within := CheckLiteralDigits(s[i..], MAX_NUMERIC_LITERAL_DIGITS);
    r := if within then Ok(s) else Err(TooManyDigits);
  }

  method PrintBigInt(abs: seq<Byte>, negative: bool) returns (r: Outcome<string>)
    ensures r == FormatBigInt(abs, negative)
  {
    var digits := BeBytesToDecimal(abs);
    r := BoundLiteral(if negative && digits != "0" then "-" + digits else digits);
  }

  method PrintDecimal(unscaled: seq<Byte>, scale: int, negative: bool) returns (r: Outcome<string>)
    ensures r == FormatDecimal(unscaled, scale, negative)
  {
    hide SignificantDigits, ToDec, BytesVal;
    if scale > MAX_NUMERIC_LITERAL_DIGITS || -scale > MAX_NUMERIC_LITERAL_DIGITS {
      return Err(ScaleTooLarge);
    }
    var digits := BeBytesToDecimal(unscaled);
    var out := if negative then "-" else "";
    if scale <= 0 {
      out := out + (digits + if digits != "0" then ZeroDigits(-scale) else []);
      r := BoundLiteral(out);
      return;
    }
    if |digits| <= scale {
      digits := ZeroDigits(scale + 1 - |digits|) + digits;
    }
    var at := |digits| - scale;
    out := out + (digits[..at] + ("." + digits[at..]));
    r := BoundLiteral(out);
  }
}
