/** pxf.BigInt and pxf.Decimal: the wire messages, their literals, and what a
    printed literal reads back as. */
module Bignums {
  import opened Bytes
  import opened Powers
  import opened Decimals
  import opened BigUintText
  import opened BigFloats
  import Literals
  import opened LiteralText

  datatype Refusal = TooManyDigits | NotANumber | ScaleTooLarge
  datatype Outcome<T> = Ok(value: T) | Err(refusal: Refusal)

  /** The magnitude is big-endian, without leading zeros when it was parsed. */
  datatype BigIntLit = BigIntLit(abs: seq<Byte>, negative: bool)

  /** (-1)^negative * unscaled * 10^-scale */
  datatype DecimalLit = DecimalLit(unscaled: seq<Byte>, scale: int, negative: bool)

  const I32_MAX: int := 0x7fff_ffff

  // Reading.

  predicate StartsMinus(s: string) {
    s != [] && s[0] == '-'
  }

  function ParseBigInt(s: string, maxDigits: nat): Outcome<BigIntLit> {
    var digits := Literals.Unsigned(s);
    if Literals.CountDigits(s) > maxDigits then Err(TooManyDigits)
    else if digits == [] || !AllDigits(digits) then Err(NotANumber)
    else Ok(BigIntLit(ToBytes(DecVal(digits)), StartsMinus(s) && DecVal(digits) > 0))
  }

  /** The fraction's length, saturated. */
  function Scale(n: nat): int {
    if n > I32_MAX then I32_MAX else n
  }

  function ParseDecimal(s: string, maxDigits: nat): Outcome<DecimalLit> {
    var body := Literals.Unsigned(s);
    var point := Literals.IndexOf(body, '.', '.');
    var whole := body[..point];
    var fraction := if point < |body| then body[point + 1..] else [];
    if Literals.CountDigits(s) > maxDigits then Err(TooManyDigits)
    else if !Literals.IsNumber(whole, fraction) then Err(NotANumber)
    else Ok(DecimalLit(ToBytes(DecVal(whole + fraction)), Scale(|fraction|), StartsMinus(s)))
  }

  // Printing.

  /** The digits from the first that is not zero on. */
  function SignificantDigits(s: string): nat {
    if s == [] then 0 else if IsDigit(s[0]) && s[0] != '0' then Literals.CountDigits(s) else SignificantDigits(s[1..])
  }

  function Bounded(s: string): Outcome<string> {
    if |s| > MAX_NUMERIC_LITERAL_DIGITS && SignificantDigits(s) > MAX_NUMERIC_LITERAL_DIGITS then Err(TooManyDigits) else Ok(s)
  }

  function FormatBigInt(abs: seq<Byte>, negative: bool): Outcome<string> {
    var digits := ToDec(BytesVal(abs));
    Bounded(if negative && digits != "0" then "-" + digits else digits)
  }

  function ZeroDigits(n: nat): (s: string)
    ensures |s| == n && AllDigits(s) && DecVal(s) == 0
  {
    ZerosVal(n);
    seq(n, i => '0')
  }

  /** Leading zeros, so that a digit stands before the point. */
  function Widened(digits: string, scale: nat): string {
    if |digits| <= scale then ZeroDigits(scale + 1 - |digits|) + digits else digits
  }

  function DecimalText(digits: string, scale: int, negative: bool): string {
    var sign := if negative then "-" else "";
    if scale <= 0 then sign + (digits + if digits != "0" then ZeroDigits(-scale) else [])
    else
      var wide := Widened(digits, scale);
      sign + (wide[..|wide| - scale] + ("." + wide[|wide| - scale..]))
  }

  function FormatDecimal(unscaled: seq<Byte>, scale: int, negative: bool): Outcome<string> {
    if scale > MAX_NUMERIC_LITERAL_DIGITS || -scale > MAX_NUMERIC_LITERAL_DIGITS then Err(ScaleTooLarge)
    else Bounded(DecimalText(ToDec(BytesVal(unscaled)), scale, negative))
  }

  // Counting digits.

  lemma {:induction false} SkipZeros(n: nat, t: string)
    ensures SignificantDigits(ZeroDigits(n) + t) == SignificantDigits(t)
    decreases n
  {
    if n == 0 {
      assert ZeroDigits(0) + t == t;
    } else {
      assert (ZeroDigits(n) + t)[1..] == ZeroDigits(n - 1) + t;
      SkipZeros(n - 1, t);
    }
  }

  lemma SkipSign(negative: bool, t: string)
    ensures SignificantDigits((if negative then "-" else "") + t) == SignificantDigits(t)
    ensures Literals.CountDigits((if negative then "-" else "") + t) == Literals.CountDigits(t)
  {
    CountAppend(if negative then "-" else "", t);
    assert Literals.CountDigits("-") == 0;
    if negative {
      assert ("-" + t)[1..] == t;
    } else {
      assert "" + t == t;
    }
  }

  /** A point changes no count. */
  lemma {:induction false} SkipPoint(w: string, k: nat)
    requires AllDigits(w) && k <= |w|
    ensures Literals.CountDigits(w[..k] + ("." + w[k..])) == |w|
    ensures SignificantDigits(w[..k] + ("." + w[k..])) == SignificantDigits(w)
    decreases |w|
  {
    PointCounts(w, k);
    var t := w[..k] + ("." + w[k..]);
    if k == 0 {
      assert t[0] == '.' && t[1..] == w;
    } else {
      assert t[0] == w[0];
      if w[0] == '0' {
        SkipPoint(w[1..], k - 1);
        PointTail(w, k);
      } else {
        CountAll(w);
      }
    }
  }

  lemma {:induction false} PointTail(w: string, k: nat)
    requires 0 < k <= |w|
    ensures (w[..k] + ("." + w[k..]))[1..] == w[1..][..k - 1] + ("." + w[1..][k - 1..])
  {
    assert w[1..][k - 1..] == w[k..];
    assert (w[..k])[1..] == w[1..][..k - 1];
  }

  lemma {:induction false} PointCounts(w: string, k: nat)
    requires AllDigits(w) && k <= |w|
    ensures Literals.CountDigits(w[..k] + ("." + w[k..])) == |w|
  {
    CountAll(w[..k]);
    CountAll(w[k..]);
    CountAppend(w[..k], "." + w[k..]);
    CountAppend(".", w[k..]);
    assert Literals.CountDigits(".") == 0;
  }

  lemma SignificantOf(n: nat)
    ensures SignificantDigits(ToDec(n)) == if n == 0 then 0 else |ToDec(n)|
  {
    CountAll(ToDec(n));
    if n == 0 {
      assert ToDec(0) == "0" && SignificantDigits("0"[1..]) == 0;
    }
  }

  // Integers.

  /** The digits of a printed integer. */
  function IntDigits(n: nat): nat {
    if n == 0 then 0 else |ToDec(n)|
  }

  /** Any magnitude is printed exactly when it has few enough digits, and then read
      back with its sign and without leading zero bytes, or refused for its digits. */
  lemma BigIntReadsBack(abs: seq<Byte>, negative: bool, maxDigits: nat)
    ensures FormatBigInt(abs, negative).Ok? <==> IntDigits(BytesVal(abs)) <= MAX_NUMERIC_LITERAL_DIGITS
    ensures FormatBigInt(abs, negative).Ok? ==>
              ParseBigInt(FormatBigInt(abs, negative).value, maxDigits)
              == if |ToDec(BytesVal(abs))| > maxDigits then Err(TooManyDigits)
                 else Ok(BigIntLit(ToBytes(BytesVal(abs)), negative && BytesVal(abs) > 0))
  {
    var n := BytesVal(abs);
    var digits := ToDec(n);
    var minus := negative && digits != "0";
    ZeroIsZero(n);
    hide ToDec, ToBytes, SignificantDigits;
    SkipSign(minus, digits);
    SignificantOf(n);
    CountAll(digits);
    UnsignedOf(minus, digits);
    var s := (if minus then "-" else "") + digits;
    assert s == if minus then "-" + digits else digits;
    assert Literals.CountDigits(s) == |digits| && Literals.Unsigned(s) == digits;
  }

  lemma ZeroIsZero(n: nat)
    ensures ToDec(n) == "0" <==> n == 0
  {
    assert ToDec(0) == "0";
  }

  // Decimals.

  /** The digits a decimal's text has, leading zeros counted. */
  function TextDigits(n: nat, scale: int): nat {
    if scale <= 0 then |ToDec(n)| + if n > 0 then -scale else 0
    else if |ToDec(n)| <= scale then scale + 1 else |ToDec(n)|
  }

  /** The significant ones. */
  function SignificantText(n: nat, scale: int): nat {
    if n == 0 then 0 else if scale <= 0 then |ToDec(n)| + -scale else |ToDec(n)|
  }

  /** Scaled to no negative scale. */
  function Unscaled(n: nat, scale: int): nat {
    if scale < 0 then n * Pow(10, -scale) else n
  }

  function WholePart(digits: string, scale: int): string {
    if scale <= 0 then digits + (if digits != "0" then ZeroDigits(-scale) else [])
    else Widened(digits, scale)[..|Widened(digits, scale)| - scale]
  }

  function FractionPart(digits: string, scale: int): string {
    if scale <= 0 then [] else Widened(digits, scale)[|Widened(digits, scale)| - scale..]
  }

  /** The text's two parts: what they denote and how long they are. */
  ghost predicate TextIs(n: nat, scale: int, whole: string, fraction: string) {
    && Parts(whole, fraction)
    && DecVal(whole + fraction) == Unscaled(n, scale)
    && |fraction| == (if scale > 0 then scale else 0)
    && |whole| + |fraction| == TextDigits(n, scale)
    && SignificantDigits(Pointed(whole, fraction)) == SignificantText(n, scale)
  }

  lemma TextParts(n: nat, scale: int)
    ensures TextIs(n, scale, WholePart(ToDec(n), scale), FractionPart(ToDec(n), scale))
  {
    if scale <= 0 {
      WholeText(n, scale);
    } else {
      FractionText(n, scale);
    }
    hide *;
  }

  lemma WholeText(n: nat, scale: int)
    requires scale <= 0
    ensures TextIs(n, scale, WholePart(ToDec(n), scale), [])
  {
    hide TextIs, ToDec;
    ZeroIsZero(n);
    if n > 0 {
      PositiveText(n, -scale);
    } else {
      ZeroText(-scale);
    }
  }

  lemma ZeroText(zeros: nat)
    ensures ToDec(0) == "0" && TextIs(0, -(zeros as int), WholePart("0", -(zeros as int)), [])
  {
    assert ToDec(0) == "0" && "0" + [] == "0";
    SignificantOf(0);
    hide ToDec, ZeroDigits;
    assert "0"[..0] == "" && "0"[1..] == "";
  }

  lemma PositiveText(n: nat, zeros: nat)
    requires n > 0 && ToDec(n) != "0"
    ensures TextIs(n, -(zeros as int), WholePart(ToDec(n), -(zeros as int)), [])
  {
    SignificantOf(n);
    var digits := ToDec(n);
    var whole := digits + ZeroDigits(zeros);
    hide ToDec, DecVal, ZeroDigits;
    DecAppend(digits, ZeroDigits(zeros));
    CountAll(whole);
    assert whole[0] == digits[0];
    assert whole + [] == whole && Pointed(whole, []) == whole;
    assert zeros == 0 ==> Pow(10, zeros) == 1;
  }

  lemma WideText(digits: string, scale: nat)
    requires AllDigits(digits) && digits != []
    ensures var w := Widened(digits, scale);
            && AllDigits(w) && DecVal(w) == DecVal(digits) && SignificantDigits(w) == SignificantDigits(digits)
            && |w| == if |digits| <= scale then scale + 1 else |digits|
  {
    if |digits| <= scale {
      DecAppend(ZeroDigits(scale + 1 - |digits|), digits);
      SkipZeros(scale + 1 - |digits|, digits);
    }
  }

  lemma FractionText(n: nat, scale: nat)
    requires scale > 0
    ensures TextIs(n, scale, WholePart(ToDec(n), scale), FractionPart(ToDec(n), scale))
  {
    hide ToDec, SignificantDigits, DecVal, Widened, Pointed, Parts, AllDigits, Pow;
    var w := Widened(ToDec(n), scale);
    SignificantOf(n);
    WideText(ToDec(n), scale);
    CutText(w, |w| - scale);
  }

  lemma CutText(w: string, k: nat)
    requires AllDigits(w) && 0 < k < |w|
    ensures Parts(w[..k], w[k..]) && w[..k] + w[k..] == w
    ensures SignificantDigits(Pointed(w[..k], w[k..])) == SignificantDigits(w)
  {
    hide *;
    SkipPoint(w, k);
    CutParts(w, k);
  }

  lemma CutParts(w: string, k: nat)
    requires AllDigits(w) && 0 < k < |w|
    ensures Parts(w[..k], w[k..]) && w[..k] + w[k..] == w
    ensures Pointed(w[..k], w[k..]) == w[..k] + ("." + w[k..])
  {}

  /** A decimal is printed exactly when its scale and its significant digits are
      within the limit. It reads back with the same sign, magnitude and scale, or
      for a negative scale with the same value at scale zero; unless the digits of
      the text, leading zeros included, are too many. */
  lemma DecimalReadsBack(unscaled: seq<Byte>, scale: int, negative: bool, maxDigits: nat)
    requires scale <= I32_MAX
    ensures FormatDecimal(unscaled, scale, negative).Ok?
       <==> scale <= MAX_NUMERIC_LITERAL_DIGITS && -scale <= MAX_NUMERIC_LITERAL_DIGITS
            && SignificantText(BytesVal(unscaled), scale) <= MAX_NUMERIC_LITERAL_DIGITS
    ensures FormatDecimal(unscaled, scale, negative).Ok? ==>
              ParseDecimal(FormatDecimal(unscaled, scale, negative).value, maxDigits)
              == if TextDigits(BytesVal(unscaled), scale) > maxDigits then Err(TooManyDigits)
                 else Ok(DecimalLit(ToBytes(Unscaled(BytesVal(unscaled), scale)), if scale > 0 then scale else 0, negative))
  {
    hide *;
    var n := BytesVal(unscaled);
    var digits := ToDec(n);
    var whole, fraction := WholePart(digits, scale), FractionPart(digits, scale);
    TextParts(n, scale);
    TextJoined(n, scale, negative);
    PrintedBounds(n, scale, negative, whole, fraction);
    ReadText(n, scale, negative, whole, fraction, maxDigits);
    Printed(unscaled, scale, negative);
  }

  lemma Printed(unscaled: seq<Byte>, scale: int, negative: bool)
    ensures FormatDecimal(unscaled, scale, negative)
         == if scale > MAX_NUMERIC_LITERAL_DIGITS || -scale > MAX_NUMERIC_LITERAL_DIGITS then Err(ScaleTooLarge)
            else Bounded(DecimalText(ToDec(BytesVal(unscaled)), scale, negative))
  {}

  lemma TextJoined(n: nat, scale: int, negative: bool)
    requires TextIs(n, scale, WholePart(ToDec(n), scale), FractionPart(ToDec(n), scale))
    ensures DecimalText(ToDec(n), scale, negative)
         == Signed(negative, WholePart(ToDec(n), scale), FractionPart(ToDec(n), scale))
  {
    hide Widened, ZeroDigits, ToDec, SignificantDigits, DecVal, Unscaled, TextDigits, SignificantText;
    if scale <= 0 {
      var whole := WholePart(ToDec(n), scale);
      assert Pointed(whole, []) == whole;
    }
  }

  function Signed(negative: bool, whole: string, fraction: string): string {
    (if negative then "-" else "") + Pointed(whole, fraction)
  }

  lemma PrintedBounds(n: nat, scale: int, negative: bool, whole: string, fraction: string)
    requires TextIs(n, scale, whole, fraction)
    ensures Bounded(Signed(negative, whole, fraction))
         == if SignificantText(n, scale) > MAX_NUMERIC_LITERAL_DIGITS then Err(TooManyDigits)
            else Ok(Signed(negative, whole, fraction))
  {
    SkipSign(negative, Pointed(whole, fraction));
    SignificantAtMost(Signed(negative, whole, fraction));
    hide SignificantDigits, SignificantText, Pointed, Parts;
  }

  lemma ReadText(n: nat, scale: int, negative: bool, whole: string, fraction: string, maxDigits: nat)
    requires TextIs(n, scale, whole, fraction) && scale <= I32_MAX
    ensures ParseDecimal(Signed(negative, whole, fraction), maxDigits)
         == if TextDigits(n, scale) > maxDigits then Err(TooManyDigits)
            else Ok(DecimalLit(ToBytes(Unscaled(n, scale)), if scale > 0 then scale else 0, negative))
  {
    hide Literals.CountDigits, Literals.IndexOf, Literals.Unsigned, DecVal, ToBytes, SignificantDigits, TextDigits, SignificantText;
    hide Unscaled, Pointed, ParseDecimal, AllDigits;
    var body := Pointed(whole, fraction);
    PointedDigits(whole, fraction);
    FirstDigit(whole, fraction);
    SignedText(negative, body);
    PointIsAt(whole, fraction);
    ParseOf(Signed(negative, whole, fraction), maxDigits, body, whole, fraction, TextDigits(n, scale), Unscaled(n, scale), negative);
  }

  lemma FirstDigit(whole: string, fraction: string)
    requires Parts(whole, fraction)
    ensures Pointed(whole, fraction) != [] && IsDigit(Pointed(whole, fraction)[0])
  {
    assert Pointed(whole, fraction)[0] == whole[0];
  }

  lemma SignedText(negative: bool, body: string)
    requires body != [] && IsDigit(body[0])
    ensures var s := (if negative then "-" else "") + body;
            Literals.Unsigned(s) == body && StartsMinus(s) == negative && Literals.CountDigits(s) == Literals.CountDigits(body)
  {
    SkipSign(negative, body);
    UnsignedOf(negative, body);
  }

  lemma ParseOf(s: string, maxDigits: nat, body: string, whole: string, fraction: string, digits: nat, value: nat, negative: bool)
    requires Literals.Unsigned(s) == body && StartsMinus(s) == negative && Parts(whole, fraction)
    requires var point := Literals.IndexOf(body, '.', '.');
             body[..point] == whole && (if point < |body| then body[point + 1..] else []) == fraction
    requires Literals.CountDigits(s) == digits && DecVal(whole + fraction) == value && |fraction| <= I32_MAX
    ensures ParseDecimal(s, maxDigits)
         == if digits > maxDigits then Err(TooManyDigits) else Ok(DecimalLit(ToBytes(value), |fraction|, negative))
  {
    hide Literals.CountDigits, Literals.IndexOf, Literals.Unsigned, DecVal, ToBytes;
  }

  lemma {:induction false} SignificantAtMost(s: string)
    ensures SignificantDigits(s) <= |s|
    decreases |s|
  {
    CountAtMost(s);
    if s != [] {
      SignificantAtMost(s[1..]);
    }
  }

  lemma {:induction false} CountAtMost(s: string)
    ensures Literals.CountDigits(s) <= |s|
    decreases |s|
  {
    if s != [] {
      CountAtMost(s[..|s| - 1]);
    }
  }

  /** Where the parser splits the printed text. */
  lemma PointIsAt(whole: string, fraction: string)
    requires Parts(whole, fraction)
    ensures var body := Pointed(whole, fraction);
            var point := Literals.IndexOf(body, '.', '.');
            && body[..point] == whole
            && (if point < |body| then body[point + 1..] else []) == fraction
  {
    var t := Pointed(whole, fraction);
    hide Literals.IndexOf;
    assert forall j :: 0 <= j < |whole| ==> t[j] == whole[j] && IsDigit(whole[j]);
    IndexIs(t, '.', '.', |whole|);
  }

  /** Under the format's own limit, a printed decimal is refused exactly at the
      largest scale. */
  lemma LargestScaleRefused(unscaled: seq<Byte>, scale: int, negative: bool)
    requires FormatDecimal(unscaled, scale, negative).Ok?
    ensures ParseDecimal(FormatDecimal(unscaled, scale, negative).value, MAX_NUMERIC_LITERAL_DIGITS).Err?
       <==> scale == MAX_NUMERIC_LITERAL_DIGITS
  {
    hide ToDec, ParseDecimal;
    assert scale <= I32_MAX;
    DecimalReadsBack(unscaled, scale, negative, MAX_NUMERIC_LITERAL_DIGITS);
    assert BytesVal(unscaled) == 0 ==> |ToDec(BytesVal(unscaled))| == 1 by { ZeroIsZero(BytesVal(unscaled)); }
  }

  /** The decimal 1E-4096 is printed, and then refused. */
  lemma OneAtLargestScale()
    ensures FormatDecimal([1], MAX_NUMERIC_LITERAL_DIGITS, false).Ok?
    ensures ParseDecimal(FormatDecimal([1], MAX_NUMERIC_LITERAL_DIGITS, false).value, MAX_NUMERIC_LITERAL_DIGITS).Err?
  {
    assert BytesVal([1]) == 1 && |ToDec(1)| == 1 by { assert [1 as Byte][..0] == []; }
    hide ToDec, BytesVal, FormatDecimal, ParseDecimal;
    DecimalReadsBack([1], MAX_NUMERIC_LITERAL_DIGITS, false, MAX_NUMERIC_LITERAL_DIGITS);
    LargestScaleRefused([1], MAX_NUMERIC_LITERAL_DIGITS, false);
  }

  /** A magnitude without leading zero bytes comes back byte for byte. */
  lemma {:induction false} CanonicalBack(b: seq<Byte>)
    requires CanonicalBytes(b)
    ensures ToBytes(BytesVal(b)) == b
    decreases |b|
  {
    if b != [] {
      var high := b[..|b| - 1];
      CanonicalBack(high);
      assert BytesVal(b) / 256 == BytesVal(high) && BytesVal(b) % 256 == b[|b| - 1];
      if high == [] {
        assert b == [b[0]];
      }
      assert BytesVal(b) > 0 by { NotZero(b); }
      assert high + [b[|b| - 1]] == b;
    }
  }

  lemma {:induction false} NotZero(b: seq<Byte>)
    requires CanonicalBytes(b) && b != []
    ensures BytesVal(b) > 0
    decreases |b|
  {
    if |b| > 1 {
      NotZero(b[..|b| - 1]);
    }
  }
}
