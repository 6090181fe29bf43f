/** A message whose literal is refused for its leading zeros alone. */
module LeadingZeros {
  import opened Powers
  import opened Decimals
  import opened BigUintText
  import opened Floats
  import opened PowTwoDigits
  import opened DecimalRounding
  import opened Literals
  import opened LiteralText
  import opened BigFloats
  import opened RoundTrip

  // Digits that need no rounding.

  lemma TenTimesZeros(k: nat, z: nat)
    requires k > 0
    ensures ToDec(k * Pow(10, z)) == ToDec(k) + Zeros(z)
  {
    hide ToDec;
    var s := ToDec(k) + Zeros(z);
    ZerosVal(z);
    DecAppend(ToDec(k), Zeros(z));
    ToDecUnique(s);
  }

  lemma {:induction false} TrimTail(s: string, z: nat)
    requires s != "" && s[|s| - 1] != '0'
    ensures TrimZeros(s + Zeros(z)) == s
    decreases z
  {
    if z == 0 {
      assert s + Zeros(0) == s;
    } else {
      TrimTail(s, z - 1);
      assert (s + Zeros(z))[..|s| + z - 1] == s + Zeros(z - 1);
    }
  }

  lemma LastNotZero(k: nat)
    requires k % 10 != 0
    ensures ToDec(k)[|ToDec(k)| - 1] != '0'
  {
    assert DecVal(ToDec(k)) % 10 == Digit(ToDec(k)[|ToDec(k)| - 1]);
  }

  lemma DivExact(n: nat, d: nat, q: nat)
    requires d > 0 && n == q * d
    ensures DivHalfEven(n, d) == q
  {
    DivModUnique(n, d, q, 0);
  }

  lemma ExactSignificant(k: nat, z: nat, digits: nat)
    requires k > 0 && |ToDec(k)| <= digits
    ensures var n := k * Pow(10, z);
            Excess(n, digits) <= z && Significant(n, digits) == k * Pow(10, z - Excess(n, digits))
  {
    hide ToDec, Pow, DivHalfEven;
    var n := k * Pow(10, z);
    TenTimesZeros(k, z);
    var drop := Excess(n, digits);
    PowAdd(10, z - drop, drop);
    Assoc(k, Pow(10, z - drop), Pow(10, drop));
    DivExact(n, Pow(10, drop), k * Pow(10, z - drop));
  }

  /** Zeros past the digits asked for are dropped, and the rest is kept. */
  lemma ExactDigits(k: nat, z: nat, digits: nat)
    requires k > 0 && k % 10 != 0 && |ToDec(k)| <= digits
    ensures var n := k * Pow(10, z);
            && TrimZeros(ToDec(Significant(n, digits))) == ToDec(k)
            && |ToDec(Significant(n, digits))| + Excess(n, digits) == |ToDec(k)| + z
  {
    hide *;
    LastNotZero(k);
    ExactSignificant(k, z, digits);
    var drop := Excess(k * Pow(10, z), digits);
    TenTimesZeros(k, z - drop);
    TrimTail(ToDec(k), z - drop);
  }

  // A number between 2^-10 and 2^-9.

  /** s * 2^-places is at least 2^-10 and below 2^-9. */
  ghost predicate Small(s: nat, places: nat) {
    places >= 10 && s % 2 == 1 && Pow(2, places - 10) <= s < Pow(2, places - 9)
  }

  lemma {:induction false} FiveOdd(n: nat)
    ensures Pow(5, n) % 2 == 1
    decreases n
  {
    if n > 0 {
      FiveOdd(n - 1);
    }
  }

  lemma OddProduct(a: nat, b: nat)
    requires a % 2 == 1 && b % 2 == 1
    ensures (a * b) % 10 != 0
  {
    var x, y := a / 2, b / 2;
    assert a * b == 2 * (2 * x * y + x + y) + 1;
    assert (a * b) % 2 == 1;
  }

  /** Its decimal expansion has that many places, and its first digit is the third
      or fourth of them. */
  lemma SmallDigits(s: nat, places: nat)
    requires Small(s, places)
    ensures var k := s * Pow(5, places);
            k > 0 && k % 10 != 0 && places - 3 <= |ToDec(k)| <= places - 2
  {
    hide ToDec;
    var f := Pow(5, places);
    var k := s * f;
    FiveOdd(places);
    OddProduct(s, f);
    PowAdd(2, places - 10, 10);
    PowOfProduct(2, 5, places);
    PowAdd(10, places - 4, 4);
    PowAdd(10, places - 2, 2);
    SmallConstants();
    PowAdd(2, places - 10, 1);
    hide Pow;
    Scaled(s, f, Pow(2, places - 10), Pow(10, places), Pow(10, places - 4), Pow(10, places - 2));
    ToDecLength(k);
    PowLtImpliesLt(10, places - 4, |ToDec(k)|);
    PowLtImpliesLt(10, |ToDec(k)| - 1, places - 2);
  }

  lemma SmallConstants()
    ensures Pow(2, 1) == 2 && Pow(2, 10) == 1024 && Pow(10, 2) == 100 && Pow(10, 4) == 10000
  {
    assert Pow(2, 5) == 32;
    PowAdd(2, 5, 5);
  }

  lemma Scaled(s: nat, f: nat, two: nat, ten: nat, tenLess4: nat, tenLess2: nat)
    requires f > 0 && two <= s < two * 2 && ten == (two * 1024) * f && ten == tenLess4 * 10000 && ten == tenLess2 * 100
    ensures 0 < tenLess4 <= s * f < tenLess2
  {
    var k := s * f;
    MulLe(two, s, f, f);
    MulLt(s, two * 2, f);
    Regrouped(two, f);
    assert ten <= 1024 * k;
    assert 512 * k < ten;
    assert two * f > 0 by { MulLt(0, two, f); }
  }

  lemma Regrouped(two: nat, f: nat)
    ensures (two * 1024) * f == 1024 * (two * f) && (two * 2) * f == 2 * (two * f)
  {}

  lemma SmallExpansion(s: nat, places: nat, z: nat)
    requires s > 0
    ensures s * Pow(2, z) > 0
    ensures Expansion(s * Pow(2, z), -((places + z) as int)) == (s * Pow(5, places)) * Pow(10, z)
  {
    PowAdd(5, places, z);
    PowOfProduct(2, 5, z);
    hide Pow;
    Shuffled(s, Pow(2, z), Pow(5, places), Pow(5, z));
    MulLt(0, s, Pow(2, z));
    if places + z == 0 {
      NoPowers();
    }
  }

  lemma NoPowers()
    ensures Pow(2, 0) == 1 && Pow(5, 0) == 1 && Pow(10, 0) == 1
  {}

  lemma FixedDigits(d: string, dexp: int, digits: nat)
    requires d != "" && -3 <= dexp <= 0 && |d| <= digits && digits > 0
    ensures |PrintedWhole(d, dexp, digits)| + |PrintedFraction(d, dexp, digits)| == 1 - dexp + |d|
  {}

  lemma DigitsPrinted(m: nat, e: int, p: nat, d: string, dexp: int)
    requires m > 0 && d != "" && d == WrittenDigits(m, e, BigFloatDigits(p)) && dexp == WrittenPoint(m, e, BigFloatDigits(p))
    ensures TextDigits(m, e, p)
         == |PrintedWhole(d, dexp, BigFloatDigits(p))| + |PrintedFraction(d, dexp, BigFloatDigits(p))|
  {
    hide WrittenDigits, WrittenPoint, PrintedWhole, PrintedFraction, BigFloatDigits;
  }

  /** The text has a digit before the point and one for each place. */
  lemma SmallText(s: nat, places: nat, z: nat, p: nat)
    requires Small(s, places) && places - 2 <= BigFloatDigits(p)
    ensures s * Pow(2, z) > 0 && TextDigits(s * Pow(2, z), -((places + z) as int), p) == places + 1
  {
    hide Pow, ToDec, BigFloatDigits, Expansion, Significant, Excess, TextDigits, PrintedWhole, PrintedFraction;
    var k, d := s * Pow(5, places), ToDec(s * Pow(5, places));
    var m, e := s * Pow(2, z), -((places + z) as int);
    SmallDigits(s, places);
    SmallExpansion(s, places, z);
    ExactDigits(k, z, BigFloatDigits(p));
    DigitsPrinted(m, e, p, d, |d| - places);
    FixedDigits(d, |d| - places, BigFloatDigits(p));
  }

  lemma Shuffled(s: nat, a: nat, b: nat, c: nat)
    ensures (s * a) * (b * c) == (s * b) * (a * c)
  {
    Assoc(s, a, b * c);
    Assoc(s, b, a * c);
    Assoc(a, b, c);
    Assoc(b, a, c);
  }

  // The message.

  const PRECISION: nat := 13601
  const PLACES: nat := 4096
  const ZEROS: nat := 9514

  /** 2^4086 + 1 in the top bits of 13601, at exponent -13610. */
  ghost function Message(): BigFloatLit {
    BigFloatLit(ToBytes((Pow(2, PLACES - 10) + 1) * Pow(2, ZEROS)), -13610, PRECISION, false)
  }

  lemma PrecisionDigits()
    ensures BigFloatDigits(PRECISION) == 4096
  {}

  lemma InPrecision(s: nat, places: nat, z: nat)
    requires Small(s, places)
    ensures InBits(s * Pow(2, z), places - 9 + z)
  {
    PowAdd(2, places - 10, z);
    PowAdd(2, places - 9, z);
    hide Pow;
    MulLe(Pow(2, places - 10), s, Pow(2, z), Pow(2, z));
    MulLt(s, Pow(2, places - 9), Pow(2, z));
  }

  lemma SmallMantissa(places: nat)
    requires places > 10
    ensures Small(Pow(2, places - 10) + 1, places)
  {
    var a := Pow(2, places - 11);
    assert Pow(2, places - 10) == 2 * a && Pow(2, places - 9) == 2 * Pow(2, places - 10);
    hide Pow;
    assert (2 * a + 1) % 2 == 1;
  }

  lemma MessageFormats(m: nat)
    requires InBits(m, PRECISION)
    ensures var x := BigFloatLit(ToBytes(m), -13610, PRECISION, false);
            Format(x).Ok? && BytesVal(x.mantissa) == m > 0 && Value(x) == Finite(m, -9, PRECISION)
  {
    hide Number, Suffix, BitLen, RoundInto, BigFloatDigits, ToBytes, Pow;
    MantissaPositive(m, PRECISION);
    PrecisionDigits();
    FullValue(m, PRECISION);
    RoundedMantissa(m, PRECISION);
  }

  /** The message is in normal form, within every bound, and is printed; its literal
      has 4097 digits, three of them leading zeros after the point, and is refused. */
  lemma LeadingZerosRefused()
    ensures Format(Message()).Ok? && InBits(BytesVal(Message().mantissa), PRECISION)
    ensures ParseDefault(Format(Message()).value) == Err(TooManyDigits)
  {
    hide Pow, InBits, TextDigits, Format, ParseDefault, Value, BytesVal, BigFloatDigits, ToBytes, Small;
    var s := Pow(2, PLACES - 10) + 1;
    var m := s * Pow(2, ZEROS);
    SmallMantissa(PLACES);
    InPrecision(s, PLACES, ZEROS);
    MessageFormats(m);
    PrecisionDigits();
    SmallText(s, PLACES, ZEROS, PRECISION);
    DefaultReadsBack(Message());
  }
}
