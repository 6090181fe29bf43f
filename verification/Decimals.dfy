/** Decimal digit strings and the naturals they denote. */
module Decimals {
  import opened Powers

  predicate IsDigit(c: char) {
    '0' <= c <= '9'
  }

  predicate AllDigits(s: string) {
    forall i :: 0 <= i < |s| ==> IsDigit(s[i])
  }

  function Digit(c: char): (d: nat)
    requires IsDigit(c)
    ensures d < 10
  {
    c as int - '0' as int
  }

  function DigitChar(d: nat): (c: char)
    requires d < 10
    ensures IsDigit(c) && Digit(c) == d
  {
    ('0' as int + d) as char
  }

  /** The number a digit string denotes, most significant digit first. */
  function DecVal(s: string): nat
    requires AllDigits(s)
  {
    if s == [] then 0 else 10 * DecVal(s[..|s| - 1]) + Digit(s[|s| - 1])
  }

  /** The canonical decimal digits of n: no leading zero except for zero. */
  function ToDec(n: nat): (s: string)
    ensures s != [] && AllDigits(s) && DecVal(s) == n
    ensures n > 0 ==> s[0] != '0'
    decreases n
  {
    if n < 10 then
      assert DecVal([]) == 0;
      [DigitChar(n)]
    else
      var t := ToDec(n / 10);
      SnocVal(t, n % 10);
      t + [DigitChar(n % 10)]
  }

  lemma SnocVal(t: string, d: nat)
    requires AllDigits(t) && d < 10
    ensures AllDigits(t + [DigitChar(d)]) && DecVal(t + [DigitChar(d)]) == 10 * DecVal(t) + d
  {
    var s := t + [DigitChar(d)];
    assert s[..|s| - 1] == t;
  }

  lemma {:induction false} DecAppend(s: string, t: string)
    requires AllDigits(s) && AllDigits(t)
    ensures DecVal(s + t) == DecVal(s) * Pow(10, |t|) + DecVal(t)
    decreases |t|
  {
    if t == [] {
      assert s + t == s;
    } else {
      var u := t[..|t| - 1];
      DecAppend(s, u);
      assert (s + t)[..|s + t| - 1] == s + u;
      Assoc(10, DecVal(s), Pow(10, |u|));
      Assoc(DecVal(s), 10, Pow(10, |u|));
    }
  }

  lemma {:induction false} DecBound(s: string)
    requires AllDigits(s)
    ensures DecVal(s) < Pow(10, |s|)
    decreases |s|
  {
    if s != [] {
      DecBound(s[..|s| - 1]);
    }
  }

  lemma DecLower(s: string)
    requires AllDigits(s) && s != [] && s[0] != '0'
    ensures DecVal(s) >= Pow(10, |s| - 1)
  {
    DecAppend(s[..1], s[1..]);
    assert s[..1] + s[1..] == s;
    assert DecVal(s[..1]) == Digit(s[0]) by { assert s[..1][..0] == []; }
    MulLe(1, Digit(s[0]), Pow(10, |s| - 1), Pow(10, |s| - 1));
  }

  /** Leading zeros denote nothing; a canonical string is the only one without. */
  lemma {:induction false} DecUnique(s: string, t: string)
    requires AllDigits(s) && AllDigits(t) && |s| == |t| && DecVal(s) == DecVal(t)
    ensures s == t
    decreases |s|
  {
    if s != [] {
      var k := |s| - 1;
      assert Digit(s[k]) == Digit(t[k]);
      assert DecVal(s[..k]) == DecVal(t[..k]);
      DecUnique(s[..k], t[..k]);
      assert s == s[..k] + [s[k]] && t == t[..k] + [t[k]];
    }
  }

  lemma ToDecUnique(s: string)
    requires AllDigits(s) && s != [] && s[0] != '0'
    ensures ToDec(DecVal(s)) == s
  {
    var n := DecVal(s);
    var t := ToDec(n);
    DecLower(s);
    DecBound(s);
    DecLower(t);
    DecBound(t);
    PowInterval(10, n, |s|, |t|);
    DecUnique(s, t);
  }

  lemma ToDecLength(n: nat)
    requires n > 0
    ensures Pow(10, |ToDec(n)| - 1) <= n < Pow(10, |ToDec(n)|)
  {
    DecLower(ToDec(n));
    DecBound(ToDec(n));
  }

  /** n in exactly w digits, zeros first. */
  function Padded(n: nat, w: nat): (s: string)
    requires w > 0 && n < Pow(10, w)
    ensures |s| == w && AllDigits(s) && DecVal(s) == n
  {
    ToDecFits(n, w);
    var zeros := seq(w - |ToDec(n)|, i => '0');
    ZerosVal(|zeros|);
    DecAppend(zeros, ToDec(n));
    zeros + ToDec(n)
  }

  lemma ToDecFits(n: nat, w: nat)
    requires w > 0 && n < Pow(10, w)
    ensures |ToDec(n)| <= w
  {
    if n > 0 {
      ToDecLength(n);
      PowLtImpliesLt(10, |ToDec(n)| - 1, w);
    }
  }

  /** High part canonical, low part padded. */
  lemma ToDecSplit(hi: nat, lo: nat, w: nat)
    requires hi > 0 && w > 0 && lo < Pow(10, w)
    ensures ToDec(hi * Pow(10, w) + lo) == ToDec(hi) + Padded(lo, w)
  {
    var s := ToDec(hi) + Padded(lo, w);
    DecAppend(ToDec(hi), Padded(lo, w));
    ToDecUnique(s);
  }

  /** Zeros at the end scale by powers of ten. */
  lemma {:induction false} ZerosVal(n: nat)
    ensures AllDigits(seq(n, i => '0')) && DecVal(seq(n, i => '0')) == 0
    decreases n
  {
    if n > 0 {
      ZerosVal(n - 1);
      assert seq(n, i => '0')[..n - 1] == seq(n - 1, i => '0');
    }
  }
}
