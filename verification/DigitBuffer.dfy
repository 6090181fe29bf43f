/** Rounding a decimal digit buffer in place, half to even, carrying through
    runs of nines. */
module DigitBuffer {
  import opened Powers
  import opened Decimals
  import opened DecimalRounding
  import opened Literals
  import opened BigFloats

  /** Drop trailing zeros, one at a time. */
  method TrimZerosLoop(s: string, point: int) returns (d: string, dexp: int)
    ensures d == TrimZeros(s) && dexp == if d == [] then 0 else point
  {
    d := s;
    while d != [] && d[|d| - 1] == '0'
      invariant TrimZeros(d) == TrimZeros(s)
    {
      d := d[..|d| - 1];
    }
    dexp := if d == [] then 0 else point;
  }

  // A prefix of the digits, and what is cut off.

  /** The kept part and the rest of a number cut after its first digits. */
  lemma Cut(s: string, digits: nat)
    requires AllDigits(s) && digits <= |s|
    ensures var h, t := DecVal(s[..digits]), DecVal(s[digits..]);
            var p := Pow(10, |s| - digits);
            DecVal(s) == h * p + t && t < p
  {
    hide DecVal, Pow;
    DecAppend(s[..digits], s[digits..]);
    DecBound(s[digits..]);
    assert s[..digits] + s[digits..] == s;
  }

  lemma FirstDigit(s: string)
    requires AllDigits(s) && s != []
    ensures DecVal(s) == Digit(s[0]) * Pow(10, |s| - 1) + DecVal(s[1..])
    ensures DecVal(s[1..]) < Pow(10, |s| - 1)
  {
    Cut(s, 1);
    assert s[..1][..0] == [];
    assert DecVal(s[..1]) == Digit(s[0]);
  }

  lemma {:induction false} NonZeroTail(s: string)
    requires AllDigits(s) && TrimZeros(s) != []
    ensures DecVal(s) > 0
    decreases |s|
  {
    if s != [] && s[|s| - 1] == '0' {
      NonZeroTail(s[..|s| - 1]);
    }
  }

  /** The digits after the cut that trimming leaves decide the rounding. */
  lemma {:induction false} TrimSuffix(s: string, k: nat)
    requires k <= |s|
    ensures |TrimZeros(s)| > k ==> TrimZeros(s[k..]) == TrimZeros(s)[k..]
    ensures |TrimZeros(s)| <= k ==> TrimZeros(s[k..]) == [] && TrimZeros(s[..k]) == TrimZeros(s)
    decreases |s|
  {
    hide TrimZeros;
    TrimLast(s);
    TrimLast(s[k..]);
    if k == |s| {
      assert s[..k] == s;
    } else if s[|s| - 1] == '0' {
      var r := s[..|s| - 1];
      TrimSuffix(r, k);
      assert s[k..][..|s| - k - 1] == r[k..] && r[..k] == s[..k];
    }
  }

  lemma TrimLast(s: string)
    ensures TrimZeros(s) == if s != [] && s[|s| - 1] == '0' then TrimZeros(s[..|s| - 1]) else s
  {}

  lemma {:induction false} TrimmedZero(s: string)
    requires AllDigits(s) && TrimZeros(s) == []
    ensures DecVal(s) == 0
    decreases |s|
  {
    if s != [] {
      TrimmedZero(s[..|s| - 1]);
    }
  }

  /** Whether the kept digits h are rounded up, given the trimmed digits after. */
  predicate RoundsUp(h: string, t: string)
    requires AllDigits(h) && t != []
  {
    if t[0] == '5' && |t| == 1 then h != [] && Digit(h[|h| - 1]) % 2 == 1 else t[0] >= '5'
  }

  lemma ParityOfLast(h: string)
    requires AllDigits(h) && h != []
    ensures DecVal(h) % 2 == Digit(h[|h| - 1]) % 2
  {}

  /** The first dropped digit and whether it stands alone say how the remainder
      compares with half a unit. */
  lemma Halfway(t: string)
    requires AllDigits(t) && TrimZeros(t) != []
    ensures var z, p, v := TrimZeros(t), Pow(10, |t|), DecVal(t);
            && (z[0] == '5' && |z| == 1 ==> 2 * v == p)
            && (!(z[0] == '5' && |z| == 1) ==> (2 * v > p <==> z[0] >= '5') && 2 * v != p)
  {
    var z := TrimZeros(t);
    FirstDigit(t);
    TrimSuffix(t, 1);
    assert Pow(10, |t|) == 10 * Pow(10, |t| - 1);
    var rest, p := DecVal(t[1..]), Pow(10, |t| - 1);
    if |z| == 1 {
      TrimmedZero(t[1..]);
    } else {
      NonZeroTail(t[1..]);
    }
    HalfDigit(Digit(t[0]), rest, p, |z| == 1);
  }

  lemma HalfDigit(c: nat, rest: nat, p: nat, alone: bool)
    requires c < 10 && rest < p && (alone <==> rest == 0)
    ensures var v := c * p + rest;
            && (c == 5 && alone ==> 2 * v == 10 * p)
            && (!(c == 5 && alone) ==> (2 * v > 10 * p <==> c >= 5) && 2 * v != 10 * p)
  {
    if c >= 6 {
      MulLe(6, c, p, p);
    } else if c <= 4 {
      MulLe(c, 4, p, p);
    }
  }

  /** Rounding by digits is rounding the number. */
  lemma RoundsUpNearest(s: string, digits: nat)
    requires AllDigits(s) && 0 < digits <= |s| && TrimZeros(s[digits..]) != []
    ensures var h := DecVal(s[..digits]);
            DivHalfEven(DecVal(s), Pow(10, |s| - digits))
            == if RoundsUp(s[..digits], TrimZeros(s[digits..])) then h + 1 else h
  {
    hide Pow, DecVal, TrimZeros;
    var t := s[digits..];
    Cut(s, digits);
    Halfway(t);
    ParityOfLast(s[..digits]);
    DivModUnique(DecVal(s), Pow(10, |s| - digits), DecVal(s[..digits]), DecVal(t));
  }

  /** Nothing but zeros after the cut: nothing to round. */
  lemma ExactCut(s: string, digits: nat)
    requires AllDigits(s) && 0 < digits <= |s| && TrimZeros(s[digits..]) == []
    ensures DivHalfEven(DecVal(s), Pow(10, |s| - digits)) == DecVal(s[..digits])
  {
    hide Pow, DecVal, TrimZeros;
    Cut(s, digits);
    TrimmedZero(s[digits..]);
    DivModUnique(DecVal(s), Pow(10, |s| - digits), DecVal(s[..digits]), 0);
  }

  // Carrying.

  predicate AllNines(s: string) {
    forall i :: 0 <= i < |s| ==> s[i] == '9'
  }

  lemma {:induction false} NinesValue(s: string)
    requires AllNines(s)
    ensures AllDigits(s) && DecVal(s) + 1 == Pow(10, |s|)
    decreases |s|
  {
    if s != [] {
      NinesValue(s[..|s| - 1]);
    }
  }

  /** One more than a number that ends in nines. */
  lemma CarryRun(h: string, i: nat)
    requires AllDigits(h) && i <= |h| && AllNines(h[i..])
    ensures DecVal(h) + 1 == (DecVal(h[..i]) + 1) * Pow(10, |h| - i)
  {
    NinesValue(h[i..]);
    Cut(h, i);
  }

  lemma {:induction false} TrimAppended(t: string, k: nat)
    requires t != [] && t[|t| - 1] != '0'
    ensures TrimZeros(t + Zeros(k)) == t
    decreases k
  {
    if k == 0 {
      assert t + Zeros(0) == t;
    } else {
      TrimAppended(t, k - 1);
      assert (t + Zeros(k))[..|t| + k - 1] == t + Zeros(k - 1);
    }
  }

  lemma ZerosScale(t: string, k: nat)
    requires AllDigits(t)
    ensures AllDigits(t + Zeros(k)) && DecVal(t + Zeros(k)) == DecVal(t) * Pow(10, k)
  {
    ZerosVal(k);
    DecAppend(t, Zeros(k));
  }

  /** Raising the digit before the run of nines and dropping the run. */
  lemma CarryDigit(h: string, i: nat)
    requires AllDigits(h) && 0 < i <= |h| && h[0] != '0' && h[i - 1] < '9' && AllNines(h[i..])
    ensures var t := h[..i - 1] + [DigitChar(Digit(h[i - 1]) + 1)];
            TrimZeros(ToDec(DecVal(h) + 1)) == t && |ToDec(DecVal(h) + 1)| == |h|
  {
    hide ToDec;
    var c := Digit(h[i - 1]) + 1;
    var t := h[..i - 1] + [DigitChar(c)];
    CarryRun(h, i);
    SnocVal(h[..i - 1], c);
    assert h[..i][..i - 1] == h[..i - 1];
    ZerosScale(t, |h| - i);
    TrimAppended(t, |h| - i);
    assert Digit(DigitChar(c)) == c > 0;
    assert t[0] != '0';
    ToDecUnique(t + Zeros(|h| - i));
  }

  /** All nines: a one, and the point moves. */
  lemma CarryAll(h: string)
    requires h != [] && AllNines(h)
    ensures TrimZeros(ToDec(DecVal(h) + 1)) == "1" && |ToDec(DecVal(h) + 1)| == |h| + 1
  {
    hide ToDec;
    NinesValue(h);
    assert "1"[..0] == "";
    assert DecVal("1") == 1;
    ZerosScale("1", |h|);
    TrimAppended("1", |h|);
    ToDecUnique("1" + Zeros(|h|));
  }

  /** Add one in the last place: move left over nines, raise the digit before
      them, or push a one when there is none. */
  method CarryUp(h: string, point: int) returns (d: string, dexp: int)
    requires AllDigits(h) && h != [] && h[0] != '0'
    ensures d == TrimZeros(ToDec(DecVal(h) + 1))
    ensures dexp == point + |ToDec(DecVal(h) + 1)| - |h|
  {
    var i := |h|;
    while i > 0 && h[i - 1] >= '9'
      invariant 0 <= i <= |h| && AllNines(h[i..])
    {
      i := i - 1;
    }
    if i == 0 {
      assert h[0..] == h;
      CarryAll(h);
      d, dexp := "1", point + 1;
    } else {
      CarryDigit(h, i);
      d, dexp := h[..i - 1] + [DigitChar(Digit(h[i - 1]) + 1)], point;
    }
  }

  /** The digits of n rounded to at most `digits` of them. */
  method RoundDigits(ghost n: nat, s: string, point: int, digits: nat) returns (d: string, dexp: int)
    requires n > 0 && s == ToDec(n) && digits > 0
    ensures d == TrimZeros(ToDec(Significant(n, digits)))
    ensures dexp == point + |ToDec(Significant(n, digits))| + Excess(n, digits) - |s|
  {
    hide ToDec, Pow, DivHalfEven;
    d, dexp := TrimZerosLoop(s, point);
    TrimKeeps(s);
    RoundCases(n, s, digits);
    if digits < |d| {
      if RoundsUp(d[..digits], d[digits..]) {
        d, dexp := CarryUp(d[..digits], point);
      } else {
        d, dexp := TrimZerosLoop(d[..digits], point);
      }
    }
  }

  /** What the number rounds to, by what trimming leaves. */
  lemma RoundCases(n: nat, s: string, digits: nat)
    requires n > 0 && s == ToDec(n) && digits > 0
    ensures var z, q := TrimZeros(s), Significant(n, digits);
            if digits < |z| then
              && |s| > digits && z[..digits] == s[..digits] && AllDigits(s[..digits])
              && TrimZeros(s[..digits]) != []
              && (if RoundsUp(s[..digits], z[digits..]) then q == DecVal(s[..digits]) + 1
                  else ToDec(q) == s[..digits])
            else z == TrimZeros(ToDec(q)) && |ToDec(q)| + Excess(n, digits) == |s|
  {
    hide ToDec, Pow, DivHalfEven, RoundsUp;
    if |s| <= digits {
      NothingDropped(n);
    } else {
      TrimSuffix(s, digits);
      ToDecUnique(s[..digits]);
      TrimKeeps(s[..digits]);
      if |TrimZeros(s)| > digits {
        RoundsUpNearest(s, digits);
      } else {
        ExactCut(s, digits);
      }
    }
  }

  lemma NothingDropped(n: nat)
    ensures DivHalfEven(n, Pow(10, 0)) == n
  {
    assert Pow(10, 0) == 1;
  }
}
