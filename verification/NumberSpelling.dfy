/** Numbers by their texts: the lexer cuts a number into its parts, and parts that what
    follows makes no longer are a number. */
module NumberSpelling {
  import opened Decimals
  import opened Lexing

  // Numbers.

  /** The parts of a number: digits under an optional minus, a point with digits, a
      further point with or without, an exponent, and a precision. */
  datatype Numeral = Numeral(whole: string, fraction: string, point: string, exponent: string, suffix: string)

  predicate Formed(n: Numeral) {
    && n.whole != "" && n.whole != "-" && AllDigits(if n.whole[0] == '-' then n.whole[1..] else n.whole)
    && (n.fraction != "" ==> |n.fraction| > 1 && n.fraction[0] == '.' && AllDigits(n.fraction[1..]))
    && (n.point != "" ==> n.point[0] == '.' && AllDigits(n.point[1..]))
    && (n.exponent != "" ==> n.exponent[0] in {'e', 'E'} && AllDigits(n.exponent[if Signed(n.exponent) then 2 else 1..]))
    && (n.suffix != "" ==> |n.suffix| > 1 && n.suffix[0] == 'p' && AllDigits(n.suffix[1..]))
  }

  predicate Signed(exponent: string) {
    At(exponent, 1) == '+' || At(exponent, 1) == '-'
  }

  /** What follows each part makes none of them longer, and the number no duration and
      no timestamp. */
  predicate Stands(n: Numeral, rest: string) {
    var suffixed := n.suffix + rest;
    var raised := n.exponent + suffixed;
    var pointed := n.point + raised;
    var divided := n.fraction + pointed;
    && !IsDigit(At(divided, 0)) && !(|n.whole| == 4 && n.whole[0] != '-' && At(divided, 0) == '-')
    && (if n.fraction == "" then !(At(pointed, 0) == '.' && IsDigit(At(pointed, 1))) else !IsDigit(At(pointed, 0)))
    && !DurationUnit(pointed, 0)
    && (if n.point == "" then At(raised, 0) != '.' else !IsDigit(At(raised, 0)))
    && (if n.exponent == "" then At(suffixed, 0) !in {'e', 'E'}
        else !IsDigit(At(suffixed, 0)) && (|n.exponent| == 1 ==> At(suffixed, 0) !in {'+', '-'}))
    && (if n.suffix == "" then !(At(rest, 0) == 'p' && IsDigit(At(rest, 1))) else !IsDigit(At(rest, 0)))
  }

  function Raw(n: Numeral): string {
    n.whole + (n.fraction + (n.point + n.exponent))
  }

  function NumeralToken(n: Numeral): Token {
    Token(if n.fraction + n.point + n.exponent == "" then Int else Float, Raw(n), if n.suffix == "" then "" else n.suffix[1..])
  }

  // Where the lexer cuts a number.

  lemma {:induction false} AtFrom(s: string, k: nat, i: nat)
    requires k <= |s|
    ensures At(s, k + i) == At(s[k..], i)
  {}

  /** The position after each part. */
  datatype Cuts = Cuts(whole: nat, fraction: nat, point: nat, exponent: nat, suffix: nat)

  predicate CutsAt(s: string, c: Cuts) {
    && s != "" && (IsDigit(s[0]) || (s[0] == '-' && IsDigit(At(s, 1))))
    && c.whole == DigitsEnd(s, if IsDigit(s[0]) then 0 else 1)
    && c.fraction == FractionEnd(s, c.whole)
    && c.point == PointEnd(s, c.fraction)
    && c.exponent == ExponentEnd(s, c.point)
    && c.suffix == PrecisionEnd(s, c.exponent)
  }

  predicate NumberAt(s: string, c: Cuts) {
    && CutsAt(s, c)
    && !(IsDigit(s[0]) && c.whole == 4 && At(s, 4) == '-')
    && !DurationUnit(s, c.fraction)
  }

  function Parts(s: string, c: Cuts): Numeral
    requires c.whole <= c.fraction <= c.point <= c.exponent <= c.suffix <= |s|
  {
    Numeral(s[..c.whole], s[c.whole..c.fraction], s[c.fraction..c.point], s[c.point..c.exponent], s[c.exponent..c.suffix])
  }

  lemma {:induction false} CutsOrdered(s: string, c: Cuts)
    requires CutsAt(s, c)
    ensures 0 < c.whole <= c.fraction <= c.point <= c.exponent <= c.suffix <= |s|
    ensures s[0] == '-' ==> c.whole > 1
  {
    hide DigitsEnd;
  }

  /** The lexer from the first digit on. */
  lemma {:induction false} FromDigits(s: string)
    requires s != "" && (IsDigit(s[0]) || (s[0] == '-' && IsDigit(At(s, 1))))
    ensures LexNumber(s) == LexMagnitude(s, if IsDigit(s[0]) then 0 else 1)
  {
    hide LexMagnitude;
  }

  lemma {:induction false} Magnitude(s: string, c: Cuts)
    requires NumberAt(s, c)
    ensures c.fraction <= |s| && c.exponent <= |s|
    ensures LexNumber(s)
         == if c.fraction > c.whole || At(s, c.fraction) in {'.', 'e', 'E'} then NumberToken(Float, s, c.exponent)
            else NumberToken(Int, s, c.fraction)
  {
    CutsOrdered(s, c);
    FromDigits(s);
    hide LexNumber, DigitsEnd, DurationUnit, NumberToken, LexTimestamp, LexDuration, FractionEnd;
  }

  lemma {:induction false} Unmarked(s: string, c: Cuts)
    requires CutsAt(s, c) && c.fraction <= |s|
    ensures c.exponent > c.fraction <==> At(s, c.fraction) in {'.', 'e', 'E'}
  {
    hide DigitsEnd, FractionEnd;
  }

  /** A number the lexer cuts is its parts. */
  lemma {:induction false} CutNumber(s: string, c: Cuts)
    requires NumberAt(s, c) && c.whole <= c.fraction <= c.point <= c.exponent <= c.suffix <= |s|
    ensures LexNumber(s) == Lexed(NumeralToken(Parts(s, c)), s[c.suffix..])
  {
    Magnitude(s, c);
    Unmarked(s, c);
    var n := Parts(s, c);
    SlicesJoin(s, c.whole, c.fraction, c.point, c.exponent);
    hide LexNumber, CutsAt, NumberAt, PrecisionEnd;
    assert c.suffix == PrecisionEnd(s, c.exponent) by { SuffixCut(s, c); }
    if c.suffix > c.exponent {
      assert s[c.exponent..c.suffix][1..] == s[c.exponent + 1..c.suffix];
    }
  }

  lemma {:induction false} SuffixCut(s: string, c: Cuts)
    requires CutsAt(s, c)
    ensures c.exponent <= |s| && c.suffix == PrecisionEnd(s, c.exponent)
  {
    hide DigitsEnd, FractionEnd;
  }

  lemma {:induction false} SlicesJoin(s: string, a: nat, b: nat, c: nat, d: nat)
    requires a <= b <= c <= d <= |s|
    ensures s[..a] + (s[a..b] + (s[b..c] + s[c..d])) == s[..d]
    ensures s[a..b] + s[b..c] + s[c..d] == s[a..d]
  {}

  // The parts cut off are formed, and stand.

  lemma {:induction false} WholeFormed(s: string, c: Cuts)
    requires CutsAt(s, c) && c.whole <= |s|
    ensures var w := s[..c.whole];
            && w != "" && w != "-" && AllDigits(if w[0] == '-' then w[1..] else w)
            && (w[0] == '-' <==> s[0] == '-') && !IsDigit(At(s[c.whole..], 0))
  {
    hide FractionEnd, PointEnd, ExponentEnd, PrecisionEnd;
    AtFrom(s, c.whole, 0);
    var start := if IsDigit(s[0]) then 0 else 1;
    assert DigitsEnd(s, start) > start;
  }

  lemma {:induction false} FractionFormed(s: string, i: nat)
    requires i <= |s|
    ensures var j := FractionEnd(s, i);
            && i <= j <= |s|
            && var f := s[i..j];
               && (f != "" ==> |f| > 1 && f[0] == '.' && AllDigits(f[1..]) && !IsDigit(At(s[j..], 0)))
               && (f == "" ==> !(At(s[j..], 0) == '.' && IsDigit(At(s[j..], 1))))
  {
    var j := FractionEnd(s, i);
    AtFrom(s, i, 0);
    AtFrom(s, i, 1);
    AtFrom(s, j, 0);
    if j > i {
      assert j > i + 1;
      assert s[i..j][1..] == s[i + 1..j];
    }
  }

  lemma {:induction false} PointFormed(s: string, i: nat)
    requires i <= |s|
    ensures var j := PointEnd(s, i);
            && i <= j <= |s|
            && var p := s[i..j];
               && (p != "" ==> p[0] == '.' && AllDigits(p[1..]) && !IsDigit(At(s[j..], 0)))
               && (p == "" ==> At(s[j..], 0) != '.')
  {
    var j := PointEnd(s, i);
    AtFrom(s, i, 0);
    AtFrom(s, j, 0);
    if j > i {
      assert s[i..j][1..] == s[i + 1..j];
    }
  }

  lemma {:induction false} ExponentFormed(s: string, i: nat)
    requires i <= |s|
    ensures var j := ExponentEnd(s, i);
            && i <= j <= |s|
            && var x := s[i..j];
               && (x != "" ==> x[0] in {'e', 'E'} && AllDigits(x[if Signed(x) then 2 else 1..]))
               && (x != "" ==> !IsDigit(At(s[j..], 0)) && (|x| == 1 ==> At(s[j..], 0) !in {'+', '-'}))
               && (x == "" ==> At(s[j..], 0) !in {'e', 'E'})
  {
    var j := ExponentEnd(s, i);
    AtFrom(s, i, 0);
    AtFrom(s, j, 0);
    if j > i {
      var x := s[i..j];
      var signed := At(s, i + 1) == '+' || At(s, i + 1) == '-';
      var d := if signed then i + 2 else i + 1;
      assert j == DigitsEnd(s, d);
      assert x[0] == s[i];
      if |x| > 1 {
        assert At(x, 1) == x[1] == s[i + 1] == At(s, i + 1);
      }
      assert |x| == 1 ==> At(x, 1) == '\0' && !signed;
      assert Signed(x) <==> signed;
      assert x[d - i..] == s[d..j];
      assert AllDigits(s[d..j]);
      assert AllDigits(x[if Signed(x) then 2 else 1..]);
      assert !IsDigit(At(s, j)) && (j == i + 1 ==> At(s, j) !in {'+', '-'});
      hide DigitsEnd, AllDigits, Signed;
    }
  }

  lemma {:induction false} SuffixFormed(s: string, i: nat)
    requires i <= |s|
    ensures var j := PrecisionEnd(s, i);
            && i <= j <= |s|
            && var u := s[i..j];
               && (u != "" ==> |u| > 1 && u[0] == 'p' && AllDigits(u[1..]) && !IsDigit(At(s[j..], 0)))
               && (u == "" ==> !(At(s[j..], 0) == 'p' && IsDigit(At(s[j..], 1))))
  {
    var j := PrecisionEnd(s, i);
    AtFrom(s, i, 0);
    AtFrom(s, i, 1);
    AtFrom(s, j, 0);
    if j > i {
      assert j > i + 1;
      assert s[i..j][1..] == s[i + 1..j];
    }
  }

  lemma {:induction false} UnitFrom(s: string, i: nat)
    requires i <= |s|
    ensures DurationUnit(s, i) <==> DurationUnit(s[i..], 0)
  {
    AtFrom(s, i, 0);
    AtFrom(s, i, 1);
  }

  lemma {:induction false} RestsJoin(s: string, c: Cuts)
    requires c.whole <= c.fraction <= c.point <= c.exponent <= c.suffix <= |s|
    ensures var n := Parts(s, c);
            && s[c.exponent..] == n.suffix + s[c.suffix..] && s[c.point..] == n.exponent + s[c.exponent..]
            && s[c.fraction..] == n.point + s[c.point..] && s[c.whole..] == n.fraction + s[c.fraction..]
  {}

  lemma {:induction false} PartsStand(s: string, c: Cuts)
    requires NumberAt(s, c) && c.whole <= c.fraction <= c.point <= c.exponent <= c.suffix <= |s|
    ensures Formed(Parts(s, c)) && Stands(Parts(s, c), s[c.suffix..])
  {
    hide DigitsEnd, FractionEnd, PointEnd, ExponentEnd, PrecisionEnd, DurationUnit, AllDigits, Signed, At;
    RestsJoin(s, c);
    UnitFrom(s, c.fraction);
    AtFrom(s, c.whole, 0);
    WholeFormed(s, c);
    FractionFormed(s, c.whole);
    PointFormed(s, c.fraction);
    ExponentFormed(s, c.point);
    SuffixFormed(s, c.exponent);
    hide IsDigit;
  }

  // Parts that are formed and stand are cut so.

  lemma {:induction false} Split(s: string, i: nat, p: string, r: string)
    requires i <= |s| && s[i..] == p + r
    ensures i + |p| <= |s| && s[i + |p|..] == r && s[i..i + |p|] == p
    ensures forall k :: 0 <= k < |p| ==> s[i + k] == p[k]
    ensures At(s, i + |p|) == At(r, 0) && At(s, i + |p| + 1) == At(r, 1)
  {
    assert |s[i..]| == |p| + |r|;
    assert s[i + |p|..] == s[i..][|p|..];
    assert s[i..i + |p|] == s[i..][..|p|];
    assert forall k :: 0 <= k < |p| ==> s[i + k] == s[i..][k];
    AtFrom(s, i + |p|, 0);
    AtFrom(s, i + |p|, 1);
  }

  lemma {:induction false} DigitsRun(s: string, i: nat, e: nat)
    requires i <= e <= |s| && (forall k :: i <= k < e ==> IsDigit(s[k])) && !IsDigit(At(s, e))
    ensures DigitsEnd(s, i) == e
  {}

  lemma {:induction false} WholeCut(s: string, w: string, r: string)
    requires s == w + r && w != "" && w != "-" && AllDigits(if w[0] == '-' then w[1..] else w) && !IsDigit(At(r, 0))
    ensures s != "" && (IsDigit(s[0]) || (s[0] == '-' && IsDigit(At(s, 1))))
    ensures DigitsEnd(s, if IsDigit(s[0]) then 0 else 1) == |w|
  {
    assert s[0..] == w + r;
    Split(s, 0, w, r);
    hide DigitsEnd;
    if w[0] == '-' {
      assert forall k :: 1 <= k < |w| ==> s[k] == w[1..][k - 1];
      assert At(s, 1) == w[1..][0];
      DigitsRun(s, 1, |w|);
    } else {
      DigitsRun(s, 0, |w|);
    }
  }

  lemma {:induction false} FractionCut(s: string, i: nat, f: string, r: string)
    requires i <= |s| && s[i..] == f + r
    requires f != "" ==> |f| > 1 && f[0] == '.' && AllDigits(f[1..]) && !IsDigit(At(r, 0))
    requires f == "" ==> !(At(r, 0) == '.' && IsDigit(At(r, 1)))
    ensures FractionEnd(s, i) == i + |f|
  {
    Split(s, i, f, r);
    hide DigitsEnd;
    if f != "" {
      assert forall k :: i + 1 <= k < i + |f| ==> s[k] == f[1..][k - i - 1];
      assert At(s, i + 1) == f[1..][0];
      DigitsRun(s, i + 1, i + |f|);
    }
  }

  lemma {:induction false} PointCut(s: string, i: nat, p: string, r: string)
    requires i <= |s| && s[i..] == p + r
    requires p != "" ==> p[0] == '.' && AllDigits(p[1..]) && !IsDigit(At(r, 0))
    requires p == "" ==> At(r, 0) != '.'
    ensures PointEnd(s, i) == i + |p|
  {
    Split(s, i, p, r);
    hide DigitsEnd;
    if p != "" {
      assert forall k :: i + 1 <= k < i + |p| ==> s[k] == p[1..][k - i - 1];
      DigitsRun(s, i + 1, i + |p|);
    }
  }

  lemma {:induction false} ExponentCut(s: string, i: nat, x: string, r: string)
    requires i <= |s| && s[i..] == x + r
    requires x != "" ==> x[0] in {'e', 'E'} && AllDigits(x[if Signed(x) then 2 else 1..])
    requires x != "" ==> !IsDigit(At(r, 0)) && (|x| == 1 ==> At(r, 0) !in {'+', '-'})
    requires x == "" ==> At(r, 0) !in {'e', 'E'}
    ensures ExponentEnd(s, i) == i + |x|
  {
    Split(s, i, x, r);
    hide DigitsEnd;
    if x != "" {
      var d := if Signed(x) then 2 else 1;
      assert |x| > 1 ==> At(s, i + 1) == At(x, 1);
      assert forall k :: i + d <= k < i + |x| ==> s[k] == x[d..][k - i - d];
      DigitsRun(s, i + d, i + |x|);
    }
  }

  lemma {:induction false} SuffixIs(s: string, i: nat, u: string, r: string)
    requires i <= |s| && s[i..] == u + r
    requires u != "" ==> |u| > 1 && u[0] == 'p' && AllDigits(u[1..]) && !IsDigit(At(r, 0))
    requires u == "" ==> !(At(r, 0) == 'p' && IsDigit(At(r, 1)))
    ensures PrecisionEnd(s, i) == i + |u|
  {
    Split(s, i, u, r);
    hide DigitsEnd;
    if u != "" {
      assert forall k :: i + 1 <= k < i + |u| ==> s[k] == u[1..][k - i - 1];
      assert At(s, i + 1) == u[1..][0];
      DigitsRun(s, i + 1, i + |u|);
    }
  }

  function CutsOf(n: Numeral): Cuts {
    var f := |n.whole| + |n.fraction|;
    Cuts(|n.whole|, f, f + |n.point|, f + |n.point| + |n.exponent|, f + |n.point| + |n.exponent| + |n.suffix|)
  }

  function Text(n: Numeral): string {
    Raw(n) + n.suffix
  }

  lemma {:induction false} TextParts(n: Numeral, rest: string)
    ensures Text(n) + rest == n.whole + (n.fraction + (n.point + (n.exponent + (n.suffix + rest))))
    ensures |Text(n)| == CutsOf(n).suffix
  {}

  lemma {:induction false} Positions(n: Numeral, rest: string)
    ensures var s, c := Text(n) + rest, CutsOf(n);
            && c.whole <= c.fraction <= c.point <= c.exponent <= c.suffix <= |s|
            && s == n.whole + s[c.whole..] && s[c.whole..] == n.fraction + s[c.fraction..]
            && s[c.fraction..] == n.point + s[c.point..] && s[c.point..] == n.exponent + s[c.exponent..]
            && s[c.exponent..] == n.suffix + s[c.suffix..] && s[c.suffix..] == rest
            && Parts(s, c) == n
  {
    var s, c := Text(n) + rest, CutsOf(n);
    TextParts(n, rest);
    var suffixed := n.suffix + rest;
    var raised := n.exponent + suffixed;
    var pointed := n.point + raised;
    var divided := n.fraction + pointed;
    hide Text, At;
    assert s[0..] == n.whole + divided;
    Split(s, 0, n.whole, divided);
    Split(s, c.whole, n.fraction, pointed);
    Split(s, c.fraction, n.point, raised);
    Split(s, c.point, n.exponent, suffixed);
    Split(s, c.exponent, n.suffix, rest);
  }

  lemma {:induction false} PartsCut(s: string, n: Numeral, c: Cuts)
    requires c.whole <= c.fraction <= c.point <= c.exponent <= c.suffix <= |s|
    requires s == n.whole + s[c.whole..] && s[c.whole..] == n.fraction + s[c.fraction..]
    requires s[c.fraction..] == n.point + s[c.point..] && s[c.point..] == n.exponent + s[c.exponent..]
    requires s[c.exponent..] == n.suffix + s[c.suffix..] && c == CutsOf(n)
    requires Formed(n) && Stands(n, s[c.suffix..])
    ensures CutsAt(s, c)
  {
    hide DigitsEnd, FractionEnd, PointEnd, ExponentEnd, PrecisionEnd, DurationUnit, AllDigits, Signed, At, IsDigit;
    WholeCut(s, n.whole, s[c.whole..]);
    FractionCut(s, c.whole, n.fraction, s[c.fraction..]);
    PointCut(s, c.fraction, n.point, s[c.point..]);
    ExponentCut(s, c.point, n.exponent, s[c.exponent..]);
    SuffixIs(s, c.exponent, n.suffix, s[c.suffix..]);
  }

  lemma {:induction false} NumeralCut(n: Numeral, rest: string)
    requires Formed(n) && Stands(n, rest)
    ensures var s, c := Text(n) + rest, CutsOf(n);
            && NumberAt(s, c) && c.whole <= c.fraction <= c.point <= c.exponent <= c.suffix <= |s|
            && Parts(s, c) == n && s[c.suffix..] == rest
  {
    var s, c := Text(n) + rest, CutsOf(n);
    Positions(n, rest);
    hide Text;
    PartsCut(s, n, c);
    hide CutsAt;
    UnitFrom(s, c.fraction);
    AtFrom(s, c.whole, 0);
    assert s[0] == n.whole[0] && !IsDigit('-');
    hide DurationUnit, AllDigits, Signed, At, IsDigit, Formed;
  }

  /** A number that stands is taken off the front. */
  lemma {:induction false} NumeralTaken(n: Numeral, rest: string)
    requires Formed(n) && Stands(n, rest)
    ensures LexNumber(Text(n) + rest) == Lexed(NumeralToken(n), rest)
  {
    NumeralCut(n, rest);
    hide *;
    CutNumber(Text(n) + rest, CutsOf(n));
  }
}
