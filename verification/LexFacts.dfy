/** A token's own text, in front of what the formatter puts after it, is that token
    again. */
module LexFacts {
  import opened Decimals
  import opened Lexing
  import Durations
  import Timestamps

  /** What may follow: after a value a comma or a line end, after a key a blank or a
      colon. */
  predicate Ends(rest: string) {
    rest != [] && rest[0] in {',', '\n', ' ', ':'}
  }

  predicate ValueEnds(rest: string) {
    rest != [] && rest[0] in {',', '\n', ' '}
  }

  function NumberText(t: Token): string {
    t.value + if t.prec == "" then "" else "p" + t.prec
  }

  /** The same characters up to k, and a separator there. */
  ghost predicate Agrees(s: string, u: string, k: nat) {
    k <= |s| && k < |u| && u[k] in {',', '\n', ' ', ':'} && forall i :: 0 <= i < k ==> u[i] == s[i]
  }

  lemma SameAt(s: string, u: string, k: nat, i: nat)
    requires Agrees(s, u, k) && i < k
    ensures At(u, i) == At(s, i)
  {}

  lemma {:induction false} SameDigits(s: string, u: string, k: nat, i: nat)
    requires Agrees(s, u, k) && i <= k && DigitsEnd(s, i) <= k
    ensures DigitsEnd(u, i) == DigitsEnd(s, i)
    decreases k - i
  {
    if i < k && IsDigit(s[i]) {
      SameDigits(s, u, k, i + 1);
    }
  }

  lemma {:induction false} SameIdent(s: string, u: string, k: nat, i: nat)
    requires Agrees(s, u, k) && i <= k && IdentEnd(s, i) <= k
    ensures IdentEnd(u, i) == IdentEnd(s, i)
    decreases k - i
  {
    if i < k && IdentPart(s[i]) {
      SameIdent(s, u, k, i + 1);
    }
  }

  lemma {:induction false} SameDuration(s: string, u: string, k: nat, i: nat)
    requires Agrees(s, u, k) && i <= k && DurationEnd(s, i) == k
    ensures DurationEnd(u, i) == k
    decreases k - i
  {
    if i < k {
      DurationEndsAfter(s, i);
      if DurationPart(s, i) {
        if At(s, i) == '.' {
          DigitFollows(s, i, k);
        }
        SameDuration(s, u, k, i + 1);
      } else {
        SameDuration(s, u, k, i + 2);
      }
    }
  }

  lemma DurationEndsAfter(s: string, i: nat)
    requires i < |s| && DurationEnd(s, i) > i
    ensures DurationPart(s, i) ==> DurationEnd(s, i) == DurationEnd(s, i + 1)
    ensures !DurationPart(s, i) ==> MicroSign(s, i) && i + 2 <= |s| && DurationEnd(s, i) == DurationEnd(s, i + 2)
  {}

  /** A point in a duration is followed by a digit of it. */
  lemma DigitFollows(s: string, i: nat, k: nat)
    requires i < |s| && DurationEnd(s, i) == k && At(s, i) == '.' && DurationPart(s, i)
    ensures i + 1 < k
  {
    assert DurationPart(s, i + 1);
    assert DurationEnd(s, i + 1) == DurationEnd(s, i + 2);
  }

  lemma {:induction false} SameTimestamp(s: string, u: string, k: nat, i: nat)
    requires Agrees(s, u, k) && u[k] != ':' && i <= k && TimestampEnd(s, i) == k
    ensures TimestampEnd(u, i) == k
    decreases k - i
  {
    if i < k {
      SameTimestamp(s, u, k, i + 1);
    }
  }

  // Identifiers.

  /** An identifier, true, false or null. */
  lemma IdentAgain(c: Config, s: string, rest: string)
    requires s != [] && LexAt(c, s).token.kind in {Ident, Bool, Null} && Ends(rest)
    ensures var t := LexAt(c, s).token;
            t.value != [] && IdentStart(t.value[0]) && LexAt(c, t.value + rest) == Lexed(t, rest)
  {
    LexedIdent(c, s);
    var k := IdentEnd(s, 0);
    var u := s[..k] + rest;
    assert Agrees(s, u, k);
    SameIdent(s, u, k, 0);
    assert u[..k] == s[..k] && u[k..] == rest;
    NotQuote(s, u, k);
    assert LexAt(c, u) == LexIdent(u);
  }

  lemma NotQuote(s: string, u: string, k: nat)
    requires Agrees(s, u, k) && s != [] && IdentStart(s[0]) && k == IdentEnd(s, 0)
    ensures k > 0 && At(u, 1) != '"'
  {
    if k > 1 {
      assert IdentPart(s[1]);
    }
  }

  lemma LexedIdent(c: Config, s: string)
    requires s != [] && LexAt(c, s).token.kind in {Ident, Bool, Null}
    ensures IdentStart(s[0]) && !(s[0] == 'b' && At(s, 1) == '"') && LexAt(c, s) == LexIdent(s)
  {
    hide LexNumber, LexIdent, LexDirective, LexString, LexTriple, LexBytes, Punctuation, CommentEnd, LineEnd;
  }

  // Numbers and what looks like them.

  lemma LexedNumber(c: Config, s: string)
    requires s != [] && LexAt(c, s).token.kind in {Int, Float, DurationLit, TimestampLit}
    ensures (IsDigit(s[0]) || s[0] == '-' || s[0] == '+') && LexAt(c, s) == LexNumber(s)
  {
    hide LexNumber, LexIdent, LexDirective, LexString, LexTriple, LexBytes, Punctuation, CommentEnd, LineEnd;
  }

  /** The position after a number's text in the text it was read from. */
  function NumberEnd(s: string): (k: nat)
    requires s != [] && (IsDigit(s[0]) || s[0] == '-' || s[0] == '+')
    ensures k <= |s|
  {
    |s| - |LexNumber(s).rest|
  }

  lemma TextAt(s: string)
    requires s != [] && (IsDigit(s[0]) || s[0] == '-' || s[0] == '+') && LexNumber(s).token.kind != Illegal
    ensures NumberText(LexNumber(s).token) == s[..NumberEnd(s)] && NumberEnd(s) > 0
  {
    hide DigitsEnd, FractionEnd, FloatEnd, PrecisionEnd, DurationEnd, TimestampEnd, DurationUnit, NumberToken;
    hide Timestamps.Valid, Durations.Valid;
    var l := LexNumber(s);
    if !IsDigit(s[0]) && Infinity(s) {
      assert l == Lexed(Plain(Float, s[..4]), s[4..]);
      WholeText(l.token);
    } else {
      var start := if s[0] == '-' then 1 else 0;
      var i := DigitsEnd(s, start);
      var j := FractionEnd(s, i);
      if start == 0 && i == 4 && At(s, i) == '-' {
        assert l == LexTimestamp(s, i);
        WholeText(l.token);
      } else if j < |s| && DurationUnit(s, j) {
        assert l == LexDuration(s, j);
        WholeText(l.token);
      } else {
        NumberTokenText(Int, s, j);
        NumberTokenText(Float, s, FloatEnd(s, j));
      }
    }
  }

  lemma WholeText(t: Token)
    ensures t.prec == "" ==> NumberText(t) == t.value
  {
    assert t.value + "" == t.value;
  }

  lemma NumberTokenText(kind: Kind, s: string, i: nat)
    requires i <= |s|
    ensures var l := NumberToken(kind, s, i);
            NumberText(l.token) == s[..|s| - |l.rest|]
  {
    PrecisionText(s, i);
    hide PrecisionEnd;
    var e := PrecisionEnd(s, i);
    assert e > i ==> |s[i + 1..e]| > 0;
  }

  lemma PrecisionText(s: string, i: nat)
    requires i <= |s|
    ensures var e := PrecisionEnd(s, i);
            s[..i] + (if e == i then "" else "p" + s[i + 1..e]) == s[..e] && (e > i ==> e >= i + 2)
  {
    var e := PrecisionEnd(s, i);
    if e > i {
      assert s[i..e] == "p" + s[i + 1..e];
      assert s[..e] == s[..i] + s[i..e];
    }
  }

  lemma SameFraction(s: string, u: string, k: nat, i: nat)
    requires Agrees(s, u, k) && i <= k && FractionEnd(s, i) <= k
    ensures FractionEnd(u, i) == FractionEnd(s, i)
  {
    if At(s, i) == '.' && IsDigit(At(s, i + 1)) {
      assert i + 1 < DigitsEnd(s, i + 1) <= k;
      SameDigits(s, u, k, i + 1);
    } else if i + 1 < k {
      SameAt(s, u, k, i);
      SameAt(s, u, k, i + 1);
    }
  }

  lemma SamePoint(s: string, u: string, k: nat, i: nat)
    requires Agrees(s, u, k) && i <= k && PointEnd(s, i) <= k
    ensures PointEnd(u, i) == PointEnd(s, i)
  {
    if At(s, i) == '.' && i < k {
      SameDigits(s, u, k, i + 1);
    }
  }

  lemma SameExponent(s: string, u: string, k: nat, i: nat)
    requires Agrees(s, u, k) && i <= k && ExponentEnd(s, i) <= k
    ensures ExponentEnd(u, i) == ExponentEnd(s, i)
  {
    if i < k && (At(s, i) == 'e' || At(s, i) == 'E') {
      var signed := At(s, i + 1) == '+' || At(s, i + 1) == '-';
      if i + 1 < k {
        SameAt(s, u, k, i + 1);
      }
      SameDigits(s, u, k, if signed then i + 2 else i + 1);
    }
  }

  lemma SameFloat(s: string, u: string, k: nat, i: nat)
    requires Agrees(s, u, k) && i <= k && FloatEnd(s, i) <= k
    ensures FloatEnd(u, i) == FloatEnd(s, i)
  {
    hide PointEnd, ExponentEnd;
    SamePoint(s, u, k, i);
    SameExponent(s, u, k, PointEnd(s, i));
  }

  lemma SamePrecision(s: string, u: string, k: nat, i: nat)
    requires Agrees(s, u, k) && i <= k && PrecisionEnd(s, i) == k
    ensures PrecisionEnd(u, i) == k
  {
    if i < k {
      SameDigits(s, u, k, i + 1);
    }
  }

  lemma NumberTokenAgain(kind: Kind, s: string, u: string, k: nat, i: nat)
    requires Agrees(s, u, k) && i <= k && PrecisionEnd(s, i) == k
    ensures NumberToken(kind, u, i) == Lexed(NumberToken(kind, s, i).token, u[k..])
  {
    SamePrecision(s, u, k, i);
    hide PrecisionEnd;
    assert u[..i] == s[..i];
    if i < k {
      assert u[i + 1..k] == s[i + 1..k];
    }
  }

  lemma PrecisionAt(kind: Kind, s: string, i: nat)
    requires i <= |s|
    ensures PrecisionEnd(s, i) == |s| - |NumberToken(kind, s, i).rest|
  {}

  /** Where a number is cut: after its sign, its digits and its fraction. */
  function SignEnd(s: string): nat {
    if s != [] && s[0] == '-' then 1 else 0
  }

  predicate Numeric(s: string) {
    s != [] && (IsDigit(s[0]) || (s[0] == '-' && IsDigit(At(s, 1))))
  }

  function WholeEnd(s: string): nat
    requires Numeric(s)
  {
    DigitsEnd(s, SignEnd(s))
  }

  function PlacesEnd(s: string): nat
    requires Numeric(s)
  {
    FractionEnd(s, WholeEnd(s))
  }

  predicate Dashed(s: string)
    requires Numeric(s)
  {
    SignEnd(s) == 0 && WholeEnd(s) == 4 && At(s, 4) == '-'
  }

  predicate Timed(s: string)
    requires Numeric(s)
  {
    PlacesEnd(s) < |s| && DurationUnit(s, PlacesEnd(s))
  }

  predicate Marked(s: string)
    requires Numeric(s)
  {
    PlacesEnd(s) > WholeEnd(s) || At(s, PlacesEnd(s)) in {'.', 'e', 'E'}
  }

  /** lex_number by its four cases. */
  lemma NumberCases(s: string)
    requires Numeric(s)
    ensures WholeEnd(s) > SignEnd(s)
    ensures LexNumber(s)
         == if Dashed(s) then LexTimestamp(s, WholeEnd(s))
            else if Timed(s) then LexDuration(s, PlacesEnd(s))
            else if Marked(s) then NumberToken(Float, s, FloatEnd(s, PlacesEnd(s)))
            else NumberToken(Int, s, PlacesEnd(s))
  {
    hide FractionEnd, FloatEnd, NumberToken, LexTimestamp, LexDuration, DurationUnit;
    assert DigitsEnd(s, SignEnd(s)) > SignEnd(s);
  }

  /** The cuts lie before the number's end. */
  lemma NumberBounds(s: string)
    requires Numeric(s) && LexNumber(s).token.kind != Illegal
    ensures var k := NumberEnd(s);
            && 0 < WholeEnd(s) <= k
            && (Dashed(s) ==> k == TimestampEnd(s, WholeEnd(s)) > 4)
            && (!Dashed(s) ==> PlacesEnd(s) <= k)
            && (!Dashed(s) && Timed(s) ==> k == DurationEnd(s, PlacesEnd(s)) > PlacesEnd(s)
                                           && (MicroSign(s, PlacesEnd(s)) ==> k >= PlacesEnd(s) + 2))
            && (!Dashed(s) && !Timed(s) && Marked(s) ==> PrecisionEnd(s, FloatEnd(s, PlacesEnd(s))) == k)
            && (!Dashed(s) && !Timed(s) && !Marked(s) ==> PrecisionEnd(s, PlacesEnd(s)) == k)
  {
    NumberCases(s);
    hide FractionEnd, DigitsEnd, FloatEnd, PrecisionEnd;
    if Dashed(s) {
      TimestampPast(s, WholeEnd(s));
    } else if Timed(s) {
      DurationPast(s, PlacesEnd(s));
    } else {
      PrecisionAt(Float, s, FloatEnd(s, PlacesEnd(s)));
      PrecisionAt(Int, s, PlacesEnd(s));
    }
  }

  lemma TimestampPast(s: string, i: nat)
    requires 0 < i <= |s| && LexTimestamp(s, i).token.kind != Illegal && At(s, i) == '-'
    ensures |s| - |LexTimestamp(s, i).rest| == TimestampEnd(s, i) > i
  {
    hide Timestamps.Valid;
  }

  lemma DurationPast(s: string, i: nat)
    requires 0 < i < |s| && LexDuration(s, i).token.kind != Illegal && DurationUnit(s, i)
    ensures |s| - |LexDuration(s, i).rest| == DurationEnd(s, i) > i
    ensures MicroSign(s, i) ==> DurationEnd(s, i) >= i + 2
  {
    hide Durations.Valid;
  }

  /** The cases are the same, and cut at the same places. */
  lemma SameCuts(s: string, u: string, k: nat)
    requires Numeric(s) && LexNumber(s).token.kind != Illegal && Agrees(s, u, k) && k == NumberEnd(s)
    ensures Numeric(u) && SignEnd(u) == SignEnd(s) && WholeEnd(u) == WholeEnd(s) && Dashed(u) == Dashed(s)
    ensures !Dashed(s) ==> PlacesEnd(u) == PlacesEnd(s) && Timed(u) == Timed(s)
    ensures !Dashed(s) && !Timed(s) ==> Marked(u) == Marked(s)
  {
    NumberCases(s);
    NumberBounds(s);
    hide LexNumber, NumberEnd, PrecisionEnd, TimestampEnd, DurationEnd;
    if s[0] == '-' {
      SameAt(s, u, k, 1);
    }
    SameDigits(s, u, k, SignEnd(s));
    if !Dashed(s) {
      SameFraction(s, u, k, WholeEnd(s));
      hide DigitsEnd, FractionEnd;
      SameUnit(s, u, k, PlacesEnd(s), Timed(s));
      if !Timed(s) && Marked(s) && PlacesEnd(s) == WholeEnd(s) {
        MarkPast(s, PlacesEnd(s));
      }
    }
  }

  lemma MarkPast(s: string, i: nat)
    requires i <= |s| && At(s, i) in {'.', 'e', 'E'}
    ensures FloatEnd(s, i) > i
    ensures PrecisionEnd(s, FloatEnd(s, i)) > i
  {
    hide DigitsEnd;
  }

  lemma SameUnit(s: string, u: string, k: nat, j: nat, timed: bool)
    requires Agrees(s, u, k) && j <= k && timed == (j < |s| && DurationUnit(s, j))
    requires timed ==> j < k && (MicroSign(s, j) ==> j + 2 <= k)
    ensures (j < |u| && DurationUnit(u, j)) == timed
  {
    if j < k {
      SameAt(s, u, k, j);
      if j + 1 < k {
        SameAt(s, u, k, j + 1);
      }
    }
  }

  lemma {:induction false} IdentEndIs(s: string, i: nat, e: nat)
    requires i <= e <= |s| && (forall k :: i <= k < e ==> IdentPart(s[k])) && !IdentPart(At(s, e))
    ensures IdentEnd(s, i) == e
    decreases e - i
  {
    if i < e {
      IdentEndIs(s, i + 1, e);
    }
  }

  /** A word is an identifier, or one of the three keywords. */
  lemma WordToken(c: Config, w: string)
    requires w != "" && IdentStart(w[0]) && forall k :: 0 <= k < |w| ==> IdentPart(w[k])
    ensures LexAt(c, w)
         == Lexed(Plain(if w == "true" || w == "false" then Bool else if w == "null" then Null else Ident, w), "")
  {
    IdentEndIs(w, 0, |w|);
    assert w[..|w|] == w && At(w, 1) != '"';
    AtIdent(c, w);
  }

  lemma AtIdent(c: Config, u: string)
    requires u != "" && IdentStart(u[0]) && At(u, 1) != '"'
    ensures LexAt(c, u) == LexIdent(u)
  {
    hide LexNumber, LexIdent, LexDirective, LexString, LexTriple, LexBytes, CommentEnd, LineEnd;
  }

  /** The type keyword. */
  lemma TypeToken(c: Config, tail: string)
    requires tail != "" && !IdentPart(tail[0])
    ensures LexAt(c, "@type" + tail) == Lexed(Plain(AtType, "@type"), tail)
  {
    var u := "@type" + tail;
    IdentEndIs(u, 1, 5);
    assert u[1..5] == "type" && u[5..] == tail;
    AtDirectiveSign(c, u);
  }

  lemma AtDirectiveSign(c: Config, u: string)
    requires u != "" && u[0] == '@'
    ensures LexAt(c, u) == LexDirective(u)
  {
    hide LexNumber, LexIdent, LexDirective, LexString, LexTriple, LexBytes, CommentEnd, LineEnd;
  }

  /** A number's text is that number again. */
  lemma NumberAgain(s: string, u: string, k: nat)
    requires Numeric(s) && LexNumber(s).token.kind != Illegal && Agrees(s, u, k) && k == NumberEnd(s)
    requires LexNumber(s).token.kind == TimestampLit ==> u[k] != ':'
    ensures LexNumber(u) == Lexed(LexNumber(s).token, u[k..])
  {
    SameCuts(s, u, k);
    NumberCases(s);
    NumberCases(u);
    NumberBounds(s);
    hide LexNumber, Dashed, Timed, Marked, WholeEnd, PlacesEnd, NumberEnd, Numeric;
    assert u[..k] == s[..k];
    if Dashed(s) {
      SameTimestamp(s, u, k, WholeEnd(s));
      hide Timestamps.Valid;
    } else if Timed(s) {
      SameDuration(s, u, k, PlacesEnd(s));
      hide Durations.Valid;
    } else if Marked(s) {
      SameFloat(s, u, k, PlacesEnd(s));
      NumberTokenAgain(Float, s, u, k, FloatEnd(s, PlacesEnd(s)));
      hide NumberToken, FloatEnd;
    } else {
      NumberTokenAgain(Int, s, u, k, PlacesEnd(s));
      hide NumberToken;
    }
  }

  lemma InfinityEnd(s: string)
    requires s != [] && !IsDigit(s[0]) && Infinity(s) && (s[0] == '-' || s[0] == '+')
    ensures NumberEnd(s) == 4
  {}

  lemma InfinityAgain(s: string, u: string)
    requires s != [] && !IsDigit(s[0]) && Infinity(s) && Agrees(s, u, 4) && (s[0] == '-' || s[0] == '+')
    ensures LexNumber(u) == Lexed(LexNumber(s).token, u[4..])
  {
    assert u[..4] == s[..4];
    assert Infinity(u);
  }

  /** An integer, float, duration or timestamp. */
  lemma LiteralAgain(c: Config, s: string, rest: string)
    requires s != [] && LexAt(c, s).token.kind in {Int, Float, DurationLit, TimestampLit}
    requires Ends(rest) && (LexAt(c, s).token.kind == TimestampLit ==> rest[0] != ':')
    ensures var t := LexAt(c, s).token;
            && NumberText(t) != [] && !IsBlank(NumberText(t)[0])
            && LexAt(c, NumberText(t) + rest) == Lexed(t, rest)
  {
    hide LexNumber, LexAt, NumberText;
    LexedNumber(c, s);
    TextAt(s);
    var k := NumberEnd(s);
    var u := s[..k] + rest;
    assert Agrees(s, u, k) && u[k..] == rest;
    if !IsDigit(s[0]) && Infinity(s) {
      InfinityEnd(s);
      InfinityAgain(s, u);
    } else {
      StartsNumber(s);
      NumberAgain(s, u, k);
    }
    assert u[0] == s[0];
    AtNumber(c, u);
  }

  lemma AtNumber(c: Config, u: string)
    requires u != [] && (IsDigit(u[0]) || u[0] == '-' || u[0] == '+')
    ensures LexAt(c, u) == LexNumber(u)
  {
    hide LexNumber, LexIdent, LexDirective, LexString, LexTriple, LexBytes, CommentEnd, LineEnd;
  }

  lemma StartsNumber(s: string)
    requires s != [] && (IsDigit(s[0]) || s[0] == '-' || s[0] == '+') && LexNumber(s).token.kind != Illegal
    requires IsDigit(s[0]) || !Infinity(s)
    ensures Numeric(s)
  {}
}
