/** Every token by its text, and the tokens of a whole text. */
module LexedText {
  import opened Lexing
  import opened TokenSpelling
  import opened NumberSpelling
  import opened TimeTokens
  import opened Decimals
  import Durations
  import Timestamps

  // Every token.

  predicate Infinite(text: string, rest: string) {
    (text == "-inf" || text == "+inf") && (rest == "" || !IdentPart(rest[0]))
  }

  /** The text of a number token before what follows. */
  ghost predicate NumberLexeme(text: string, t: Token, rest: string) {
    || (t == Plain(Float, text) && Infinite(text, rest))
    || (exists n :: Formed(n) && Stands(n, rest) && text == Text(n) && t == NumeralToken(n))
    || (t == Plain(DurationLit, text) && DurationLexeme(text, rest))
    || (t == Plain(TimestampLit, text) && TimestampLexeme(text, rest))
  }

  predicate NumberKind(k: Kind) {
    k == Int || k == Float || k == DurationLit || k == TimestampLit
  }

  /** The text of any token before what follows. */
  ghost predicate AnyLexeme(c: Config, text: string, t: Token, rest: string) {
    if NumberKind(t.kind) then NumberLexeme(text, t, rest) else Lexeme(c, text, t, rest)
  }

  predicate StartsNumber(s: string) {
    s != "" && (IsDigit(s[0]) || s[0] == '-' || s[0] == '+')
  }

  lemma {:induction false} InfinityTaken(text: string, rest: string)
    requires Infinite(text, rest)
    ensures LexNumber(text + rest) == Lexed(Plain(Float, text), rest)
  {
    var s := text + rest;
    assert s[..4] == text && s[4..] == rest && |text| == 4;
    assert s[0] == text[0] && s[1] == text[1] && s[2] == text[2] && s[3] == text[3];
    hide LexMagnitude;
  }

  lemma {:induction false} NumberTaken(text: string, t: Token, rest: string)
    requires NumberLexeme(text, t, rest)
    ensures StartsNumber(text + rest) && LexNumber(text + rest) == Lexed(t, rest)
  {
    hide LexNumber, DurationLexeme, TimestampLexeme;
    if t == Plain(Float, text) && Infinite(text, rest) {
      InfinityTaken(text, rest);
      assert (text + rest)[0] == text[0];
    } else if t == Plain(DurationLit, text) && DurationLexeme(text, rest) {
      DurationTaken(text, rest);
      assert text != "" by { DurationNotEmpty(text, rest); }
      assert (text + rest)[0] == text[0];
    } else if t == Plain(TimestampLit, text) && TimestampLexeme(text, rest) {
      TimestampTaken(text, rest);
      assert (text + rest)[0] == text[0];
    } else {
      var n :| Formed(n) && Stands(n, rest) && text == Text(n) && t == NumeralToken(n);
      NumeralTaken(n, rest);
      NumeralStarts(n, rest);
      hide Formed, Stands, NumeralToken, Text;
    }
  }

  lemma {:induction false} DurationNotEmpty(text: string, rest: string)
    requires DurationLexeme(text, rest)
    ensures text != ""
  {}

  lemma {:induction false} NumeralStarts(n: Numeral, rest: string)
    requires Formed(n)
    ensures StartsNumber(Text(n) + rest)
  {
    assert (Text(n) + rest)[0] == n.whole[0];
  }

  lemma {:induction false} InfinityOr(s: string)
    requires StartsNumber(s) && LexNumber(s).token.kind != Illegal
    ensures !IsDigit(s[0]) && Infinity(s) ==> LexNumber(s) == Lexed(Plain(Float, s[..4]), s[4..])
    ensures IsDigit(s[0]) || !Infinity(s) ==> IsDigit(s[0]) || (s[0] == '-' && IsDigit(At(s, 1)))
  {
    hide LexMagnitude;
  }

  /** A number not infinite, no duration and no timestamp is cut in parts. */
  lemma {:induction false} CutAt(s: string) returns (c: Cuts)
    requires IsDigit(At(s, 0)) || (At(s, 0) == '-' && IsDigit(At(s, 1)))
    requires LexNumber(s).token.kind == Int || LexNumber(s).token.kind == Float
    ensures NumberAt(s, c) && c.whole <= c.fraction <= c.point <= c.exponent <= c.suffix <= |s|
  {
    var i := DigitsEnd(s, if IsDigit(s[0]) then 0 else 1);
    var j := FractionEnd(s, i);
    var p := PointEnd(s, j);
    var e := ExponentEnd(s, p);
    c := Cuts(i, j, p, e, PrecisionEnd(s, e));
    FromDigits(s);
    CutsOrdered(s, c);
    TimestampKind(s, i);
    DurationKind(s, j);
    UnitWithin(s, j);
    hide DigitsEnd, FractionEnd, PointEnd, ExponentEnd, PrecisionEnd, DurationUnit, LexTimestamp, LexDuration, LexNumber;
  }

  lemma {:induction false} UnitWithin(s: string, j: nat)
    ensures DurationUnit(s, j) ==> j < |s|
  {}

  /** What the lexer takes for a number is one. */
  lemma {:induction false} NumberTakes(s: string) returns (text: string)
    requires StartsNumber(s) && LexNumber(s).token.kind != Illegal
    ensures s == text + LexNumber(s).rest && NumberLexeme(text, LexNumber(s).token, LexNumber(s).rest)
  {
    var l := LexNumber(s);
    if l.token.kind == DurationLit {
      DurationTakes(s);
      text := l.token.value;
      hide LexNumber, DurationLexeme;
    } else if l.token.kind == TimestampLit {
      TimestampTakes(s);
      text := l.token.value;
      hide LexNumber, TimestampLexeme;
    } else {
      InfinityOr(s);
      if !IsDigit(s[0]) && Infinity(s) {
        text := s[..4];
        InfiniteFront(s);
        hide LexNumber;
      } else {
        var c := CutAt(s);
        CutNumber(s, c);
        PartsStand(s, c);
        var n := Parts(s, c);
        text := Text(n);
        PartsText(s, c);
        hide *;
        assert NumberLexemeOf(text, n, l.token, l.rest);
        NumeralLexeme(text, n, l.token, l.rest);
      }
    }
  }

  predicate NumberLexemeOf(text: string, n: Numeral, t: Token, rest: string) {
    Formed(n) && Stands(n, rest) && text == Text(n) && t == NumeralToken(n)
  }

  lemma {:induction false} NumeralLexeme(text: string, n: Numeral, t: Token, rest: string)
    requires NumberLexemeOf(text, n, t, rest)
    ensures NumberLexeme(text, t, rest)
  {
    hide Formed, Stands, NumeralToken, Text;
  }

  lemma {:induction false} PartsText(s: string, c: Cuts)
    requires c.whole <= c.fraction <= c.point <= c.exponent <= c.suffix <= |s|
    ensures Text(Parts(s, c)) == s[..c.suffix] && s == s[..c.suffix] + s[c.suffix..]
  {
    SlicesJoin(s, c.whole, c.fraction, c.point, c.exponent);
    assert s[..c.exponent] + s[c.exponent..c.suffix] == s[..c.suffix];
  }

  lemma {:induction false} InfiniteFront(s: string)
    requires StartsNumber(s) && !IsDigit(s[0]) && Infinity(s)
    ensures s == s[..4] + s[4..] && Infinite(s[..4], s[4..])
  {
    assert s[..4] == [s[0]] + "inf";
  }

  /** What the lexer takes off the front of a text is a lexeme of its token. */
  lemma {:induction false} LexemeTakes(c: Config, s: string) returns (text: string)
    requires s != "" && LexAt(c, s).token.kind != Illegal
    ensures var l := LexAt(c, s);
            s == text + l.rest && AnyLexeme(c, text, l.token, l.rest)
  {
    if StartsNumber(s) {
      Opens(c, s);
      hide LexAt, LexNumber;
      text := NumberTakes(s);
      NumberKinds(s);
    } else {
      text := OtherTakes(c, s);
      OtherIs(c, s, text);
      hide LexAt, Lexeme, NumberLexeme, Other;
    }
  }

  lemma {:induction false} OtherIs(c: Config, s: string, text: string)
    requires s != "" && Other(c, s, text)
    ensures s == text + LexAt(c, s).rest && AnyLexeme(c, text, LexAt(c, s).token, LexAt(c, s).rest)
  {
    hide LexAt, Lexeme, NumberLexeme;
  }

  lemma {:induction false} NumberKinds(s: string)
    requires StartsNumber(s) && LexNumber(s).token.kind != Illegal
    ensures NumberKind(LexNumber(s).token.kind)
  {}

  /** The text is a lexeme of the first token, which is no number. */
  ghost predicate Other(c: Config, s: string, text: string)
    requires s != ""
  {
    var l := LexAt(c, s);
    s == text + l.rest && !NumberKind(l.token.kind) && Lexeme(c, text, l.token, l.rest)
  }

  lemma {:induction false} OtherTakes(c: Config, s: string) returns (text: string)
    requires s != "" && !StartsNumber(s) && LexAt(c, s).token.kind != Illegal
    ensures Other(c, s, text)
  {
    hide LexAt, Other, Punctuation;
    if s[0] == '\n' {
      text := "\n";
      NewlineOther(c, s);
    } else if s[0] == '#' || s[0] == '/' {
      text := CommentTakes(c, s);
      CommentOther(c, s, text);
    } else if s[0] == '"' {
      text := Taken(c, s);
      StringOther(c, s);
    } else if "b\"" <= s || s[0] == '@' {
      text := Taken(c, s);
      MarkedOther(c, s);
    } else if IdentStart(s[0]) {
      text := Taken(c, s);
      WordOther(c, s);
    } else {
      text := s[..1];
      PunctuationOnly(c, s);
      MarkOther(c, s);
    }
  }

  lemma {:induction false} NewlineOther(c: Config, s: string)
    requires s != "" && s[0] == '\n'
    ensures Other(c, s, "\n")
  {
    hide LexAt;
    assert s == "\n" + s[1..];
    NewlineTaken(c, s[1..]);
  }

  lemma {:induction false} CommentOther(c: Config, s: string, text: string)
    requires s != "" && s == text + LexAt(c, s).rest && LexAt(c, s).token == Plain(Comment, text)
    requires LineComment(text, LexAt(c, s).rest) || BlockComment(text)
    ensures Other(c, s, text)
  {
    hide LexAt, LineComment, BlockComment;
  }

  lemma {:induction false} StringOther(c: Config, s: string)
    requires s != "" && s[0] == '"' && LexAt(c, s).token.kind != Illegal
    ensures Other(c, s, Taken(c, s))
  {
    hide LexAt, Quoted, Tripled, IsUtf8;
    if QUOTES <= s {
      Triples(c, s);
    } else {
      Strings(c, s);
    }
  }

  lemma {:induction false} MarkedOther(c: Config, s: string)
    requires s != "" && ("b\"" <= s || s[0] == '@') && LexAt(c, s).token.kind != Illegal
    ensures Other(c, s, Taken(c, s))
  {
    hide LexAt, BytesLexeme, Directive;
    if s[0] == '@' {
      Directives(c, s);
      DirectiveKinds(Taken(c, s), LexAt(c, s).token, LexAt(c, s).rest);
    } else {
      BytesLiterals(c, s);
    }
  }

  lemma {:induction false} WordOther(c: Config, s: string)
    requires s != "" && IdentStart(s[0]) && !("b\"" <= s)
    ensures Other(c, s, Taken(c, s))
  {
    hide LexAt, WordLexeme;
    Words(c, s);
  }

  lemma {:induction false} MarkOther(c: Config, s: string)
    requires s != "" && Punctuation(s[0]).Some?
    ensures Other(c, s, s[..1])
  {
    hide LexAt, MarkLexeme, Punctuation;
    Marks(c, s);
    MarkKinds(s[..1], LexAt(c, s).token);
    assert s == s[..1] + s[1..];
  }

  lemma {:induction false} DirectiveKinds(text: string, t: Token, rest: string)
    requires Directive(text, t, rest)
    ensures t.kind in {AtType, AtDataset, AtProto, AtDirective}
  {}

  lemma {:induction false} MarkKinds(text: string, t: Token)
    requires MarkLexeme(text, t)
    ensures t.kind in {LBrace, RBrace, LBracket, RBracket, LParen, RParen, Equals, Colon, Comma}
  {}

  lemma {:induction false} CommentTakes(c: Config, s: string) returns (text: string)
    requires s != "" && (s[0] == '#' || s[0] == '/') && LexAt(c, s).token.kind != Illegal
    ensures var l := LexAt(c, s);
            s == text + l.rest && l.token == Plain(Comment, text) && (LineComment(text, l.rest) || BlockComment(text))
  {
    CommentOpens(c, s);
    if s[0] == '#' || "//" <= s {
      LineComments(c, s);
      text := s[..LineEnd(s, 1)];
    } else {
      assert "/*" <= s;
      BlockComments(c, s);
      text := Taken(c, s);
    }
    hide LexAt, LineComment, BlockComment;
  }

  lemma {:induction false} PunctuationOnly(c: Config, s: string)
    requires s != "" && !StartsNumber(s) && s[0] !in {'\n', '#', '/', '"', '@'} && !IdentStart(s[0]) && LexAt(c, s).token.kind != Illegal
    ensures Punctuation(s[0]).Some?
  {
    hide LexNumber, LexIdent, LexDirective, LexString, LexTriple, LexBytes, CommentEnd, LineEnd;
  }

  /** The first token of a text and what follows it are exactly a lexeme at its front
      that what follows leaves whole, and that rest. */
  lemma {:induction false} TokenExactly(c: Config, s: string, t: Token, rest: string)
    requires s != "" && t.kind != Illegal
    ensures LexAt(c, s) == Lexed(t, rest) <==> exists text :: s == text + rest && AnyLexeme(c, text, t, rest)
  {
    hide LexAt, AnyLexeme;
    if LexAt(c, s) == Lexed(t, rest) {
      var text := LexemeTakes(c, s);
    }
    if text :| s == text + rest && AnyLexeme(c, text, t, rest) {
      AnyTaken(c, text, t, rest);
    }
  }

  lemma {:induction false} AnyTaken(c: Config, text: string, t: Token, rest: string)
    requires AnyLexeme(c, text, t, rest) && text + rest != ""
    ensures LexAt(c, text + rest) == Lexed(t, rest)
  {
    hide LexAt, NumberLexeme, Lexeme;
    if NumberKind(t.kind) {
      NumberTaken(text, t, rest);
      Opens(c, text + rest);
    } else {
      LexemeTaken(c, text, t, rest);
    }
  }

  lemma {:induction false} NotEof(c: Config, text: string, t: Token, rest: string)
    requires AnyLexeme(c, text, t, rest)
    ensures t.kind != Eof
  {
    if t.kind == Eof {
      MarkKinds(text, t);
      assert false;
    }
  }

  lemma {:induction false} IllegalIs(c: Config, s: string)
    requires s != "" && LexAt(c, s).token.kind == Illegal
    ensures LexAt(c, s) == ILLEGAL
  {
    if StartsNumber(s) {
      Opens(c, s);
      IllegalNumber(s);
      hide LexNumber, LexAt;
    } else {
      hide LexNumber, TripleQuotes, BytesEnd, EscapeAt, IsUtf8, IdentEnd, CommentEnd, LineEnd, ValidBase64;
      IllegalString(s[1..], "");
      hide LexString;
    }
  }

  lemma {:induction false} IllegalString(s: string, buf: string)
    ensures LexString(s, buf).token.kind == Illegal ==> LexString(s, buf) == ILLEGAL
    decreases |s|
  {
    hide EscapeAt, IsUtf8;
    if s != "" && s[0] != '\n' && s[0] != '"' {
      if s[0] != '\\' {
        IllegalString(s[1..], buf + [s[0]]);
      } else if |s| > 1 && EscapeAt(s[1..]).Some? {
        IllegalString(s[1 + EscapeAt(s[1..]).value.length..], buf + EscapeAt(s[1..]).value.bytes);
      }
    }
  }

  lemma {:induction false} IllegalNumber(s: string)
    requires StartsNumber(s)
    ensures LexNumber(s).token.kind == Illegal ==> LexNumber(s) == ILLEGAL
  {
    hide DigitsEnd, FractionEnd, DurationUnit, TimestampEnd, DurationEnd, Timestamps.Valid, Durations.Valid, FloatEnd, PrecisionEnd;
  }

  /** The tokens of a text, one lexeme after another: blanks, line ends and comments
      give none, and where no lexeme stands an illegal token ends them. */
  lemma {:induction false} TokensExactly(c: Config, s: string)
    ensures Tokens(c, "") == []
    ensures s != "" && s[0] in " \t\r" ==> Tokens(c, s) == Tokens(c, s[1..])
    ensures forall text, t: Token, rest :: s != "" && s[0] !in " \t\r" && s == text + rest && t.kind != Illegal && AnyLexeme(c, text, t, rest) ==>
              Tokens(c, s) == if t.kind == Newline || t.kind == Comment then Tokens(c, rest) else [t] + Tokens(c, rest)
    ensures s != "" && s[0] !in " \t\r" && !(exists text, t: Token, rest :: s == text + rest && t.kind != Illegal && AnyLexeme(c, text, t, rest)) ==>
              Tokens(c, s) == [ILLEGAL.token]
  {
    hide LexAt, AnyLexeme;
    if s != "" {
      if s[0] in " \t\r" {
        assert SkipBlanks(s) == SkipBlanks(s[1..]);
      } else {
        assert SkipBlanks(s) == s;
        forall text, t: Token, rest | s == text + rest && t.kind != Illegal && AnyLexeme(c, text, t, rest) ensures
            LexAt(c, s) == Lexed(t, rest) && t.kind != Eof {
          AnyTaken(c, text, t, rest);
          NotEof(c, text, t, rest);
        }
        var l := LexAt(c, s);
        if l.token.kind == Illegal {
          IllegalIs(c, s);
        } else {
          var text := LexemeTakes(c, s);
          NotEof(c, text, l.token, l.rest);
        }
      }
    }
  }
}
