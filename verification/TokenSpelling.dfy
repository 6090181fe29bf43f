/** The tokens by their texts: the lexer takes a lexeme off the front of a text, and
    takes every lexeme that what follows does not make longer. */
module TokenSpelling {
  import opened Options
  import opened Decimals
  import opened Lexing
  import StringSpelling

  // Lexemes.

  predicate LineComment(text: string, rest: string) {
    && text != "" && (text[0] == '#' || "//" <= text)
    && '\n' !in text && (rest == "" || rest[0] == '\n')
  }

  /** From its opening to the first closing mark after it. */
  predicate BlockComment(text: string) {
    && |text| >= 4 && "/*" <= text && text[|text| - 2..] == "*/"
    && forall k :: 2 <= k < |text| - 2 ==> !("*/" <= text[k..])
  }

  /** Not the start of a triple-quoted string. */
  ghost predicate Quoted(text: string, value: string, rest: string) {
    && (exists ps :: StringSpelling.AllDenote(ps, value) && text == "\"" + StringSpelling.Texts(ps) + "\"")
    && (text == "\"\"" ==> rest == "" || rest[0] != '"')
  }

  const QUOTES: string := "\"\"\""

  /** From three quotes to the first three after them, dedented. */
  predicate Tripled(c: Config, text: string, value: string) {
    && |text| >= 6 && QUOTES <= text && text[|text| - 3..] == QUOTES
    && (forall k :: 3 <= k < |text| - 3 ==> !(QUOTES <= text[k..]))
    && value == c.dedent(text[3..|text| - 3])
  }

  predicate BytesLexeme(c: Config, text: string, value: string) {
    && text == "b\"" + value + "\""
    && '"' !in value && '\n' !in value && ValidBase64(value) && |value| / 4 * 3 <= c.maxBytes
  }

  /** A whole word. */
  predicate Word(text: string, rest: string) {
    (forall k :: 0 <= k < |text| ==> IdentPart(text[k])) && (rest == "" || !IdentPart(rest[0]))
  }

  /** A word the opening of a bytes literal is not part of. */
  predicate WordLexeme(text: string, rest: string) {
    text != "" && IdentStart(text[0]) && Word(text, rest) && !(text == "b" && rest != "" && rest[0] == '"')
  }

  function WordKind(text: string): Kind {
    if text == "true" || text == "false" then Bool else if text == "null" then Null else Ident
  }

  function DirectiveToken(name: string): Token {
    match name
    case "type" => Plain(AtType, "@type")
    case "dataset" => Plain(AtDataset, "@dataset")
    case "proto" => Plain(AtProto, "@proto")
    case _ => Plain(AtDirective, name)
  }

  const MARKS: string := "{}[]()=:,"
  const MARK_KINDS: seq<Kind> := [LBrace, RBrace, LBracket, RBracket, LParen, RParen, Equals, Colon, Comma]

  ghost predicate MarkLexeme(text: string, t: Token) {
    exists i :: 0 <= i < |MARKS| && text == [MARKS[i]] && t == Plain(MARK_KINDS[i], text)
  }

  /** The text of a token that is no number, before what follows. */
  ghost predicate Lexeme(c: Config, text: string, t: Token, rest: string) {
    match t.kind
    case Newline => text == "\n" && t == Plain(Newline, "")
    case Comment => t == Plain(Comment, text) && (LineComment(text, rest) || BlockComment(text))
    case Str => t.prec == "" && IsUtf8(t.value) && (Quoted(text, t.value, rest) || Tripled(c, text, t.value))
    case BytesLit => t.prec == "" && BytesLexeme(c, text, t.value)
    case Ident => t == Plain(WordKind(text), text) && WordLexeme(text, rest)
    case Bool => t == Plain(WordKind(text), text) && WordLexeme(text, rest)
    case Null => t == Plain(WordKind(text), text) && WordLexeme(text, rest)
    case AtType => Directive(text, t, rest)
    case AtDataset => Directive(text, t, rest)
    case AtProto => Directive(text, t, rest)
    case AtDirective => Directive(text, t, rest)
    case _ => MarkLexeme(text, t)
  }

  predicate Directive(text: string, t: Token, rest: string) {
    |text| > 1 && text[0] == '@' && Word(text[1..], rest) && t == DirectiveToken(text[1..])
  }

  // Characters.

  const SMALL: string := "abcdefghijklmnopqrstuvwxyz"
  const CAPITALS: string := "ABCDEFGHIJKLMNOPQRSTUVWXYZ"
  const LETTERS: string := SMALL + CAPITALS
  const DIGITS: string := "0123456789"

  /** The characters of words and of bytes literals, and the blanks. */
  lemma {:induction false} CharactersAre(ch: char)
    ensures IsDigit(ch) <==> ch in DIGITS
    ensures IdentStart(ch) <==> ch in LETTERS || ch == '_'
    ensures IdentPart(ch) <==> ch in LETTERS + DIGITS + "_."
    ensures Base64Char(ch) <==> ch in LETTERS + DIGITS + "+/"
    ensures IsBlank(ch) <==> ch in " \t\r"
  {
    LettersAre(ch);
    assert IsDigit(ch) ==> DIGITS[ch as int - '0' as int] == ch;
    assert ch in LETTERS + DIGITS + "_." <==> ch in LETTERS || ch in DIGITS || ch in "_.";
    assert ch in LETTERS + DIGITS + "+/" <==> ch in LETTERS || ch in DIGITS || ch in "+/";
  }

  lemma {:induction false} LettersAre(ch: char)
    ensures IsLower(ch) <==> ch in SMALL
    ensures ch in LETTERS <==> IsLower(ch) || 'A' <= ch <= 'Z'
  {
    SmallAre(ch);
    CapitalsAre(ch);
    assert ch in LETTERS <==> ch in SMALL || ch in CAPITALS;
  }

  lemma {:induction false} SmallAre(ch: char)
    ensures IsLower(ch) <==> ch in SMALL
  {
    if IsLower(ch) {
      assert SMALL[ch as int - 'a' as int] == ch;
    }
  }

  lemma {:induction false} CapitalsAre(ch: char)
    ensures 'A' <= ch <= 'Z' <==> ch in CAPITALS
  {
    if 'A' <= ch <= 'Z' {
      assert CAPITALS[ch as int - 'A' as int] == ch;
    }
  }

  /** A timestamp ends before a blank, a line end, a comma, a closing bracket or
      brace, or a comment; a duration goes on with a digit, a small letter, a point
      before a digit, or a micro sign. */
  lemma {:induction false} StopsAre(s: string, i: nat)
    requires i <= |s|
    ensures TimestampStop(s, i) <==> (i < |s| && s[i] in " \n\t\r,]}#") || "//" <= s[i..] || "/*" <= s[i..]
    ensures DurationPart(s, i) <==>
      i < |s| && (s[i] in SMALL + DIGITS || (s[i] == '.' && i + 1 < |s| && s[i + 1] in DIGITS))
    ensures MicroSign(s, i) <==> [0xc2 as char, 0xb5 as char] <= s[i..]
  {
    assert i < |s| ==> s[i..][0] == s[i];
    assert i + 1 < |s| ==> s[i..][1] == s[i + 1];
    if i < |s| {
      LettersAre(s[i]);
      CharactersAre(s[i]);
      if i + 1 < |s| {
        CharactersAre(s[i + 1]);
      }
    }
  }

  // The lexer's runs.

  lemma {:induction false} LineEndIs(s: string, i: nat, e: nat)
    requires i <= e <= |s| && (forall k :: i <= k < e ==> s[k] != '\n') && (e < |s| ==> s[e] == '\n')
    ensures LineEnd(s, i) == e
    decreases e - i
  {
    if i < e {
      LineEndIs(s, i + 1, e);
    }
  }

  lemma {:induction false} LineEndStops(s: string, i: nat)
    requires i <= |s|
    ensures var e := LineEnd(s, i);
            (forall k :: i <= k < e ==> s[k] != '\n') && (e < |s| ==> s[e] == '\n')
    decreases |s| - i
  {
    if i < |s| && s[i] != '\n' {
      LineEndStops(s, i + 1);
    }
  }

  lemma {:induction false} CommentEndIs(s: string, i: nat, e: nat)
    requires i + 2 <= e <= |s| && s[e - 2] == '*' && s[e - 1] == '/'
    requires forall k :: i <= k < e - 2 ==> !(s[k] == '*' && s[k + 1] == '/')
    ensures CommentEnd(s, i) == Some(e)
    decreases e - i
  {
    if i < e - 2 {
      CommentEndIs(s, i + 1, e);
    }
  }

  lemma {:induction false} CommentEndStops(s: string, i: nat)
    requires CommentEnd(s, i).Some?
    ensures var e := CommentEnd(s, i).value;
            && i + 2 <= e <= |s| && s[e - 2] == '*' && s[e - 1] == '/'
            && forall k :: i <= k < e - 2 ==> !(s[k] == '*' && s[k + 1] == '/')
    decreases |s| - i
  {
    if !(s[i] == '*' && s[i + 1] == '/') {
      CommentEndStops(s, i + 1);
    }
  }

  lemma {:induction false} TripleIs(s: string, i: nat, e: nat)
    requires i <= e && e + 3 <= |s| && s[e] == '"' && s[e + 1] == '"' && s[e + 2] == '"'
    requires forall k :: i <= k < e ==> !(s[k] == '"' && s[k + 1] == '"' && s[k + 2] == '"')
    ensures TripleQuotes(s, i) == Some(e)
    decreases e - i
  {
    if i < e {
      TripleIs(s, i + 1, e);
    }
  }

  lemma {:induction false} TripleStops(s: string, i: nat)
    requires TripleQuotes(s, i).Some?
    ensures var e := TripleQuotes(s, i).value;
            && i <= e && e + 3 <= |s| && s[e] == '"' && s[e + 1] == '"' && s[e + 2] == '"'
            && forall k :: i <= k < e ==> !(s[k] == '"' && s[k + 1] == '"' && s[k + 2] == '"')
    decreases |s| - i
  {
    if !(s[i] == '"' && s[i + 1] == '"' && s[i + 2] == '"') {
      TripleStops(s, i + 1);
    }
  }

  lemma {:induction false} BytesEndIs(c: Config, s: string, i: nat, e: nat)
    requires i <= e < |s| && s[e] == '"' && e / 4 * 3 <= c.maxBytes
    requires forall k :: i <= k < e ==> s[k] != '"' && s[k] != '\n'
    ensures BytesEnd(c, s, i) == Some(e)
    decreases e - i
  {
    if i < e {
      BytesEndIs(c, s, i + 1, e);
    }
  }

  lemma {:induction false} BytesEndStops(c: Config, s: string, i: nat)
    requires BytesEnd(c, s, i).Some?
    ensures var e := BytesEnd(c, s, i).value;
            i <= e < |s| && e / 4 * 3 <= c.maxBytes && forall k :: i <= k < e ==> s[k] != '"' && s[k] != '\n'
    decreases |s| - i
  {
    if s[i] != '"' {
      BytesEndStops(c, s, i + 1);
    }
  }

  // Every lexeme is taken.

  /** Which lexer reads on from the first character. */
  lemma {:induction false} Opens(c: Config, s: string)
    requires s != ""
    ensures s[0] == '"' ==> LexAt(c, s) == if At(s, 1) == '"' && At(s, 2) == '"' then LexTriple(c, s) else LexString(s[1..], "")
    ensures s[0] == 'b' && At(s, 1) == '"' ==> LexAt(c, s) == LexBytes(c, s)
    ensures s[0] == '@' ==> LexAt(c, s) == LexDirective(s)
    ensures IdentStart(s[0]) && !(s[0] == 'b' && At(s, 1) == '"') ==> LexAt(c, s) == LexIdent(s)
    ensures IsDigit(s[0]) || s[0] == '-' || s[0] == '+' ==> LexAt(c, s) == LexNumber(s)
  {
    hide LexNumber, LexIdent, LexDirective, LexString, LexTriple, LexBytes, CommentEnd, LineEnd;
  }

  lemma {:induction false} CommentOpens(c: Config, s: string)
    requires s != "" && (s[0] == '#' || s[0] == '/')
    ensures s[0] == '#' || At(s, 1) == '/' ==> LexAt(c, s) == Lexed(Plain(Comment, s[..LineEnd(s, 1)]), s[LineEnd(s, 1)..])
    ensures s[0] == '/' && At(s, 1) == '*' ==>
      LexAt(c, s) == match CommentEnd(s, 2) case None => ILLEGAL case Some(e) => Lexed(Plain(Comment, s[..e]), s[e..])
    ensures s[0] == '/' && At(s, 1) != '/' && At(s, 1) != '*' ==> LexAt(c, s) == ILLEGAL
  {
    hide LexNumber, LexIdent, LexDirective, LexString, LexTriple, LexBytes, CommentEnd, LineEnd;
  }

  lemma {:induction false} Front(text: string, rest: string)
    ensures (text + rest)[..|text|] == text && (text + rest)[|text|..] == rest
    ensures forall k :: 0 <= k < |text| ==> (text + rest)[k] == text[k]
    ensures forall k :: 0 <= k <= |text| ==> (text + rest)[k..] == text[k..] + rest
    ensures rest != "" ==> (text + rest)[|text|] == rest[0]
  {}

  lemma {:induction false} LineTaken(c: Config, text: string, rest: string)
    requires LineComment(text, rest)
    ensures LexAt(c, text + rest) == Lexed(Plain(Comment, text), rest)
  {
    hide LexAt;
    var s := text + rest;
    Front(text, rest);
    LineEndIs(s, 1, |text|);
    hide LineEnd;
    CommentOpens(c, s);
  }

  lemma {:induction false} BlockTaken(c: Config, text: string, rest: string)
    requires BlockComment(text)
    ensures LexAt(c, text + rest) == Lexed(Plain(Comment, text), rest)
  {
    hide LexAt;
    var s := text + rest;
    Front(text, rest);
    var n := |text|;
    assert text[n - 2..][0] == text[n - 2] && text[n - 2..][1] == text[n - 1];
    forall k | 2 <= k < n - 2 ensures !(s[k] == '*' && s[k + 1] == '/') {
      assert !("*/" <= text[k..]);
      assert text[k..][0] == text[k] && text[k..][1] == text[k + 1];
    }
    CommentEndIs(s, 2, n);
    hide CommentEnd;
    CommentOpens(c, s);
  }

  lemma {:induction false} QuotedTaken(c: Config, text: string, value: string, rest: string)
    requires Quoted(text, value, rest) && IsUtf8(value)
    ensures LexAt(c, text + rest) == Lexed(Plain(Str, value), rest)
  {
    hide LexAt, LexString, LexTriple, IsUtf8;
    var ps :| StringSpelling.AllDenote(ps, value) && text == "\"" + StringSpelling.Texts(ps) + "\"";
    var s := text + rest;
    var body := StringSpelling.Texts(ps);
    NoQuoteFirst(ps, value);
    assert |text| == |body| + 2;
    assert body == "" ==> text == "\"\"";
    hide *;
    Requoted(body, rest);
    StringSpelling.PiecesRead(ps, value, rest, "");
    assert "" + value == value;
    NotTripled(body, rest);
    QuoteOpens(c, s);
  }

  lemma {:induction false} Requoted(body: string, rest: string)
    ensures ("\"" + body + "\"" + rest)[1..] == body + ("\"" + rest)
  {}

  lemma {:induction false} QuoteOpens(c: Config, s: string)
    requires s != "" && s[0] == '"' && !(At(s, 1) == '"' && At(s, 2) == '"')
    ensures LexAt(c, s) == LexString(s[1..], "")
  {
    hide LexAt, LexString, LexTriple;
    Opens(c, s);
  }

  lemma {:induction false} NotTripled(body: string, rest: string)
    requires body != "" ==> body[0] != '"'
    requires body == "" ==> rest == "" || rest[0] != '"'
    ensures var s := "\"" + body + "\"" + rest;
            s[0] == '"' && !(At(s, 1) == '"' && At(s, 2) == '"')
  {
    var s := "\"" + body + "\"" + rest;
    if body == "" {
      assert s == "\"\"" + rest;
    } else {
      assert s[1] == body[0];
    }
  }

  /** No piece starts with a quote. */
  lemma {:induction false} NoQuoteFirst(ps: seq<StringSpelling.Piece>, value: string)
    requires StringSpelling.AllDenote(ps, value)
    ensures StringSpelling.Texts(ps) != "" ==> StringSpelling.Texts(ps)[0] != '"'
  {
    if ps != [] {
      var k := StringSpelling.FirstDenotes(ps, value);
      var p := ps[0];
      assert |StringSpelling.Text(p)| > 0 && StringSpelling.Text(p)[0] != '"';
    }
  }

  lemma {:induction false} TripledTaken(c: Config, text: string, value: string, rest: string)
    requires Tripled(c, text, value) && IsUtf8(value)
    ensures LexAt(c, text + rest) == Lexed(Plain(Str, value), rest)
  {
    hide LexAt, LexString, IsUtf8, LexTriple;
    var s, e := text + rest, |text| - 3;
    Front(text, rest);
    assert text[e..][0] == text[e] && text[e..][1] == text[e + 1] && text[e..][2] == text[e + 2];
    forall k | 3 <= k < e ensures !(s[k] == '"' && s[k + 1] == '"' && s[k + 2] == '"') {
      assert !(QUOTES <= text[k..]);
      assert text[k..][0] == text[k] && text[k..][1] == text[k + 1] && text[k..][2] == text[k + 2];
    }
    TripleIs(s, 3, e);
    assert s[3..e] == text[3..e];
    Opens(c, s);
    TripleTaken(c, s, e, value);
  }

  lemma {:induction false} TripleTaken(c: Config, s: string, e: nat, value: string)
    requires e + 3 <= |s| && TripleQuotes(s, 3) == Some(e) && value == c.dedent(s[3..e]) && IsUtf8(value)
    ensures LexTriple(c, s) == Lexed(Plain(Str, value), s[e + 3..])
  {
    hide TripleQuotes, IsUtf8;
  }

  lemma {:induction false} BytesTaken(c: Config, text: string, value: string, rest: string)
    requires BytesLexeme(c, text, value)
    ensures LexAt(c, text + rest) == Lexed(Plain(BytesLit, value), rest)
  {
    hide LexAt, ValidBase64, LexBytes;
    var s := text + rest;
    var inner := value + ("\"" + rest);
    BytesBody(value, rest);
    Front(value, "\"" + rest);
    BytesEndIs(c, inner, 0, |value|);
    assert inner[..|value|] == value && inner[|value| + 1..] == rest;
    Opens(c, s);
    BodyTaken(c, s, |value|);
  }

  lemma {:induction false} BytesBody(value: string, rest: string)
    ensures ("b\"" + value + "\"" + rest)[2..] == value + ("\"" + rest)
  {}

  lemma {:induction false} BodyTaken(c: Config, s: string, e: nat)
    requires |s| >= 2 && BytesEnd(c, s[2..], 0) == Some(e) && ValidBase64(s[2..][..e])
    ensures LexBytes(c, s) == Lexed(Plain(BytesLit, s[2..][..e]), s[2..][e + 1..])
  {
    hide BytesEnd, ValidBase64;
  }

  lemma {:induction false} WordTaken(c: Config, text: string, rest: string)
    requires WordLexeme(text, rest)
    ensures LexAt(c, text + rest) == Lexed(Plain(WordKind(text), text), rest)
  {
    hide LexAt, LexIdent;
    var s := text + rest;
    Front(text, rest);
    WordEnd(s, |text|);
    assert s[0] == 'b' && At(s, 1) == '"' ==> text == "b" by { BytesOpening(text, rest); }
    Opens(c, s);
    IdentTaken(s, |text|);
  }

  lemma {:induction false} WordEnd(s: string, e: nat)
    requires e <= |s| && (forall k :: 0 <= k < e ==> IdentPart(s[k])) && (e < |s| ==> !IdentPart(s[e]))
    ensures IdentEnd(s, 0) == e
  {}

  lemma {:induction false} BytesOpening(text: string, rest: string)
    requires text != "" && Word(text, rest)
    ensures (text + rest)[0] == 'b' && At(text + rest, 1) == '"' ==> text == "b"
  {
    if |text| > 1 {
      assert (text + rest)[1] == text[1];
    }
  }

  lemma {:induction false} IdentTaken(s: string, e: nat)
    requires 0 < e <= |s| && IdentStart(s[0]) && IdentEnd(s, 0) == e
    ensures LexIdent(s) == Lexed(Plain(WordKind(s[..e]), s[..e]), s[e..])
  {
    hide IdentEnd;
  }

  lemma {:induction false} DirectiveTaken(c: Config, text: string, t: Token, rest: string)
    requires Directive(text, t, rest)
    ensures LexAt(c, text + rest) == Lexed(t, rest)
  {
    hide LexAt;
    var s, name := text + rest, text[1..];
    Front(text, rest);
    assert forall k :: 1 <= k < |text| ==> s[k] == name[k - 1];
    NameEnd(s, |text|);
    hide Word, IdentEnd, DirectiveToken;
    assert s[1..|text|] == name;
    Opens(c, s);
    DirectiveIs(s, |text|);
  }

  lemma {:induction false} NameEnd(s: string, e: nat)
    requires 1 <= e <= |s| && (forall k :: 1 <= k < e ==> IdentPart(s[k])) && (e < |s| ==> !IdentPart(s[e]))
    ensures IdentEnd(s, 1) == e
  {}

  lemma {:induction false} DirectiveIs(s: string, e: nat)
    requires 1 < e <= |s| && IdentEnd(s, 1) == e
    ensures LexDirective(s) == Lexed(DirectiveToken(s[1..e]), s[e..])
  {
    hide IdentEnd;
  }

  lemma {:induction false} MarkTaken(c: Config, text: string, t: Token, rest: string)
    requires MarkLexeme(text, t)
    ensures LexAt(c, text + rest) == Lexed(t, rest)
  {
    var i :| 0 <= i < |MARKS| && text == [MARKS[i]] && t == Plain(MARK_KINDS[i], text);
    var s := text + rest;
    assert s[0] == MARKS[i] && s[1..] == rest && [s[0]] == text;
    assert Punctuation(MARKS[i]) == Some(MARK_KINDS[i]);
    assert MARKS[i] !in {'\n', '#', '/', '"', 'b'};
    hide LexNumber, LexIdent, LexDirective, LexString, LexTriple, LexBytes, CommentEnd, LineEnd, Punctuation;
  }

  /** A lexeme is taken off the front. */
  lemma {:induction false} LexemeTaken(c: Config, text: string, t: Token, rest: string)
    requires Lexeme(c, text, t, rest)
    ensures LexAt(c, text + rest) == Lexed(t, rest)
  {
    match t.kind
    case Newline => NewlineTaken(c, rest);
    case Comment =>
      if LineComment(text, rest) {
        LineTaken(c, text, rest);
      } else {
        BlockTaken(c, text, rest);
      }
    case Str =>
      if Quoted(text, t.value, rest) {
        QuotedTaken(c, text, t.value, rest);
      } else {
        TripledTaken(c, text, t.value, rest);
      }
    case BytesLit => BytesTaken(c, text, t.value, rest);
    case Ident => WordTaken(c, text, rest);
    case Bool => WordTaken(c, text, rest);
    case Null => WordTaken(c, text, rest);
    case AtType => DirectiveTaken(c, text, t, rest);
    case AtDataset => DirectiveTaken(c, text, t, rest);
    case AtProto => DirectiveTaken(c, text, t, rest);
    case AtDirective => DirectiveTaken(c, text, t, rest);
    case _ => MarkTaken(c, text, t, rest);
    hide LexAt, Quoted, Tripled, BytesLexeme, LineComment, BlockComment, WordLexeme, Directive, IsUtf8;
  }

  lemma {:induction false} NewlineTaken(c: Config, rest: string)
    ensures LexAt(c, "\n" + rest) == Lexed(Plain(Newline, ""), rest)
  {
    assert ("\n" + rest)[1..] == rest;
    hide LexNumber, LexIdent, LexDirective, LexString, LexTriple, LexBytes, CommentEnd, LineEnd, Punctuation;
  }

  // What is taken is a lexeme.

  /** The text taken off the front. */
  function Taken(c: Config, s: string): string
    requires s != ""
  {
    s[..|s| - |LexAt(c, s).rest|]
  }

  lemma {:induction false} LineComments(c: Config, s: string)
    requires s != "" && (s[0] == '#' || "//" <= s)
    ensures var text := s[..LineEnd(s, 1)];
            LexAt(c, s) == Lexed(Plain(Comment, text), s[|text|..]) && LineComment(text, s[|text|..])
  {
    hide LexAt;
    CommentOpens(c, s);
    LineEndStops(s, 1);
    var e := LineEnd(s, 1);
    hide LineEnd;
    if s[0] == '/' {
      assert e > 1;
      assert s[..e][..2] == s[..2];
    }
  }

  lemma {:induction false} BlockComments(c: Config, s: string)
    requires "/*" <= s && LexAt(c, s).token.kind != Illegal
    ensures var text := Taken(c, s);
            LexAt(c, s) == Lexed(Plain(Comment, text), s[|text|..]) && BlockComment(text)
  {
    hide LexAt;
    CommentOpens(c, s);
    CommentEndStops(s, 2);
    var e := CommentEnd(s, 2).value;
    hide CommentEnd;
    var text := s[..e];
    assert text[..2] == s[..2];
    assert text[e - 2..] == "*/";
    forall k | 2 <= k < e - 2 ensures !("*/" <= text[k..]) {
      assert text[k..][0] == s[k] && text[k..][1] == s[k + 1];
    }
  }

  lemma {:induction false} Triples(c: Config, s: string)
    requires QUOTES <= s && LexAt(c, s).token.kind != Illegal
    ensures var text, l := Taken(c, s), LexAt(c, s);
            l == Lexed(Plain(Str, l.token.value), s[|text|..]) && IsUtf8(l.token.value) && Tripled(c, text, l.token.value)
  {
    hide LexAt, IsUtf8;
    Opens(c, s);
    TripleStops(s, 3);
    var e := TripleQuotes(s, 3).value;
    hide TripleQuotes;
    var text := s[..e + 3];
    assert text[..3] == s[..3] && text[3..e] == s[3..e];
    assert text[e..] == QUOTES;
    forall k | 3 <= k < e ensures !(QUOTES <= text[k..]) {
      assert text[k..][0] == s[k] && text[k..][1] == s[k + 1] && text[k..][2] == s[k + 2];
    }
  }

  lemma {:induction false} Strings(c: Config, s: string)
    requires s != "" && s[0] == '"' && !(QUOTES <= s) && LexAt(c, s).token.kind != Illegal
    ensures var text, l := Taken(c, s), LexAt(c, s);
            l == Lexed(Plain(Str, l.token.value), s[|text|..]) && IsUtf8(l.token.value) && Quoted(text, l.token.value, l.rest)
  {
    hide LexAt, IsUtf8, StringSpelling.AllDenote;
    assert !(At(s, 1) == '"' && At(s, 2) == '"');
    QuoteOpens(c, s);
    var ps, value := StringSpelling.PiecesOf(s[1..], "");
    var l, body := LexAt(c, s), StringSpelling.Texts(ps);
    assert "" + value == value;
    hide LexString, StringSpelling.Texts;
    Unquoted(s, body, l.rest);
    assert |body| + 2 + |l.rest| == |s|;
  }

  lemma {:induction false} Unquoted(s: string, body: string, rest: string)
    requires s != "" && s[0] == '"' && s[1..] == body + ("\"" + rest)
    ensures var text := "\"" + body + "\"";
            && |text| + |rest| == |s| && s[..|text|] == text && s[|text|..] == rest
            && (body == "" && rest != "" ==> s[1] == '"' && s[2] == rest[0])
  {
    var text := "\"" + body + "\"";
    assert s == "\"" + s[1..];
    assert s == text + rest;
    assert body == "" && rest != "" ==> s[2] == (text + rest)[2] == rest[0];
  }

  lemma {:induction false} BytesLiterals(c: Config, s: string)
    requires "b\"" <= s && LexAt(c, s).token.kind != Illegal
    ensures var text, l := Taken(c, s), LexAt(c, s);
            l == Lexed(Plain(BytesLit, l.token.value), s[|text|..]) && BytesLexeme(c, text, l.token.value)
  {
    hide LexAt, ValidBase64;
    Opens(c, s);
    BytesEndStops(c, s[2..], 0);
    var e := BytesEnd(c, s[2..], 0).value;
    hide BytesEnd;
    var value := s[2..][..e];
    assert s[2..] == value + "\"" + s[2..][e + 1..];
    assert s[..e + 3] == "b\"" + value + "\"";
    assert s[2..][e + 1..] == s[e + 3..];
  }

  lemma {:induction false} Words(c: Config, s: string)
    requires s != "" && IdentStart(s[0]) && !("b\"" <= s)
    ensures var text := Taken(c, s);
            LexAt(c, s) == Lexed(Plain(WordKind(text), text), s[|text|..]) && WordLexeme(text, s[|text|..])
  {
    hide LexAt;
    assert !(s[0] == 'b' && At(s, 1) == '"');
    Opens(c, s);
    var e := IdentEnd(s, 0);
    hide IdentEnd;
    assert e > 0;
    if s[..e] == "b" && s[e..] != "" {
      assert s[e..][0] == s[1];
    }
  }

  lemma {:induction false} Directives(c: Config, s: string)
    requires s != "" && s[0] == '@' && LexAt(c, s).token.kind != Illegal
    ensures var text, l := Taken(c, s), LexAt(c, s);
            l.rest == s[|text|..] && Directive(text, l.token, l.rest)
  {
    hide LexAt;
    Opens(c, s);
    var e := IdentEnd(s, 1);
    assert s[1..e] != "";
    hide IdentEnd, DirectiveToken, LexDirective;
    DirectiveIs(s, e);
    assert s[..e][1..] == s[1..e];
  }

  lemma {:induction false} Marks(c: Config, s: string)
    requires s != "" && Punctuation(s[0]).Some?
    ensures LexAt(c, s).rest == s[1..] && MarkLexeme(s[..1], LexAt(c, s).token)
  {
    var i := match s[0]
      case '{' => 0 case '}' => 1 case '[' => 2 case ']' => 3 case '(' => 4 case ')' => 5 case '=' => 6 case ':' => 7 case _ => 8;
    assert s[..1] == [MARKS[i]];
    MarkTaken(c, s[..1], Plain(MARK_KINDS[i], s[..1]), s[1..]);
    assert s[..1] + s[1..] == s;
    hide LexAt;
  }
}
