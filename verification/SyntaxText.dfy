/** The tokens of a formatted document are the tokens it spells. */
module SyntaxText {
  import opened Lexing
  import opened LexFacts
  import opened Base64
  import opened Syntax
  import KeyedForm

  // One token.

  predicate Significant(t: Token) {
    t.kind !in {Eof, Newline, Comment, Illegal}
  }

  lemma TokensOne(c: Config, s: string, t: Token, tail: string)
    requires s != "" && !IsBlank(s[0]) && LexAt(c, s) == Lexed(t, tail) && Significant(t)
    ensures Tokens(c, s) == [t] + Tokens(c, tail)
  {
    hide LexAt;
  }

  lemma TokensNone(c: Config, s: string)
    requires s != "" && !IsBlank(s[0]) && LexAt(c, s) == ILLEGAL
    ensures Tokens(c, s) == [ILLEGAL.token]
  {
    hide LexAt;
  }

  lemma LineBreak(c: Config, s: string)
    ensures Tokens(c, "\n" + s) == Tokens(c, s)
  {
    var u := "\n" + s;
    assert u[1..] == s;
    assert LexAt(c, u) == Lexed(Plain(Newline, ""), s);
    hide LexAt;
  }

  lemma BlankOne(c: Config, ch: char, s: string)
    requires IsBlank(ch)
    ensures Tokens(c, [ch] + s) == Tokens(c, s)
  {
    var u := [ch] + s;
    assert u[1..] == s;
    assert NextToken(c, u) == NextToken(c, s);
    hide NextToken;
  }

  predicate AllBlank(unit: string) {
    forall i :: 0 <= i < |unit| ==> IsBlank(unit[i])
  }

  lemma {:induction false} Blanks(c: Config, b: string, s: string)
    requires AllBlank(b)
    ensures Tokens(c, b + s) == Tokens(c, s)
    decreases |b|
  {
    if b == "" {
      assert b + s == s;
    } else {
      BlankOne(c, b[0], b[1..] + s);
      assert b + s == [b[0]] + (b[1..] + s);
      Blanks(c, b[1..], s);
    }
  }

  lemma {:induction false} IndentTokens(c: Config, unit: string, level: nat, tail: string)
    requires AllBlank(unit)
    ensures Tokens(c, Indent(unit, level, tail)) == Tokens(c, tail)
    decreases level
  {
    hide Tokens;
    if level > 0 {
      Blanks(c, unit, Indent(unit, level - 1, tail));
      IndentTokens(c, unit, level - 1, tail);
    }
  }

  lemma Mark(c: Config, ch: char, s: string)
    requires Punctuation(ch).Some?
    ensures Tokens(c, [ch] + s) == [Plain(Punctuation(ch).value, [ch])] + Tokens(c, s)
  {
    var u := [ch] + s;
    assert u[1..] == s;
    assert LexAt(c, u) == Lexed(Plain(Punctuation(ch).value, [ch]), s);
    TokensOne(c, u, Plain(Punctuation(ch).value, [ch]), s);
  }

  // Names.

  lemma NameLex(c: Config, name: string, quoted: bool, tail: string)
    requires tail != "" && (tail[0] == ' ' || tail[0] == ':')
    requires if quoted then IsUtf8(name) else Produced(c, NameToken(name, false))
    ensures Tokens(c, NameText(name, quoted, tail)) == [NameToken(name, quoted)] + Tokens(c, tail)
  {
    hide LexAt, IsUtf8, Tokens;
    var t := NameToken(name, quoted);
    if quoted {
      StringAgain(c, name, tail);
      TokensOne(c, QuoteString(name) + tail, t, tail);
    } else {
      var s :| s != "" && LexAt(c, s).token == t;
      if t.kind == Int {
        LiteralAgain(c, s, tail);
        assert NumberText(t) == name by { assert name + "" == name; }
      } else {
        IdentAgain(c, s, tail);
      }
      TokensOne(c, name + tail, t, tail);
    }
  }

  lemma SafeName(c: Config, name: string)
    requires KeyedForm.IdentSafe(name)
    ensures Produced(c, NameToken(name, false))
  {
    assert forall k :: 0 <= k < |name| ==> IdentPart(name[k]);
    WordToken(c, name);
    assert name != "" && LexAt(c, name).token == NameToken(name, false);
  }

  /** A name may be written without quotes exactly when it is read as itself. */
  lemma {:induction false} SafeExactly(c: Config, name: string)
    ensures KeyedForm.IdentSafe(name) <==> name != "" && LexAt(c, name) == Lexed(Plain(Ident, name), "")
  {
    if KeyedForm.IdentSafe(name) {
      assert forall k :: 0 <= k < |name| ==> IdentPart(name[k]);
      WordToken(c, name);
    }
    if name != "" && LexAt(c, name) == Lexed(Plain(Ident, name), "") {
      LexedIdent(c, name);
      hide LexAt;
    }
  }

  // Literals.

  predicate IsLeaf(v: Value) {
    !v.ListVal? && !v.BlockVal?
  }

  lemma LeafLex(c: Config, unit: string, v: Value, level: nat, room: nat, tail: string)
    requires IsLeaf(v) && Proper(c, v, room) && ValueEnds(tail)
    ensures Tokens(c, ValueText(unit, v, level, tail))
         == if BytesFit(c, v) then ValueTokens(v, Tokens(c, tail)) else [ILLEGAL.token]
  {
    hide LexAt, Tokens, IsUtf8, Encode;
    match v
    case StringVal(s) =>
      StringAgain(c, s, tail);
      TokensOne(c, QuoteString(s) + tail, Plain(Str, s), tail);
    case BytesVal(b) =>
      BytesAgain(c, b, tail);
      if BytesFit(c, v) {
        TokensOne(c, BytesText(b) + tail, Plain(BytesLit, Encode(b)), tail);
      } else {
        TokensNone(c, BytesText(b) + tail);
      }
    case BoolVal(b) => WordLex(c, if b then "true" else "false", tail);
    case NullVal => WordLex(c, "null", tail);
    case IdentVal(name) => ProducedLex(c, Plain(Ident, name), tail);
    case IntVal(raw, prec) => ProducedLex(c, Token(Int, raw, prec), tail);
    case FloatVal(raw, prec) => ProducedLex(c, Token(Float, raw, prec), tail);
    case TimestampVal(raw) => ProducedLex(c, Plain(TimestampLit, raw), tail);
    case DurationVal(raw) => ProducedLex(c, Plain(DurationLit, raw), tail);
  }

  lemma ProducedLex(c: Config, t: Token, tail: string)
    requires Produced(c, t) && ValueEnds(tail) && t.kind in {Ident, Int, Float, TimestampLit, DurationLit}
    ensures Tokens(c, NumberText(t) + tail) == [t] + Tokens(c, tail)
    ensures t.prec == "" ==> NumberText(t) == t.value
    ensures t.kind == Ident ==> t.prec == ""
  {
    hide LexAt, Tokens;
    assert t.value + "" == t.value;
    var s :| s != "" && LexAt(c, s).token == t;
    if t.kind == Ident {
      IdentPlain(c, s);
      IdentAgain(c, s, tail);
    } else {
      LiteralAgain(c, s, tail);
    }
    TokensOne(c, NumberText(t) + tail, t, tail);
  }

  lemma IdentPlain(c: Config, s: string)
    requires s != "" && LexAt(c, s).token.kind == Ident
    ensures LexAt(c, s).token.prec == ""
  {
    LexedIdent(c, s);
    hide LexAt;
  }

  lemma WordLex(c: Config, w: string, tail: string)
    requires w in {"true", "false", "null"} && ValueEnds(tail)
    ensures Tokens(c, w + tail) == [Plain(if w == "null" then Null else Bool, w)] + Tokens(c, tail)
  {
    hide LexAt, Tokens;
    WordToken(c, w);
    IdentAgain(c, w, tail);
    TokensOne(c, w + tail, LexAt(c, w).token, tail);
  }

  // Values and entries.

  lemma {:induction false} ValueLex(c: Config, unit: string, v: Value, level: nat, room: nat, tail: string)
    requires AllBlank(unit) && Proper(c, v, room) && ValueEnds(tail) && BytesFit(c, v)
    ensures Tokens(c, ValueText(unit, v, level, tail)) == ValueTokens(v, Tokens(c, tail))
    decreases v, 0
  {
    hide Tokens, ElementsText, EntriesText, ElementsTokens, EntriesTokens, IsUtf8, Produced, AllOctets, Indent;
    match v
    case ListVal(vs) =>
      var close := Indent(unit, level, "]" + tail);
      var body := ElementsText(unit, vs, level + 1, close);
      Mark(c, '[', "\n" + body);
      LineBreak(c, body);
      ElementsLex(c, unit, vs, level + 1, room - 1, close);
      IndentTokens(c, unit, level, "]" + tail);
      Mark(c, ']', tail);
    case BlockVal(es) =>
      var close := Indent(unit, level, "}" + tail);
      var body := EntriesText(unit, es, level + 1, close);
      Mark(c, '{', "\n" + body);
      LineBreak(c, body);
      EntriesLex(c, unit, es, level + 1, room - 1, close);
      IndentTokens(c, unit, level, "}" + tail);
      Mark(c, '}', tail);
    case _ => LeafLex(c, unit, v, level, room, tail);
  }

  lemma {:induction false} ElementsLex(c: Config, unit: string, vs: seq<Value>, level: nat, room: nat, tail: string)
    requires AllBlank(unit) && forall i :: 0 <= i < |vs| ==> Proper(c, vs[i], room) && BytesFit(c, vs[i])
    ensures Tokens(c, ElementsText(unit, vs, level, tail)) == ElementsTokens(vs, Tokens(c, tail))
    decreases vs, 1
  {
    hide Tokens, Proper, BytesFit, ValueText, ValueTokens;
    if vs != [] {
      var rest := ElementsText(unit, vs[1..], level, tail);
      var more := (if |vs| > 1 then "," else "") + ("\n" + rest);
      ElementsLex(c, unit, vs[1..], level, room, tail);
      LineBreak(c, rest);
      if |vs| > 1 {
        Mark(c, ',', "\n" + rest);
      } else {
        assert "" + ("\n" + rest) == "\n" + rest;
      }
      IndentTokens(c, unit, level, ValueText(unit, vs[0], level, more));
      ValueLex(c, unit, vs[0], level, room, more);
    }
  }

  lemma {:induction false} EntryLex(c: Config, unit: string, e: Entry, level: nat, room: nat, tail: string)
    requires AllBlank(unit) && ProperEntry(c, e, room) && EntryFits(c, e)
    ensures Tokens(c, EntryText(unit, e, level, tail)) == EntryTokens(e, Tokens(c, tail))
    decreases e, 0
  {
    hide Tokens, Proper, ProperName, BytesFit, ValueText, ValueTokens, NameText, NameToken, EntriesText, EntriesTokens, Indent;
    LineBreak(c, tail);
    match e
    case Assignment(key, quoted, v) =>
      ValueLex(c, unit, v, level, room, "\n" + tail);
      AssignedLex(c, key, quoted, ValueText(unit, v, level, "\n" + tail));
    case MapEntry(key, quoted, v) =>
      ValueLex(c, unit, v, level, room, "\n" + tail);
      AfterKey(c, key, quoted, ValueText(unit, v, level, "\n" + tail));
    case Block(name, quoted, es) =>
      var close := Indent(unit, level, "}" + ("\n" + tail));
      EntriesLex(c, unit, es, level + 1, room - 1, close);
      OpenedLex(c, name, quoted, EntriesText(unit, es, level + 1, close));
      IndentTokens(c, unit, level, "}" + ("\n" + tail));
      Mark(c, '}', "\n" + tail);
    case TypeEntry(url) =>
      TypeEntryLex(c, url, tail);
  }

  lemma AssignedLex(c: Config, key: string, quoted: bool, value: string)
    requires ProperName(c, key, quoted)
    ensures Tokens(c, NameText(key, quoted, " " + ("=" + (" " + value))))
         == [NameToken(key, quoted)] + ([EQUALS] + Tokens(c, value))
  {
    hide Tokens, NameText, NameToken, ProperName;
    AfterName(c, key, quoted, '=', " " + value);
    BlankOne(c, ' ', value);
  }

  lemma OpenedLex(c: Config, name: string, quoted: bool, body: string)
    requires ProperName(c, name, quoted)
    ensures Tokens(c, NameText(name, quoted, " " + ("{" + ("\n" + body))))
         == [NameToken(name, quoted)] + ([OPEN_BRACE] + Tokens(c, body))
  {
    hide Tokens, NameText, NameToken, ProperName;
    AfterName(c, name, quoted, '{', "\n" + body);
    LineBreak(c, body);
  }

  /** A name, a blank and a mark. */
  lemma AfterName(c: Config, name: string, quoted: bool, ch: char, tail: string)
    requires ProperName(c, name, quoted) && Punctuation(ch).Some?
    ensures Tokens(c, NameText(name, quoted, " " + ([ch] + tail)))
         == [NameToken(name, quoted)] + ([Plain(Punctuation(ch).value, [ch])] + Tokens(c, tail))
  {
    hide Tokens;
    NameLex(c, name, quoted, " " + ([ch] + tail));
    BlankOne(c, ' ', [ch] + tail);
    Mark(c, ch, tail);
  }

  /** A map key, with its quotes when it needs them, and a colon. */
  lemma AfterKey(c: Config, key: string, quoted: bool, value: string)
    requires ProperName(c, key, quoted)
    ensures Tokens(c, NameText(key, KeepsQuotes(key, quoted), ":" + (" " + value)))
         == [NameToken(key, KeepsQuotes(key, quoted))] + ([COLON] + Tokens(c, value))
  {
    hide Tokens, NameText;
    if quoted && !KeepsQuotes(key, quoted) {
      SafeName(c, key);
    }
    hide NameToken, Produced, IsUtf8;
    NameLex(c, key, KeepsQuotes(key, quoted), ":" + (" " + value));
    Mark(c, ':', " " + value);
    BlankOne(c, ' ', value);
  }

  lemma TypeEntryLex(c: Config, url: string, tail: string)
    requires IsUtf8(url)
    ensures Tokens(c, "@type" + (" " + ("=" + (" " + (QuoteString(url) + ("\n" + tail))))))
         == [TYPE] + ([EQUALS] + ([Plain(Str, url)] + Tokens(c, tail)))
  {
    hide Tokens, LexAt, IsUtf8;
    var text := QuoteString(url) + ("\n" + tail);
    var rest := " " + ("=" + (" " + text));
    TypeToken(c, rest);
    TokensOne(c, "@type" + rest, TYPE, rest);
    BlankOne(c, ' ', "=" + (" " + text));
    Mark(c, '=', " " + text);
    BlankOne(c, ' ', text);
    StringAgain(c, url, "\n" + tail);
    TokensOne(c, text, Plain(Str, url), "\n" + tail);
    LineBreak(c, tail);
  }

  lemma {:induction false} EntriesLex(c: Config, unit: string, es: seq<Entry>, level: nat, room: nat, tail: string)
    requires AllBlank(unit) && forall i :: 0 <= i < |es| ==> ProperEntry(c, es[i], room) && EntryFits(c, es[i])
    ensures Tokens(c, EntriesText(unit, es, level, tail)) == EntriesTokens(es, Tokens(c, tail))
    decreases es, 1
  {
    hide Tokens, ProperEntry, EntryFits, EntryText, EntryTokens;
    if es != [] {
      var rest := EntriesText(unit, es[1..], level, tail);
      EntriesLex(c, unit, es[1..], level, room, tail);
      IndentTokens(c, unit, level, EntryText(unit, es[0], level, rest));
      EntryLex(c, unit, es[0], level, room, rest);
    }
  }

  // Documents.

  function DocumentTokens(d: Document): seq<Token> {
    var body := EntriesTokens(d.entries, []);
    if d.typeUrl == "" then body else [TYPE] + ([Plain(Ident, d.typeUrl)] + body)
  }

  /** The type directive in front of a text. */
  lemma TypeLex(c: Config, url: string, body: string)
    requires Produced(c, Plain(Ident, url))
    ensures Tokens(c, "@type" + (" " + (url + ("\n" + ("\n" + body))))) == [TYPE] + ([Plain(Ident, url)] + Tokens(c, body))
  {
    hide Tokens, LexAt;
    var after := "\n" + ("\n" + body);
    TypeToken(c, " " + (url + after));
    TokensOne(c, "@type" + (" " + (url + after)), TYPE, " " + (url + after));
    BlankOne(c, ' ', url + after);
    ProducedLex(c, Plain(Ident, url), after);
    assert NumberText(Plain(Ident, url)) == url;
    LineBreak(c, "\n" + body);
    LineBreak(c, body);
  }

  lemma NoTokens(c: Config)
    ensures Tokens(c, "") == []
  {}

  lemma DocumentLex(c: Config, unit: string, d: Document, maxDepth: nat)
    requires AllBlank(unit) && ProperDocument(c, d, maxDepth) && EntriesFit(c, d.entries)
    ensures Tokens(c, Format(unit, d)) == DocumentTokens(d)
  {
    hide Tokens, ProperEntry, EntryFits, EntriesText, EntriesTokens, Produced;
    EntriesLex(c, unit, d.entries, 0, maxDepth, "");
    NoTokens(c);
    if d.typeUrl != "" {
      TypeLex(c, d.typeUrl, EntriesText(unit, d.entries, 0, ""));
    }
  }

  // A bytes literal past the limit.

  ghost predicate HasIllegal(ts: seq<Token>) {
    exists i :: 0 <= i < |ts| && ts[i].kind == Illegal
  }

  lemma IllegalLater(t: Token, ts: seq<Token>)
    requires HasIllegal(ts)
    ensures HasIllegal([t] + ts)
  {
    var i :| 0 <= i < |ts| && ts[i].kind == Illegal;
    assert ([t] + ts)[i + 1].kind == Illegal;
  }

  /** What follows the tokens of a value comes after them. */
  lemma {:induction false} ValueIllegal(v: Value, tail: seq<Token>)
    requires HasIllegal(tail)
    ensures HasIllegal(ValueTokens(v, tail))
    decreases v, 0
  {
    hide HasIllegal;
    match v
    case ListVal(vs) =>
      IllegalLater(CLOSE_BRACKET, tail);
      ElementsIllegal(vs, [CLOSE_BRACKET] + tail);
      IllegalLater(OPEN_BRACKET, ElementsTokens(vs, [CLOSE_BRACKET] + tail));
    case BlockVal(es) =>
      IllegalLater(CLOSE_BRACE, tail);
      EntriesIllegal(es, [CLOSE_BRACE] + tail);
      IllegalLater(OPEN_BRACE, EntriesTokens(es, [CLOSE_BRACE] + tail));
    case _ =>
      if OctetBytes(v) {
        IllegalLater(ValueToken(v), tail);
      }
  }

  lemma {:induction false} ElementsIllegal(vs: seq<Value>, tail: seq<Token>)
    requires HasIllegal(tail)
    ensures HasIllegal(ElementsTokens(vs, tail))
    decreases vs, 1
  {
    hide HasIllegal;
    if vs != [] {
      ElementsIllegal(vs[1..], tail);
      IllegalLater(COMMA, ElementsTokens(vs[1..], tail));
      ValueIllegal(vs[0], if |vs| > 1 then [COMMA] + ElementsTokens(vs[1..], tail) else ElementsTokens(vs[1..], tail));
    }
  }

  lemma {:induction false} EntryIllegal(e: Entry, tail: seq<Token>)
    requires HasIllegal(tail)
    ensures HasIllegal(EntryTokens(e, tail))
    decreases e, 0
  {
    hide HasIllegal, NameToken;
    match e
    case Assignment(key, quoted, v) =>
      ValueIllegal(v, tail);
      IllegalLater(EQUALS, ValueTokens(v, tail));
      IllegalLater(NameToken(key, quoted), [EQUALS] + ValueTokens(v, tail));
    case MapEntry(key, quoted, v) =>
      ValueIllegal(v, tail);
      IllegalLater(COLON, ValueTokens(v, tail));
      IllegalLater(NameToken(key, KeepsQuotes(key, quoted)), [COLON] + ValueTokens(v, tail));
    case Block(name, quoted, es) =>
      IllegalLater(CLOSE_BRACE, tail);
      EntriesIllegal(es, [CLOSE_BRACE] + tail);
      IllegalLater(OPEN_BRACE, EntriesTokens(es, [CLOSE_BRACE] + tail));
      IllegalLater(NameToken(name, quoted), [OPEN_BRACE] + EntriesTokens(es, [CLOSE_BRACE] + tail));
    case TypeEntry(url) =>
      IllegalLater(Plain(Str, url), tail);
      IllegalLater(EQUALS, [Plain(Str, url)] + tail);
      IllegalLater(TYPE, [EQUALS] + ([Plain(Str, url)] + tail));
  }

  lemma {:induction false} EntriesIllegal(es: seq<Entry>, tail: seq<Token>)
    requires HasIllegal(tail)
    ensures HasIllegal(EntriesTokens(es, tail))
    decreases es, 1
  {
    hide HasIllegal;
    if es != [] {
      EntriesIllegal(es[1..], tail);
      EntryIllegal(es[0], EntriesTokens(es[1..], tail));
    }
  }

  /** A formatted value with a bytes literal judged too long has an illegal token. */
  lemma {:induction false} UnfitValue(c: Config, unit: string, v: Value, level: nat, room: nat, tail: string)
    requires AllBlank(unit) && Proper(c, v, room) && ValueEnds(tail) && !BytesFit(c, v)
    ensures HasIllegal(Tokens(c, ValueText(unit, v, level, tail)))
    decreases v, 0
  {
    hide Tokens, ElementsText, EntriesText, IsUtf8, Produced, AllOctets, Indent, HasIllegal;
    match v
    case ListVal(vs) =>
      var body := ElementsText(unit, vs, level + 1, Indent(unit, level, "]" + tail));
      Mark(c, '[', "\n" + body);
      LineBreak(c, body);
      UnfitElements(c, unit, vs, level + 1, room - 1, Indent(unit, level, "]" + tail));
      IllegalLater(OPEN_BRACKET, Tokens(c, body));
    case BlockVal(es) =>
      var body := EntriesText(unit, es, level + 1, Indent(unit, level, "}" + tail));
      Mark(c, '{', "\n" + body);
      LineBreak(c, body);
      UnfitEntries(c, unit, es, level + 1, room - 1, Indent(unit, level, "}" + tail));
      IllegalLater(OPEN_BRACE, Tokens(c, body));
    case BytesVal(_) =>
      LeafLex(c, unit, v, level, room, tail);
      OneIllegal();
    case _ =>
  }

  lemma OneIllegal()
    ensures HasIllegal([ILLEGAL.token])
  {
    assert [ILLEGAL.token][0].kind == Illegal;
  }

  lemma {:induction false} UnfitElements(c: Config, unit: string, vs: seq<Value>, level: nat, room: nat, tail: string)
    requires AllBlank(unit) && (forall i :: 0 <= i < |vs| ==> Proper(c, vs[i], room)) && exists i :: 0 <= i < |vs| && !BytesFit(c, vs[i])
    ensures HasIllegal(Tokens(c, ElementsText(unit, vs, level, tail)))
    decreases vs, 1
  {
    hide Tokens, Proper, BytesFit, ValueText, ValueTokens, HasIllegal;
    var rest := ElementsText(unit, vs[1..], level, tail);
    var more := (if |vs| > 1 then "," else "") + ("\n" + rest);
    IndentTokens(c, unit, level, ValueText(unit, vs[0], level, more));
    if BytesFit(c, vs[0]) {
      var i :| 0 <= i < |vs| && !BytesFit(c, vs[i]);
      assert vs[1..][i - 1] == vs[i];
      UnfitElements(c, unit, vs[1..], level, room, tail);
      LineBreak(c, rest);
      Mark(c, ',', "\n" + rest);
      IllegalLater(COMMA, Tokens(c, rest));
      ValueLex(c, unit, vs[0], level, room, more);
      ValueIllegal(vs[0], Tokens(c, more));
    } else {
      UnfitValue(c, unit, vs[0], level, room, more);
    }
  }

  lemma {:induction false} UnfitEntry(c: Config, unit: string, e: Entry, level: nat, room: nat, tail: string)
    requires AllBlank(unit) && ProperEntry(c, e, room) && !EntryFits(c, e)
    ensures HasIllegal(Tokens(c, EntryText(unit, e, level, tail)))
    decreases e, 0
  {
    hide Tokens, Proper, ProperName, BytesFit, ValueText, NameText, NameToken, HasIllegal, EntriesText, Indent;
    match e
    case Assignment(key, quoted, v) =>
      var value := ValueText(unit, v, level, "\n" + tail);
      UnfitValue(c, unit, v, level, room, "\n" + tail);
      IllegalAssigned(c, key, quoted, value);
    case MapEntry(key, quoted, v) =>
      var value := ValueText(unit, v, level, "\n" + tail);
      UnfitValue(c, unit, v, level, room, "\n" + tail);
      IllegalMapped(c, key, quoted, value);
    case Block(name, quoted, es) =>
      var body := EntriesText(unit, es, level + 1, Indent(unit, level, "}" + ("\n" + tail)));
      UnfitEntries(c, unit, es, level + 1, room - 1, Indent(unit, level, "}" + ("\n" + tail)));
      IllegalBlock(c, name, quoted, body);
    case TypeEntry(_) =>
  }

  lemma IllegalAssigned(c: Config, key: string, quoted: bool, value: string)
    requires ProperName(c, key, quoted) && HasIllegal(Tokens(c, value))
    ensures HasIllegal(Tokens(c, NameText(key, quoted, " " + ("=" + (" " + value)))))
  {
    hide Tokens, HasIllegal, NameText, NameToken, ProperName;
    AssignedLex(c, key, quoted, value);
    IllegalLater(EQUALS, Tokens(c, value));
    IllegalLater(NameToken(key, quoted), [EQUALS] + Tokens(c, value));
  }

  lemma IllegalMapped(c: Config, key: string, quoted: bool, value: string)
    requires ProperName(c, key, quoted) && HasIllegal(Tokens(c, value))
    ensures HasIllegal(Tokens(c, NameText(key, KeepsQuotes(key, quoted), ":" + (" " + value))))
  {
    hide Tokens, HasIllegal, NameText, NameToken, ProperName, KeepsQuotes;
    AfterKey(c, key, quoted, value);
    IllegalLater(COLON, Tokens(c, value));
    IllegalLater(NameToken(key, KeepsQuotes(key, quoted)), [COLON] + Tokens(c, value));
  }

  lemma IllegalBlock(c: Config, name: string, quoted: bool, body: string)
    requires ProperName(c, name, quoted) && HasIllegal(Tokens(c, body))
    ensures HasIllegal(Tokens(c, NameText(name, quoted, " " + ("{" + ("\n" + body)))))
  {
    hide Tokens, HasIllegal, NameText, NameToken, ProperName;
    OpenedLex(c, name, quoted, body);
    IllegalLater(OPEN_BRACE, Tokens(c, body));
    IllegalLater(NameToken(name, quoted), [OPEN_BRACE] + Tokens(c, body));
  }

  lemma {:induction false} UnfitEntries(c: Config, unit: string, es: seq<Entry>, level: nat, room: nat, tail: string)
    requires AllBlank(unit) && (forall i :: 0 <= i < |es| ==> ProperEntry(c, es[i], room)) && exists i :: 0 <= i < |es| && !EntryFits(c, es[i])
    ensures HasIllegal(Tokens(c, EntriesText(unit, es, level, tail)))
    decreases es, 1
  {
    hide Tokens, ProperEntry, EntryFits, EntryText, EntryTokens, HasIllegal;
    var rest := EntriesText(unit, es[1..], level, tail);
    IndentTokens(c, unit, level, EntryText(unit, es[0], level, rest));
    if EntryFits(c, es[0]) {
      var i :| 0 <= i < |es| && !EntryFits(c, es[i]);
      assert es[1..][i - 1] == es[i];
      UnfitEntries(c, unit, es[1..], level, room, tail);
      EntryLex(c, unit, es[0], level, room, rest);
      EntryIllegal(es[0], Tokens(c, rest));
    } else {
      UnfitEntry(c, unit, es[0], level, room, rest);
    }
  }

  lemma UnfitDocument(c: Config, unit: string, d: Document, maxDepth: nat)
    requires AllBlank(unit) && ProperDocument(c, d, maxDepth) && !EntriesFit(c, d.entries)
    ensures HasIllegal(Tokens(c, Format(unit, d)))
  {
    hide Tokens, ProperEntry, EntryFits, EntriesText, HasIllegal, Produced;
    var body := EntriesText(unit, d.entries, 0, "");
    UnfitEntries(c, unit, d.entries, 0, maxDepth, "");
    if d.typeUrl != "" {
      TypeLex(c, d.typeUrl, body);
      IllegalLater(Plain(Ident, d.typeUrl), Tokens(c, body));
      IllegalLater(TYPE, [Plain(Ident, d.typeUrl)] + Tokens(c, body));
    }
  }
}
