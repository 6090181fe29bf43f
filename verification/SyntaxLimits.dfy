/** The two ways formatting takes a document past the parser's limits, at texts that
    show them, and why only one is left under the default limits. */
module SyntaxLimits {
  import opened Options
  import opened Lexing
  import opened LexFacts
  import opened Base64
  import opened Syntax
  import opened SyntaxText
  import opened SyntaxTheorems

  // Bytes literals are shorter than the text they stand in.

  /** No bytes literal is as long as n. */
  ghost predicate Short(ts: seq<Token>, n: nat) {
    forall i :: 0 <= i < |ts| && ts[i].kind == BytesLit ==> |ts[i].value| + 3 <= n
  }

  lemma LiteralShort(c: Config, s: string)
    requires s != "" && LexAt(c, s).token.kind == BytesLit
    ensures |LexAt(c, s).token.value| + 3 <= |s|
  {
    hide LexNumber, LexIdent, LexDirective, LexString, LexTriple, CommentEnd, LineEnd, Punctuation, ValidBase64;
  }

  lemma {:induction false} TokensShort(c: Config, s: string)
    ensures Short(Tokens(c, s), |s|)
    decreases |s|
  {
    hide LexAt;
    var t := SkipBlanks(s);
    if t != "" {
      var l := LexAt(c, t);
      TokensShort(c, l.rest);
      if l.token.kind == BytesLit {
        LiteralShort(c, t);
      }
    }
  }

  lemma {:induction false} DecodeShort(s: string, buf: nat, bits: nat, out: string)
    requires bits in {0, 2, 4, 6}
    ensures 8 * |Decode(s, buf, bits, out)| <= 8 * |out| + 6 * |s| + bits
    decreases |s|
  {
    if s != "" && s[0] != '=' {
      if !Base64Char(s[0]) {
        DecodeShort(s[1..], buf, bits, out);
      } else {
        hide ValueOf, Leftover;
        var wide := buf * 64 + ValueOf(s[0]);
        if bits == 0 {
          DecodeShort(s[1..], wide, 6, out);
        } else {
          DecodeShort(s[1..], wide % Leftover(bits - 2), bits - 2, out + [(wide / Leftover(bits - 2) % 256) as char]);
        }
      }
    }
  }

  lemma LiteralFits(c: Config, s: string)
    requires |s| + 3 <= c.maxBytes
    ensures JudgedLength(|Decode(s, 0, 0, "")|) <= c.maxBytes
  {
    DecodeShort(s, 0, 0, "");
    hide Decode;
  }

  lemma ShortAfter(ts: seq<Token>, n: nat, k: nat)
    requires Short(ts, n) && k <= |ts|
    ensures Short(ts[k..], n)
  {}

  lemma {:induction false} ValueShort(c: Config, ts: seq<Token>, room: nat)
    requires Short(ts, c.maxBytes) && ParseValue(ts, room).Some?
    ensures BytesFit(c, ParseValue(ts, room).value.node) && Short(ParseValue(ts, room).value.rest, c.maxBytes)
    decreases |ts|, 0
  {
    hide Decode;
    ShortAfter(ts, c.maxBytes, 1);
    if KindOf(ts).LBracket? {
      ListShort(c, ts[1..], [], room - 1);
    } else if KindOf(ts).LBrace? {
      BodyShort(c, ts[1..], [], room - 1);
    } else if KindOf(ts).BytesLit? {
      LiteralFits(c, ts[0].value);
    }
    hide Short;
  }

  lemma {:induction false} ListShort(c: Config, ts: seq<Token>, acc: seq<Value>, room: nat)
    requires Short(ts, c.maxBytes) && ParseList(ts, acc, room).Some? && forall i :: 0 <= i < |acc| ==> BytesFit(c, acc[i])
    ensures forall i :: 0 <= i < |ParseList(ts, acc, room).value.node| ==> BytesFit(c, ParseList(ts, acc, room).value.node[i])
    ensures Short(ParseList(ts, acc, room).value.rest, c.maxBytes)
    decreases |ts|, 1
  {
    hide Short, ParseValue, BytesFit;
    if KindOf(ts).RBracket? {
      ShortAfter(ts, c.maxBytes, 1);
    } else {
      ValueShort(c, ts, room);
      var p := ParseValue(ts, room).value;
      if KindOf(p.rest).Comma? {
        ShortAfter(p.rest, c.maxBytes, 1);
      }
      ListShort(c, if KindOf(p.rest).Comma? then p.rest[1..] else p.rest, acc + [p.node], room);
    }
  }

  lemma {:induction false} EntryShort(c: Config, ts: seq<Token>, allowMap: bool, room: nat)
    requires Short(ts, c.maxBytes) && ParseEntry(ts, allowMap, room).Some?
    ensures EntryFits(c, ParseEntry(ts, allowMap, room).value.node) && Short(ParseEntry(ts, allowMap, room).value.rest, c.maxBytes)
    decreases |ts|, 1
  {
    hide Short, ParseEntry, ParseValue, ParseBody, BytesFit;
    EntryShape(ts, allowMap, room);
    ShortAfter(ts, c.maxBytes, 2);
    if ts[1].kind == LBrace {
      BodyShort(c, ts[2..], [], room - 1);
    } else {
      ValueShort(c, ts[2..], room);
    }
  }

  lemma {:induction false} BodyShort(c: Config, ts: seq<Token>, acc: seq<Entry>, room: nat)
    requires Short(ts, c.maxBytes) && ParseBody(ts, acc, room).Some? && EntriesFit(c, acc)
    ensures EntriesFit(c, ParseBody(ts, acc, room).value.node) && Short(ParseBody(ts, acc, room).value.rest, c.maxBytes)
    decreases |ts|, 2
  {
    hide Short, ParseEntry;
    if KindOf(ts).RBrace? {
      ShortAfter(ts, c.maxBytes, 1);
    } else if KindOf(ts).AtType? {
      ShortAfter(ts, c.maxBytes, 3);
      BodyShort(c, ts[3..], acc + [TypeEntry(ts[2].value)], room);
    } else {
      EntryShort(c, ts, true, room);
      hide EntryFits;
      var p := ParseEntry(ts, true, room).value;
      BodyShort(c, p.rest, acc + [p.node], room);
    }
  }

  lemma {:induction false} TopShort(c: Config, ts: seq<Token>, acc: seq<Entry>, room: nat)
    requires Short(ts, c.maxBytes) && ParseTop(ts, acc, room).Some? && EntriesFit(c, acc)
    ensures EntriesFit(c, ParseTop(ts, acc, room).value)
    decreases |ts|
  {
    hide Short, ParseEntry, EntryFits;
    if ts != [] {
      EntryShort(c, ts, false, room);
      var p := ParseEntry(ts, false, room).value;
      TopShort(c, p.rest, acc + [p.node], room);
    }
  }

  lemma {:induction false} DocumentShort(c: Config, ts: seq<Token>, url: string, maxDepth: nat)
    requires Short(ts, c.maxBytes) && ParseDocument(ts, url, maxDepth).Some?
    ensures EntriesFit(c, ParseDocument(ts, url, maxDepth).value.entries)
    decreases |ts|
  {
    hide ParseTop, Short, EntryFits;
    if KindOf(ts).AtType? {
      ShortAfter(ts, c.maxBytes, 2);
      DocumentShort(c, ts[2..], ts[1].value, maxDepth);
    } else {
      TopShort(c, ts, [], maxDepth);
    }
  }

  /** With a limit on bytes literals no lower than the one on the whole text, as the
      defaults have it, padding is never in the way: the formatted text parses exactly
      when it is within the size limit. */
  lemma SizeDecides(c: Config, unit: string, text: string, maxDepth: nat)
    requires AllBlank(unit) && Parse(c, text, maxDepth).Some? && c.maxSize <= c.maxBytes
    ensures var d := Parse(c, text, maxDepth).value;
            Parse(c, Format(unit, d), maxDepth) == if |Format(unit, d)| <= c.maxSize then Some(UnquotedDocument(d)) else None
  {
    hide ParseDocument, Tokens, Format, EntriesFit, UnquotedDocument;
    TokensShort(c, text);
    assert Short(Tokens(c, text), c.maxBytes);
    hide Short;
    DocumentShort(c, Tokens(c, text), "", maxDepth);
    RoundTrip(c, unit, text, maxDepth);
  }

  // A text for each way.

  /** A name and an equals sign. */
  lemma AssignTokens(c: Config, value: string)
    ensures Tokens(c, "a=" + value) == [Plain(Ident, "a")] + ([EQUALS] + Tokens(c, value))
  {
    hide Tokens, LexAt;
    var s := "a=" + value;
    IdentEndIs(s, 0, 1);
    assert s[..1] == "a" && s[1..] == "=" + value;
    AtIdent(c, s);
    TokensOne(c, s, Plain(Ident, "a"), "=" + value);
    Mark(c, '=', value);
  }

  /** One assignment is a document. */
  lemma AssignParse(c: Config, value: seq<Token>, v: Value, maxDepth: nat)
    requires ParseValue(value, maxDepth) == Some(Parsed(v, []))
    ensures ParseDocument([Plain(Ident, "a")] + ([EQUALS] + value), "", maxDepth)
         == Some(Document("", [Assignment("a", false, v)]))
  {
    var ts := [Plain(Ident, "a")] + ([EQUALS] + value);
    Two(Plain(Ident, "a"), EQUALS, value);
    EntryShape(ts, false, maxDepth);
    hide ParseValue, ParseEntry;
    var e := Assignment("a", false, v);
    assert ParseEntry(ts, false, maxDepth) == Some(Parsed(e, []));
    assert ParseTop([], [] + [e], maxDepth) == Some([] + [e]);
    assert [] + [e] == [e];
    assert ParseTop(ts, [], maxDepth) == Some([e]);
  }

  /** A bytes literal written without padding. */
  function UnpaddedText(b: string): string
    requires AllOctets(b)
  {
    "a=" + ("b\"" + (Unpadded(b) + ("\"" + "")))
  }

  /** Any bytes whose whole groups are within the limit and whose padded length is not:
      written without padding they parse, and the formatted text does not. */
  lemma PaddingRefused(c: Config, unit: string, b: string, maxDepth: nat)
    requires AllBlank(unit) && AllOctets(b) && |b| / 3 * 3 <= c.maxBytes < JudgedLength(|b|)
    requires |UnpaddedText(b)| <= c.maxSize
    ensures Parse(c, UnpaddedText(b), maxDepth) == Some(Document("", [Assignment("a", false, BytesVal(b))]))
    ensures Parse(c, Format(unit, Document("", [Assignment("a", false, BytesVal(b))])), maxDepth) == None
  {
    hide Tokens, LexAt, Unpadded, ParseDocument, Decode, AllOctets, JudgedLength, Format;
    var value := "b\"" + (Unpadded(b) + ("\"" + ""));
    var t := Plain(BytesLit, Unpadded(b));
    UnpaddedAgain(c, b, "");
    NoTokens(c);
    TokensOne(c, value, t, "");
    AssignTokens(c, value);
    assert [t] + [] == [t] && [t][1..] == [];
    assert ParseValue([t], maxDepth) == Some(Parsed(BytesVal(b), []));
    AssignParse(c, [t], BytesVal(b), maxDepth);
    var e := Assignment("a", false, BytesVal(b));
    assert !EntryFits(c, e);
    assert !EntriesFit(c, [e]) by { assert [e][0] == e; }
    RoundTrip(c, unit, UnpaddedText(b), maxDepth);
  }

  /** The byte 'a' under a limit of one or two: `a=b"YQ"` parses, and the formatted
      `a = b"YQ=="` does not. */
  lemma OneByteRefused(c: Config, maxDepth: nat)
    requires 0 < c.maxBytes < 3 && c.maxSize >= 7
    ensures Parse(c, "a=b\"YQ\"", maxDepth).Some?
    ensures Parse(c, Format("  ", Parse(c, "a=b\"YQ\"", maxDepth).value), maxDepth) == None
  {
    var b := "a";
    assert Encode(b) == "YQ==" by {
      assert Packed(97, 0, 0) == 97 * 0x10000;
      assert [DigitOf(97 * 0x10000, 0), DigitOf(97 * 0x10000, 1)] == "YQ";
    }
    assert Unpadded(b) == "YQ";
    assert UnpaddedText(b) == "a=b\"YQ\"";
    hide Parse, Format, Encode, Unpadded;
    PaddingRefused(c, "  ", b, maxDepth);
  }

  const TWO_ONES: string := "a=[1 1]"
  const TWO_ONES_FORMATTED: string := "a = [\n  1,\n  1\n]\n"

  lemma OneToken(c: Config, rest: string)
    requires rest != "" && rest[0] in {' ', ']'}
    ensures Tokens(c, "1" + rest) == [Plain(Int, "1")] + Tokens(c, rest)
  {
    hide Tokens;
    var s := "1" + rest;
    assert DigitsEnd(s, 0) == 1 by { assert DigitsEnd(s, 1) == 1; }
    assert s[..1] == "1" && s[1..] == rest;
    assert LexNumber(s) == Lexed(Plain(Int, "1"), rest);
    AtNumber(c, s);
    hide LexAt, LexNumber;
    TokensOne(c, s, Plain(Int, "1"), rest);
  }

  /** Its value's tokens, without a comma. */
  function TwoOnesTokens(): seq<Token> {
    [OPEN_BRACKET] + ([Plain(Int, "1")] + ([Plain(Int, "1")] + ([CLOSE_BRACKET] + [])))
  }

  function TwoOnes(): Value {
    ListVal([IntVal("1", ""), IntVal("1", "")])
  }

  lemma TwoOnesLex(c: Config)
    ensures Tokens(c, TWO_ONES) == [Plain(Ident, "a")] + ([EQUALS] + TwoOnesTokens())
  {
    hide Tokens;
    assert TWO_ONES == "a=" + ("[" + ("1" + (" " + ("1" + ("]" + "")))));
    AssignTokens(c, "[" + ("1" + (" " + ("1" + ("]" + "")))));
    Mark(c, '[', "1" + (" " + ("1" + ("]" + ""))));
    OneToken(c, " " + ("1" + ("]" + "")));
    BlankOne(c, ' ', "1" + ("]" + ""));
    OneToken(c, "]" + "");
    Mark(c, ']', "");
    NoTokens(c);
  }

  lemma OneParse(rest: seq<Token>, acc: seq<Value>, room: nat)
    requires rest != [] && rest[0].kind != Comma
    ensures ParseList([Plain(Int, "1")] + rest, acc, room) == ParseList(rest, acc + [IntVal("1", "")], room)
  {
    var ts := [Plain(Int, "1")] + rest;
    assert ts[1..] == rest;
    assert ParseValue(ts, room) == Some(Parsed(IntVal("1", ""), rest));
    hide ParseValue;
  }

  lemma TwoOnesParse(maxDepth: nat)
    requires maxDepth > 0
    ensures ParseValue(TwoOnesTokens(), maxDepth) == Some(Parsed(TwoOnes(), []))
  {
    var close := [CLOSE_BRACKET] + [];
    var one := Plain(Int, "1");
    var elements := [one] + ([one] + close);
    OneParse([one] + close, [], maxDepth - 1);
    OneParse(close, [] + [IntVal("1", "")], maxDepth - 1);
    assert close[1..] == [];
    var both := [] + [IntVal("1", "")] + [IntVal("1", "")];
    assert both == [IntVal("1", ""), IntVal("1", "")];
    assert ParseList(close, both, maxDepth - 1) == Some(Parsed(both, []));
    assert TwoOnesTokens()[1..] == elements;
    ValueShape(TwoOnesTokens(), maxDepth);
  }

  lemma OneElement(vs: seq<Value>, close: string)
    requires vs != [] && vs[0] == IntVal("1", "")
    ensures ElementsText("  ", vs, 1, close)
         == "  1" + ((if |vs| > 1 then "," else "") + ("\n" + ElementsText("  ", vs[1..], 1, close)))
  {
    var rest := ElementsText("  ", vs[1..], 1, close);
    var more := (if |vs| > 1 then "," else "") + ("\n" + rest);
    assert ElementsText("  ", vs, 1, close) == Indent("  ", 1, ValueText("  ", vs[0], 1, more));
    hide ElementsText;
    assert NumberText(Token(Int, "1", "")) == "1";
    assert Indent("  ", 0, "1" + more) == "1" + more;
  }

  lemma LastOne(close: string)
    ensures ElementsText("  ", [IntVal("1", "")], 1, close) == "  1" + ("\n" + close)
  {
    var vs := [IntVal("1", "")];
    assert vs[1..] == [] && ElementsText("  ", [], 1, close) == close;
    hide ElementsText;
    OneElement(vs, close);
    assert "" + ("\n" + close) == "\n" + close;
  }

  lemma OnesText(close: string)
    ensures ElementsText("  ", [IntVal("1", ""), IntVal("1", "")], 1, close) == "  1" + (",\n" + ("  1" + ("\n" + close)))
  {
    hide *;
    var vs := [IntVal("1", ""), IntVal("1", "")];
    assert vs[1..] == [IntVal("1", "")];
    LastOne(close);
    OneElement(vs, close);
    CommaLine("  1" + ("\n" + close));
  }

  lemma CommaLine(s: string)
    ensures "," + ("\n" + s) == ",\n" + s
  {}

  lemma TwoOnesText()
    ensures Format("  ", Document("", [Assignment("a", false, TwoOnes())])) == TWO_ONES_FORMATTED
  {
    var close := "]" + ("\n" + "");
    OnesText(close);
    hide ElementsText;
    var e := Assignment("a", false, TwoOnes());
    assert [e][1..] == [];
    assert EntriesText("  ", [e], 0, "") == EntryText("  ", e, 0, "");
    hide EntriesText;
    assert EntryText("  ", e, 0, "") == TWO_ONES_FORMATTED;
  }

  /** `a=[1 1]` is 7 characters and its formatted text 17: any size limit between
      accepts the first and refuses the second. */
  lemma GrowthRefused(c: Config, maxDepth: nat)
    requires 7 <= c.maxSize < 17 && maxDepth > 0
    ensures Parse(c, TWO_ONES, maxDepth) == Some(Document("", [Assignment("a", false, TwoOnes())]))
    ensures Format("  ", Document("", [Assignment("a", false, TwoOnes())])) == TWO_ONES_FORMATTED
    ensures Parse(c, TWO_ONES_FORMATTED, maxDepth) == None
  {
    hide Tokens, ParseDocument, ParseValue, Format, TwoOnesTokens, TwoOnes;
    TwoOnesLex(c);
    TwoOnesParse(maxDepth);
    AssignParse(c, TwoOnesTokens(), TwoOnes(), maxDepth);
    TwoOnesText();
  }
}
