/** Parsing undoes formatting, and formatting twice is formatting once. */
module SyntaxTheorems {
  import opened Options
  import opened Lexing
  import opened LexFacts
  import opened Base64
  import opened Syntax
  import opened SyntaxText
  import opened Decimals
  import Timestamps
  import Durations

  // The tokens of a document parse as the document.

  /** A value's tokens are read as the value when its depth is within the room, and
      refused otherwise. */
  lemma {:induction false} ValueParse(c: Config, v: Value, deep: nat, room: nat, tail: seq<Token>)
    requires Proper(c, v, deep)
    ensures ParseValue(ValueTokens(v, tail), room) == if Within(v, room) then Some(Parsed(Unquoted(v), tail)) else None
    decreases v, 0
  {
    hide ParseList, ParseBody, ElementsTokens, EntriesTokens, Produced, IsUtf8, AllOctets, Encode, Decode, UnquotedAll, UnquotedEntries;
    match v
    case ListVal(vs) =>
      var inner := ElementsTokens(vs, [CLOSE_BRACKET] + tail);
      assert ([OPEN_BRACKET] + inner)[1..] == inner;
      if room > 0 {
        ElementsParse(c, vs, [], deep - 1, room - 1, tail);
        assert [] + UnquotedAll(vs) == UnquotedAll(vs);
      }
    case BlockVal(es) =>
      var inner := EntriesTokens(es, [CLOSE_BRACE] + tail);
      assert ([OPEN_BRACE] + inner)[1..] == inner;
      if room > 0 {
        EntriesParse(c, es, [], deep - 1, room - 1, tail);
        assert [] + UnquotedEntries(es) == UnquotedEntries(es);
      }
    case _ =>
      LeafParse(c, v, deep, room, tail);
      hide ParseValue, ValueTokens, Proper;
  }

  lemma LeafParse(c: Config, v: Value, deep: nat, room: nat, tail: seq<Token>)
    requires IsLeaf(v) && Proper(c, v, deep)
    ensures ParseValue(ValueTokens(v, tail), room) == Some(Parsed(v, tail))
  {
    hide Encode, Decode, Produced, IsUtf8, ParseList, ParseBody, AllOctets;
    if v.BytesVal? {
      BytesAgain(c, v.bytes, "");
    }
    var ts := [ValueToken(v)] + tail;
    assert ts[1..] == tail && ValueTokens(v, tail) == ts;
    hide Proper, ValueTokens;
    assert ParseValue(ts, room) == Some(Parsed(v, tail));
  }

  /** A value starts like none of what may stand in its place. */
  lemma ValueStarts(c: Config, v: Value, room: nat, tail: seq<Token>)
    requires Proper(c, v, room)
    ensures var k := KindOf(ValueTokens(v, tail));
            ValueTokens(v, tail) != [] && k != RBracket && k != Comma && k != Eof
  {
    hide Encode, Produced, IsUtf8, ElementsTokens, EntriesTokens;
  }

  lemma {:induction false} ElementsParse(c: Config, vs: seq<Value>, acc: seq<Value>, deep: nat, room: nat, tail: seq<Token>)
    requires forall i :: 0 <= i < |vs| ==> Proper(c, vs[i], deep)
    ensures ParseList(ElementsTokens(vs, [CLOSE_BRACKET] + tail), acc, room)
         == if forall i :: 0 <= i < |vs| ==> Within(vs[i], room) then Some(Parsed(acc + UnquotedAll(vs), tail)) else None
    decreases vs, 1
  {
    hide ParseValue, ValueTokens, Proper, Unquoted, Within;
    if vs == [] {
      assert acc + UnquotedAll(vs) == acc && ([CLOSE_BRACKET] + tail)[1..] == tail;
    } else {
      var rest := ElementsTokens(vs[1..], [CLOSE_BRACKET] + tail);
      var more := if |vs| > 1 then [COMMA] + rest else rest;
      ValueStarts(c, vs[0], deep, more);
      ValueParse(c, vs[0], deep, room, more);
      assert ([COMMA] + rest)[1..] == rest;
      ElementsParse(c, vs[1..], acc + [Unquoted(vs[0])], deep, room, tail);
      assert acc + [Unquoted(vs[0])] + UnquotedAll(vs[1..]) == acc + UnquotedAll(vs);
      AllWithin(vs, room);
    }
  }

  lemma AllWithin(vs: seq<Value>, room: nat)
    requires vs != []
    ensures (forall i :: 0 <= i < |vs| ==> Within(vs[i], room))
       <==> Within(vs[0], room) && forall i :: 0 <= i < |vs[1..]| ==> Within(vs[1..][i], room)
  {
    hide Within;
    forall i | 0 <= i < |vs| && i > 0 ensures vs[i] == vs[1..][i - 1] {}
  }

  lemma Two(a: Token, b: Token, tail: seq<Token>)
    ensures var ts := [a] + ([b] + tail);
            |ts| >= 2 && ts[0] == a && ts[1] == b && ts[2..] == tail
  {}

  /** An entry is its key, a mark and what the mark announces. */
  lemma MarkedParse(name: Token, mark: Token, rest: seq<Token>, allowMap: bool, room: nat)
    requires IsKey(name) && (mark.kind != Colon ==> IsName(name)) && (mark.kind == Colon ==> allowMap)
    ensures mark.kind == Equals || mark.kind == Colon ==>
              var p := ParseValue(rest, room);
              ParseEntry([name] + ([mark] + rest), allowMap, room)
              == if p.None? then None
                 else if mark.kind == Equals then Some(Parsed(Assignment(name.value, name.kind == Str, p.value.node), p.value.rest))
                 else Some(Parsed(MapEntry(name.value, name.kind == Str, p.value.node), p.value.rest))
    ensures mark.kind == LBrace ==>
              ParseEntry([name] + ([mark] + rest), allowMap, room)
              == if room == 0 || ParseBody(rest, [], room - 1).None? then None
                 else
                   var p := ParseBody(rest, [], room - 1).value;
                   Some(Parsed(Block(name.value, name.kind == Str, p.node), p.rest))
  {
    hide ParseValue, ParseBody, IsKey, IsName;
    Two(name, mark, rest);
  }

  lemma {:induction false} EntryParse(c: Config, e: Entry, allowMap: bool, deep: nat, room: nat, tail: seq<Token>)
    requires ProperEntry(c, e, deep) && !e.TypeEntry? && (e.MapEntry? ==> allowMap)
    ensures ParseEntry(EntryTokens(e, tail), allowMap, room)
         == if EntryWithin(e, room) then Some(Parsed(UnquotedEntry(e), tail)) else None
    decreases e, 0
  {
    hide ParseValue, ParseBody, ParseEntry, ValueTokens, EntriesTokens, Proper, Unquoted, UnquotedEntries, ProperName, Within;
    match e
    case Assignment(key, quoted, v) =>
      ValueParse(c, v, deep, room, tail);
      MarkedParse(NameToken(key, quoted), EQUALS, ValueTokens(v, tail), allowMap, room);
    case MapEntry(key, quoted, v) =>
      ValueParse(c, v, deep, room, tail);
      MarkedParse(NameToken(key, KeepsQuotes(key, quoted)), COLON, ValueTokens(v, tail), allowMap, room);
    case Block(name, quoted, es) =>
      MarkedParse(NameToken(name, quoted), OPEN_BRACE, EntriesTokens(es, [CLOSE_BRACE] + tail), allowMap, room);
      if room > 0 {
        EntriesParse(c, es, [], deep - 1, room - 1, tail);
        assert [] + UnquotedEntries(es) == UnquotedEntries(es);
      }
  }

  lemma EntryStarts(e: Entry, tail: seq<Token>)
    ensures var k := KindOf(EntryTokens(e, tail));
            EntryTokens(e, tail) != [] && k != RBrace && k != Eof && (k == AtType <==> e.TypeEntry?)
  {
    hide ValueTokens, EntriesTokens;
  }

  lemma TypeEntryTokens(url: string, tail: seq<Token>)
    ensures var ts := EntryTokens(TypeEntry(url), tail);
            |ts| >= 3 && ts[1] == EQUALS && ts[2] == Plain(Str, url) && ts[3..] == tail
  {
    var ts := EntryTokens(TypeEntry(url), tail);
    assert ts[3..] == tail;
  }

  lemma {:induction false} EntriesParse(c: Config, es: seq<Entry>, acc: seq<Entry>, deep: nat, room: nat, tail: seq<Token>)
    requires forall i :: 0 <= i < |es| ==> ProperEntry(c, es[i], deep) && (es[i].TypeEntry? ==> i == 0 && acc == [])
    ensures ParseBody(EntriesTokens(es, [CLOSE_BRACE] + tail), acc, room)
         == if EntriesWithin(es, room) then Some(Parsed(acc + UnquotedEntries(es), tail)) else None
    decreases es, 1
  {
    hide ParseEntry, EntryTokens, ProperEntry, EntryWithin;
    if es == [] {
      assert acc + UnquotedEntries(es) == acc && ([CLOSE_BRACE] + tail)[1..] == tail;
    } else {
      var rest := EntriesTokens(es[1..], [CLOSE_BRACE] + tail);
      EntryStarts(es[0], rest);
      FirstWithin(es, room);
      if es[0].TypeEntry? {
        TypeEntryTokens(es[0].url, rest);
        assert UnquotedEntry(es[0]) == es[0];
      } else {
        EntryParse(c, es[0], true, deep, room, rest);
      }
      hide UnquotedEntry, EntriesWithin;
      EntriesParse(c, es[1..], acc + [UnquotedEntry(es[0])], deep, room, tail);
      assert acc + [UnquotedEntry(es[0])] + UnquotedEntries(es[1..]) == acc + UnquotedEntries(es);
    }
  }

  lemma FirstWithin(es: seq<Entry>, room: nat)
    requires es != []
    ensures EntriesWithin(es, room) <==> EntryWithin(es[0], room) && EntriesWithin(es[1..], room)
    ensures es[0].TypeEntry? ==> EntryWithin(es[0], room)
  {
    hide Within;
    forall i | 0 <= i < |es| && i > 0 ensures es[i] == es[1..][i - 1] {}
  }

  lemma {:induction false} TopParse(c: Config, es: seq<Entry>, acc: seq<Entry>, deep: nat, room: nat)
    requires forall i :: 0 <= i < |es| ==> ProperEntry(c, es[i], deep) && (es[i].Assignment? || es[i].Block?)
    ensures ParseTop(EntriesTokens(es, []), acc, room) == if EntriesWithin(es, room) then Some(acc + UnquotedEntries(es)) else None
    decreases es, 1
  {
    hide ParseEntry, EntryTokens, ProperEntry, UnquotedEntry, EntryWithin;
    if es == [] {
      assert acc + UnquotedEntries(es) == acc;
    } else {
      var rest := EntriesTokens(es[1..], []);
      EntryStarts(es[0], rest);
      FirstWithin(es, room);
      EntryParse(c, es[0], false, deep, room, rest);
      hide EntriesWithin;
      TopParse(c, es[1..], acc + [UnquotedEntry(es[0])], deep, room);
      assert acc + [UnquotedEntry(es[0])] + UnquotedEntries(es[1..]) == acc + UnquotedEntries(es);
    }
  }

  lemma DocumentParse(c: Config, d: Document, deep: nat, maxDepth: nat)
    requires ProperDocument(c, d, deep)
    ensures ParseDocument(DocumentTokens(d), "", maxDepth)
         == if EntriesWithin(d.entries, maxDepth) then Some(UnquotedDocument(d)) else None
  {
    hide ParseTop, EntriesTokens, ProperEntry, Produced, UnquotedEntries, EntriesWithin;
    var body := EntriesTokens(d.entries, []);
    TopParse(c, d.entries, [], deep, maxDepth);
    TopStarts(d);
    assert [] + UnquotedEntries(d.entries) == UnquotedEntries(d.entries);
    if d.typeUrl != "" {
      Two(TYPE, Plain(Ident, d.typeUrl), body);
      assert ParseDocument(DocumentTokens(d), "", maxDepth) == ParseDocument(body, d.typeUrl, maxDepth);
    }
  }

  lemma TopStarts(d: Document)
    requires forall i :: 0 <= i < |d.entries| ==> d.entries[i].Assignment? || d.entries[i].Block?
    ensures KindOf(EntriesTokens(d.entries, [])) != AtType
  {
    if d.entries != [] {
      EntryStarts(d.entries[0], EntriesTokens(d.entries[1..], []));
    }
  }

  // An illegal token is never passed.

  lemma Behind(ts: seq<Token>, n: nat)
    requires n <= |ts| && HasIllegal(ts) && forall i :: 0 <= i < n ==> ts[i].kind != Illegal
    ensures HasIllegal(ts[n..])
  {
    var i :| 0 <= i < |ts| && ts[i].kind == Illegal;
    assert ts[n..][i - n].kind == Illegal;
  }

  lemma {:induction false} ValueStops(ts: seq<Token>, room: nat)
    requires HasIllegal(ts) && ParseValue(ts, room).Some?
    ensures HasIllegal(ParseValue(ts, room).value.rest)
    decreases |ts|, 0
  {
    hide HasIllegal, Decode;
    Behind(ts, 1);
    if KindOf(ts).LBracket? {
      ListStops(ts[1..], [], room - 1);
    } else if KindOf(ts).LBrace? {
      BodyStops(ts[1..], [], room - 1);
    }
  }

  lemma {:induction false} ListStops(ts: seq<Token>, acc: seq<Value>, room: nat)
    requires HasIllegal(ts) && ParseList(ts, acc, room).Some?
    ensures HasIllegal(ParseList(ts, acc, room).value.rest)
    decreases |ts|, 1
  {
    hide HasIllegal, ParseValue;
    if KindOf(ts).RBracket? {
      Behind(ts, 1);
    } else {
      ValueStops(ts, room);
      var p := ParseValue(ts, room).value;
      if KindOf(p.rest).Comma? {
        Behind(p.rest, 1);
      }
      ListStops(if KindOf(p.rest).Comma? then p.rest[1..] else p.rest, acc + [p.node], room);
    }
  }

  lemma {:induction false} EntryStops(ts: seq<Token>, allowMap: bool, room: nat)
    requires HasIllegal(ts) && ParseEntry(ts, allowMap, room).Some?
    ensures HasIllegal(ParseEntry(ts, allowMap, room).value.rest)
    decreases |ts|, 1
  {
    hide HasIllegal, ParseValue, ParseBody;
    Behind(ts, 2);
    if ts[1].kind.LBrace? {
      BodyStops(ts[2..], [], room - 1);
    } else {
      ValueStops(ts[2..], room);
    }
  }

  lemma {:induction false} BodyStops(ts: seq<Token>, acc: seq<Entry>, room: nat)
    requires HasIllegal(ts) && ParseBody(ts, acc, room).Some?
    ensures HasIllegal(ParseBody(ts, acc, room).value.rest)
    decreases |ts|, 2
  {
    hide HasIllegal, ParseEntry;
    if KindOf(ts).RBrace? {
      Behind(ts, 1);
    } else if KindOf(ts).AtType? {
      Behind(ts, 3);
      BodyStops(ts[3..], acc + [TypeEntry(ts[2].value)], room);
    } else {
      EntryStops(ts, true, room);
      var p := ParseEntry(ts, true, room).value;
      BodyStops(p.rest, acc + [p.node], room);
    }
  }

  lemma {:induction false} TopStops(ts: seq<Token>, acc: seq<Entry>, room: nat)
    requires HasIllegal(ts)
    ensures ParseTop(ts, acc, room).None?
    decreases |ts|
  {
    hide ParseEntry;
    if ParseEntry(ts, false, room).Some? {
      EntryStops(ts, false, room);
      var p := ParseEntry(ts, false, room).value;
      TopStops(p.rest, acc + [p.node], room);
    }
  }

  lemma {:induction false} DocumentStops(ts: seq<Token>, url: string, maxDepth: nat)
    requires HasIllegal(ts)
    ensures ParseDocument(ts, url, maxDepth).None?
    decreases |ts|
  {
    hide ParseTop;
    if KindOf(ts).AtType? {
      if |ts| >= 2 && ts[1].kind == Ident {
        Behind(ts, 2);
        DocumentStops(ts[2..], ts[1].value, maxDepth);
      }
    } else {
      TopStops(ts, [], maxDepth);
    }
  }

  /** What a document's text parses as: the document, with the quotes of safe map
      keys gone, unless the text is past the size limit, a bytes literal is judged too
      long once it is padded, or it nests deeper than this parse allows. */
  lemma FormatParses(c: Config, unit: string, d: Document, deep: nat, maxDepth: nat)
    requires AllBlank(unit) && ProperDocument(c, d, deep)
    ensures Parse(c, Format(unit, d), maxDepth)
         == if |Format(unit, d)| <= c.maxSize && EntriesFit(c, d.entries) && EntriesWithin(d.entries, maxDepth) then
              Some(UnquotedDocument(d))
            else None
  {
    hide Tokens, ParseDocument, Format, DocumentTokens, ProperDocument, EntriesFit, EntriesWithin, UnquotedDocument;
    if EntriesFit(c, d.entries) {
      DocumentLex(c, unit, d, deep);
      DocumentParse(c, d, deep, maxDepth);
    } else {
      UnfitDocument(c, unit, d, deep);
      DocumentStops(Tokens(c, Format(unit, d)), "", maxDepth);
    }
  }

  // Proper values are within their room.

  lemma {:induction false} ProperWithin(c: Config, v: Value, room: nat)
    requires Proper(c, v, room)
    ensures Within(v, room)
    decreases v, 0
  {
    hide Produced, ProperEntry, IsUtf8, AllOctets;
    match v
    case ListVal(vs) =>
      forall i | 0 <= i < |vs| ensures Within(vs[i], room - 1) {
        ProperWithin(c, vs[i], room - 1);
      }
    case BlockVal(es) => BodyWithin(c, es, room - 1);
    case _ =>
  }

  lemma {:induction false} EntryIsWithin(c: Config, e: Entry, room: nat)
    requires ProperEntry(c, e, room)
    ensures EntryWithin(e, room)
    decreases e, 0
  {
    hide Produced, Proper, ProperName, Within, EntriesWithin;
    match e
    case Assignment(_, _, v) => ProperWithin(c, v, room);
    case MapEntry(_, _, v) => ProperWithin(c, v, room);
    case Block(_, _, es) => BodyWithin(c, es, room - 1);
    case TypeEntry(_) =>
  }

  lemma {:induction false} BodyWithin(c: Config, es: seq<Entry>, room: nat)
    requires forall i :: 0 <= i < |es| ==> ProperEntry(c, es[i], room)
    ensures EntriesWithin(es, room)
    decreases es, 1
  {
    hide ProperEntry, EntryWithin;
    forall i | 0 <= i < |es| ensures EntryWithin(es[i], room) {
      EntryIsWithin(c, es[i], room);
    }
  }

  // What is parsed is proper.

  /** Every token is one that some text starts with. */
  ghost predicate Sound(c: Config, ts: seq<Token>) {
    forall i :: 0 <= i < |ts| ==> Produced(c, ts[i])
  }

  lemma {:induction false} TokensSound(c: Config, s: string)
    ensures Sound(c, Tokens(c, s))
    decreases |s|
  {
    hide LexAt;
    var t := SkipBlanks(s);
    if t != "" {
      assert Produced(c, LexAt(c, t).token);
      TokensSound(c, LexAt(c, t).rest);
    }
  }

  lemma SoundAfter(c: Config, ts: seq<Token>, n: nat)
    requires Sound(c, ts) && n <= |ts|
    ensures Sound(c, ts[n..])
  {}

  lemma {:induction false} LexedString(s: string, buf: string)
    ensures LexString(s, buf).token.kind == Str ==> IsUtf8(LexString(s, buf).token.value) && LexString(s, buf).token.prec == ""
    decreases |s|
  {
    hide IsUtf8;
    if s != "" && s[0] != '\n' && s[0] != '"' {
      if s[0] != '\\' {
        LexedString(s[1..], buf + [s[0]]);
      } else if |s| > 1 && EscapeAt(s[1..]).Some? {
        LexedString(s[1 + EscapeAt(s[1..]).value.length..], buf + EscapeAt(s[1..]).value.bytes);
      }
    }
  }

  /** What the lexer guarantees of a token by its kind. */
  lemma TokenFacts(c: Config, t: Token)
    requires Produced(c, t)
    ensures t.kind == Str ==> IsUtf8(t.value) && t.prec == ""
    ensures t.kind in {Ident, Bool, Null, TimestampLit, DurationLit} ==> t.prec == ""
    ensures t.kind == Bool ==> t.value == "true" || t.value == "false"
    ensures t.kind in {Ident, Int, Bool} ==> BareKind(t.value) == t.kind
  {
    var s :| s != "" && LexAt(c, s).token == t;
    if t.kind == Str {
      StringFacts(c, s);
    } else if t.kind in {Ident, Bool, Null} {
      WordFacts(c, s);
    } else if t.kind in {TimestampLit, DurationLit, Int} {
      NumberFacts(c, s);
    }
    hide *;
  }

  lemma StringFacts(c: Config, s: string)
    requires s != "" && LexAt(c, s).token.kind == Str
    ensures IsUtf8(LexAt(c, s).token.value) && LexAt(c, s).token.prec == ""
  {
    hide LexNumber, LexIdent, LexDirective, LexString, LexBytes, CommentEnd, LineEnd, IsUtf8, TripleQuotes;
    LexedString(s[1..], "");
  }

  lemma WordFacts(c: Config, s: string)
    requires s != "" && LexAt(c, s).token.kind in {Ident, Bool, Null}
    ensures var t := LexAt(c, s).token;
            && t.prec == "" && (t.kind == Bool ==> t.value == "true" || t.value == "false")
            && (t.kind != Null ==> BareKind(t.value) == t.kind)
  {
    LexedIdent(c, s);
    assert IdentEnd(s, 0) > 0;
    assert s[..IdentEnd(s, 0)][0] == s[0];
    hide LexAt, IdentEnd;
  }

  lemma NumberFacts(c: Config, s: string)
    requires s != "" && LexAt(c, s).token.kind in {Int, TimestampLit, DurationLit}
    ensures var t := LexAt(c, s).token;
            (t.kind != Int ==> t.prec == "") && (t.kind == Int ==> BareKind(t.value) == Int)
  {
    LexedNumber(c, s);
    hide LexAt;
    if IsDigit(s[0]) || !Infinity(s) {
      StartsNumber(s);
      NumberCases(s);
      if LexNumber(s).token.kind == Int {
        NumberBounds(s);
        IntValue(s);
      }
    }
    hide LexNumber, Timestamps.Valid, Durations.Valid;
  }

  lemma IntValue(s: string)
    requires Numeric(s) && LexNumber(s) == NumberToken(Int, s, PlacesEnd(s)) && PlacesEnd(s) > 0
    ensures BareKind(LexNumber(s).token.value) == Int
  {
    hide LexNumber, PlacesEnd;
    assert s[..PlacesEnd(s)][0] == s[0];
  }

  lemma {:induction false} DecodeOctets(s: string, buf: nat, bits: nat, out: string)
    requires bits in {0, 2, 4, 6} && AllOctets(out)
    ensures AllOctets(Decode(s, buf, bits, out))
    decreases |s|
  {
    if s != "" && s[0] != '=' {
      if !Base64Char(s[0]) {
        DecodeOctets(s[1..], buf, bits, out);
      } else {
        var wide := buf * 64 + ValueOf(s[0]);
        if bits == 0 {
          DecodeOctets(s[1..], wide, 6, out);
        } else {
          DecodeOctets(s[1..], wide % Leftover(bits - 2), bits - 2, out + [(wide / Leftover(bits - 2) % 256) as char]);
        }
      }
    }
  }

  lemma NullProduced(c: Config)
    ensures Produced(c, Plain(Null, "null"))
  {
    WordToken(c, "null");
    assert "null" != "" && LexAt(c, "null").token == Plain(Null, "null");
  }

  lemma LeafProper(c: Config, ts: seq<Token>, room: nat)
    requires Sound(c, ts) && ParseValue(ts, room).Some? && IsLeaf(ParseValue(ts, room).value.node)
    ensures Proper(c, ParseValue(ts, room).value.node, room)
  {
    hide ParseList, ParseBody, Decode, Produced, IsUtf8;
    var t := ts[0];
    TokenFacts(c, t);
    NullProduced(c);
    if t.kind == BytesLit {
      DecodeOctets(t.value, 0, 0, "");
    }
    hide BareKind;
    assert t == Token(t.kind, t.value, t.prec);
  }

  lemma {:induction false} ValueProper(c: Config, ts: seq<Token>, room: nat)
    requires Sound(c, ts) && ParseValue(ts, room).Some?
    ensures Proper(c, ParseValue(ts, room).value.node, room) && Sound(c, ParseValue(ts, room).value.rest)
    decreases |ts|, 0
  {
    hide Sound, Decode;
    SoundAfter(c, ts, 1);
    if KindOf(ts).LBracket? {
      ListProper(c, ts[1..], [], room - 1);
    } else if KindOf(ts).LBrace? {
      BodyProper(c, ts[1..], [], room - 1);
    } else {
      LeafProper(c, ts, room);
      hide Proper;
    }
  }

  lemma {:induction false} ListProper(c: Config, ts: seq<Token>, acc: seq<Value>, room: nat)
    requires Sound(c, ts) && ParseList(ts, acc, room).Some? && forall i :: 0 <= i < |acc| ==> Proper(c, acc[i], room)
    ensures forall i :: 0 <= i < |ParseList(ts, acc, room).value.node| ==> Proper(c, ParseList(ts, acc, room).value.node[i], room)
    ensures Sound(c, ParseList(ts, acc, room).value.rest)
    decreases |ts|, 1
  {
    hide Sound, ParseValue, Proper;
    if KindOf(ts).RBracket? {
      SoundAfter(c, ts, 1);
    } else {
      ValueProper(c, ts, room);
      var p := ParseValue(ts, room).value;
      if KindOf(p.rest).Comma? {
        SoundAfter(c, p.rest, 1);
      }
      ListProper(c, if KindOf(p.rest).Comma? then p.rest[1..] else p.rest, acc + [p.node], room);
    }
  }

  lemma NameProper(c: Config, t: Token)
    requires Produced(c, t) && IsKey(t)
    ensures ProperName(c, t.value, t.kind == Str)
    ensures IsName(t) && t.kind != Str ==> BareKind(t.value) == Ident
  {
    TokenFacts(c, t);
    hide Produced, IsUtf8, BareKind;
    assert t == Token(t.kind, t.value, t.prec);
  }

  lemma {:induction false} EntryProper(c: Config, ts: seq<Token>, allowMap: bool, room: nat)
    requires Sound(c, ts) && ParseEntry(ts, allowMap, room).Some?
    ensures var p := ParseEntry(ts, allowMap, room).value;
            && ProperEntry(c, p.node, room) && Sound(c, p.rest)
            && !p.node.TypeEntry? && (p.node.MapEntry? ==> allowMap)
    decreases |ts|, 1
  {
    hide Sound, ParseEntry, ParseValue, ParseBody, Proper, ProperName, Produced, BareKind, IsUtf8, IsKey, IsName;
    EntryShape(ts, allowMap, room);
    SoundToken(c, ts, 0);
    NameProper(c, ts[0]);
    SoundAfter(c, ts, 2);
    if ts[1].kind == LBrace {
      NoEntries(c, room - 1);
      BodyProper(c, ts[2..], [], room - 1);
    } else {
      ValueProper(c, ts[2..], room);
    }
    hide ProperBody;
  }

  lemma NoEntries(c: Config, room: nat)
    ensures ProperBody(c, [], room)
  {}

  lemma {:induction false} BodyProper(c: Config, ts: seq<Token>, acc: seq<Entry>, room: nat)
    requires Sound(c, ts) && ParseBody(ts, acc, room).Some? && ProperBody(c, acc, room)
    ensures ProperBody(c, ParseBody(ts, acc, room).value.node, room) && Sound(c, ParseBody(ts, acc, room).value.rest)
    decreases |ts|, 2
  {
    hide Sound, ParseEntry;
    if KindOf(ts).RBrace? {
      SoundAfter(c, ts, 1);
    } else if KindOf(ts).AtType? {
      assert IsUtf8(ts[2].value) by {
        SoundToken(c, ts, 2);
        TokenFacts(c, ts[2]);
      }
      SoundAfter(c, ts, 3);
      BodyProper(c, ts[3..], acc + [TypeEntry(ts[2].value)], room);
    } else {
      EntryProper(c, ts, true, room);
      hide ProperEntry;
      var p := ParseEntry(ts, true, room).value;
      BodyProper(c, p.rest, acc + [p.node], room);
    }
  }

  lemma SoundToken(c: Config, ts: seq<Token>, i: nat)
    requires Sound(c, ts) && i < |ts|
    ensures Produced(c, ts[i])
  {}

  lemma {:induction false} TopProper(c: Config, ts: seq<Token>, acc: seq<Entry>, room: nat)
    requires Sound(c, ts) && ParseTop(ts, acc, room).Some? && ProperDocument(c, Document("", acc), room)
    ensures ProperDocument(c, Document("", ParseTop(ts, acc, room).value), room)
    decreases |ts|
  {
    hide Sound, ParseEntry, ProperEntry;
    if ts != [] {
      EntryProper(c, ts, false, room);
      var p := ParseEntry(ts, false, room).value;
      TopProper(c, p.rest, acc + [p.node], room);
    }
  }

  lemma {:induction false} DocumentProper(c: Config, ts: seq<Token>, url: string, maxDepth: nat)
    requires Sound(c, ts) && ParseDocument(ts, url, maxDepth).Some? && (url != "" ==> Produced(c, Plain(Ident, url)))
    ensures ProperDocument(c, ParseDocument(ts, url, maxDepth).value, maxDepth)
    decreases |ts|
  {
    hide ParseTop, ProperEntry, Produced;
    if KindOf(ts).AtType? {
      SoundToken(c, ts, 1);
      TokenFacts(c, ts[1]);
      assert ts[1] == Token(ts[1].kind, ts[1].value, ts[1].prec);
      SoundAfter(c, ts, 2);
      DocumentProper(c, ts[2..], ts[1].value, maxDepth);
    } else {
      TopProper(c, ts, [], maxDepth);
    }
  }

  // Formatting again.

  lemma {:induction false} ValueAgain(unit: string, v: Value, level: nat, tail: string)
    ensures ValueText(unit, Unquoted(v), level, tail) == ValueText(unit, v, level, tail)
    decreases v, 0
  {
    match v
    case ListVal(vs) => ElementsAgain(unit, vs, level + 1, Indent(unit, level, "]" + tail));
    case BlockVal(es) => EntriesAgain(unit, es, level + 1, Indent(unit, level, "}" + tail));
    case _ =>
  }

  lemma {:induction false} ElementsAgain(unit: string, vs: seq<Value>, level: nat, tail: string)
    ensures ElementsText(unit, UnquotedAll(vs), level, tail) == ElementsText(unit, vs, level, tail)
    decreases vs, 1
  {
    hide ValueText, Unquoted;
    if vs != [] {
      ElementsAgain(unit, vs[1..], level, tail);
      ValueAgain(unit, vs[0], level, (if |vs| > 1 then "," else "") + ("\n" + ElementsText(unit, vs[1..], level, tail)));
      assert UnquotedAll(vs)[1..] == UnquotedAll(vs[1..]);
    }
  }

  lemma {:induction false} EntryAgain(unit: string, e: Entry, level: nat, tail: string)
    ensures EntryText(unit, UnquotedEntry(e), level, tail) == EntryText(unit, e, level, tail)
    decreases e, 0
  {
    hide ValueText, Unquoted;
    match e
    case Assignment(key, quoted, v) => ValueAgain(unit, v, level, "\n" + tail);
    case MapEntry(key, quoted, v) => ValueAgain(unit, v, level, "\n" + tail);
    case Block(name, quoted, es) => EntriesAgain(unit, es, level + 1, Indent(unit, level, "}" + ("\n" + tail)));
    case TypeEntry(url) =>
  }

  lemma {:induction false} EntriesAgain(unit: string, es: seq<Entry>, level: nat, tail: string)
    ensures EntriesText(unit, UnquotedEntries(es), level, tail) == EntriesText(unit, es, level, tail)
    decreases es, 1
  {
    hide EntryText, UnquotedEntry;
    if es != [] {
      EntriesAgain(unit, es[1..], level, tail);
      EntryAgain(unit, es[0], level, EntriesText(unit, es[1..], level, tail));
      assert UnquotedEntries(es)[1..] == UnquotedEntries(es[1..]);
    }
  }

  // The theorems.

  /** Every text that parses is formatted to a text that parses as the same document,
      but for the quotes of map keys that are safe without; it is refused exactly when
      it has grown past the size limit, or one of its bytes literals, padded, is judged
      past the length limit. */
  lemma RoundTrip(c: Config, unit: string, text: string, maxDepth: nat)
    requires AllBlank(unit) && Parse(c, text, maxDepth).Some?
    ensures var d := Parse(c, text, maxDepth).value;
            Parse(c, Format(unit, d), maxDepth)
            == if |Format(unit, d)| <= c.maxSize && EntriesFit(c, d.entries) then Some(UnquotedDocument(d)) else None
  {
    hide ParseDocument, Tokens, Format, EntriesWithin, EntriesFit, ProperEntry;
    var d := Parse(c, text, maxDepth).value;
    TokensSound(c, text);
    DocumentProper(c, Tokens(c, text), "", maxDepth);
    BodyWithin(c, d.entries, maxDepth);
    FormatParses(c, unit, d, maxDepth, maxDepth);
  }

  /** Formatting a formatted text changes nothing. */
  lemma FormatTwice(c: Config, unit: string, text: string, maxDepth: nat)
    requires AllBlank(unit) && Parse(c, text, maxDepth).Some?
    ensures var once := Format(unit, Parse(c, text, maxDepth).value);
            Parse(c, once, maxDepth).Some? ==> Format(unit, Parse(c, once, maxDepth).value) == once
  {
    hide Parse, EntriesText, UnquotedEntries, EntriesFit;
    RoundTrip(c, unit, text, maxDepth);
    EntriesAgain(unit, Parse(c, text, maxDepth).value.entries, 0, "");
  }
}
