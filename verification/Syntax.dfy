/** PXF documents as trees: the parser over tokens, and the formatter, as text and
    as the tokens it spells. */
module Syntax {
  import opened Options
  import opened Lexing
  import opened LexFacts
  import opened Base64
  import KeyedForm

  datatype Value =
    | StringVal(value: string)
    | IntVal(raw: string, prec: string)
    | FloatVal(raw: string, prec: string)
    | BoolVal(b: bool)
    | BytesVal(bytes: string)
    | NullVal
    | IdentVal(name: string)
    | TimestampVal(raw: string)
    | DurationVal(raw: string)
    | ListVal(elements: seq<Value>)
    | BlockVal(entries: seq<Entry>)

  datatype Entry =
    | Assignment(key: string, quoted: bool, value: Value)
    | MapEntry(key: string, quoted: bool, value: Value)
    | Block(name: string, quoted: bool, entries: seq<Entry>)
    | TypeEntry(url: string)

  datatype Document = Document(typeUrl: string, entries: seq<Entry>)

  // Parsing.

  datatype Parsed<T> = Parsed(node: T, rest: seq<Token>)

  function KindOf(ts: seq<Token>): Kind {
    if ts == [] then Eof else ts[0].kind
  }

  function ParseValue(ts: seq<Token>, room: nat): (r: Option<Parsed<Value>>)
    ensures r.Some? ==> |r.value.rest| < |ts|
    decreases |ts|, 0
  {
    match KindOf(ts)
    case Str => Some(Parsed(StringVal(ts[0].value), ts[1..]))
    case Int => Some(Parsed(IntVal(ts[0].value, ts[0].prec), ts[1..]))
    case Float => Some(Parsed(FloatVal(ts[0].value, ts[0].prec), ts[1..]))
    case Bool => Some(Parsed(BoolVal(ts[0].value == "true"), ts[1..]))
    case BytesLit => Some(Parsed(BytesVal(Decode(ts[0].value, 0, 0, "")), ts[1..]))
    case TimestampLit => Some(Parsed(TimestampVal(ts[0].value), ts[1..]))
    case DurationLit => Some(Parsed(DurationVal(ts[0].value), ts[1..]))
    case Null => Some(Parsed(NullVal, ts[1..]))
    case Ident => Some(Parsed(IdentVal(ts[0].value), ts[1..]))
    case LBracket =>
      if room == 0 then None
      else
        (match ParseList(ts[1..], [], room - 1)
         case None => None
         case Some(p) => Some(Parsed(ListVal(p.node), p.rest)))
    case LBrace =>
      if room == 0 then None
      else
        (match ParseBody(ts[1..], [], room - 1)
         case None => None
         case Some(p) => Some(Parsed(BlockVal(p.node), p.rest)))
    case _ => None
  }

  /** Elements up to the closing bracket, a comma after each or not. */
  function ParseList(ts: seq<Token>, acc: seq<Value>, room: nat): (r: Option<Parsed<seq<Value>>>)
    ensures r.Some? ==> |r.value.rest| < |ts|
    decreases |ts|, 1
  {
    if ts == [] then None
    else if KindOf(ts).RBracket? then Some(Parsed(acc, ts[1..]))
    else
      match ParseValue(ts, room)
      case None => None
      case Some(p) => ParseList(if KindOf(p.rest).Comma? then p.rest[1..] else p.rest, acc + [p.node], room)
  }

  function ParseBody(ts: seq<Token>, acc: seq<Entry>, room: nat): (r: Option<Parsed<seq<Entry>>>)
    ensures r.Some? ==> |r.value.rest| < |ts|
    decreases |ts|, 2
  {
    if ts == [] then None
    else if KindOf(ts).RBrace? then Some(Parsed(acc, ts[1..]))
    else if KindOf(ts).AtType? then
      if acc != [] || |ts| < 3 || ts[1].kind != Equals || ts[2].kind != Str then None
      else ParseBody(ts[3..], acc + [TypeEntry(ts[2].value)], room)
    else
      match ParseEntry(ts, true, room)
      case None => None
      case Some(p) => ParseBody(p.rest, acc + [p.node], room)
  }

  predicate IsKey(t: Token) {
    t.kind in {Ident, Str, Int, Bool} && t.prec == ""
  }

  predicate IsName(t: Token) {
    t.kind == Ident || t.kind == Str
  }

  function ParseEntry(ts: seq<Token>, allowMap: bool, room: nat): (r: Option<Parsed<Entry>>)
    ensures r.Some? ==> |r.value.rest| < |ts|
    decreases |ts|, 1
  {
    if |ts| < 2 || !IsKey(ts[0]) then None
    else
      var key, quoted := ts[0].value, ts[0].kind == Str;
      match ts[1].kind
      case Equals =>
        if !IsName(ts[0]) then None
        else
          (match ParseValue(ts[2..], room)
           case None => None
           case Some(p) => Some(Parsed(Assignment(key, quoted, p.node), p.rest)))
      case Colon =>
        if !allowMap then None
        else
          (match ParseValue(ts[2..], room)
           case None => None
           case Some(p) => Some(Parsed(MapEntry(key, quoted, p.node), p.rest)))
      case LBrace =>
        if !IsName(ts[0]) || room == 0 then None
        else
          (match ParseBody(ts[2..], [], room - 1)
           case None => None
           case Some(p) => Some(Parsed(Block(key, quoted, p.node), p.rest)))
      case _ => None
  }

  function ParseTop(ts: seq<Token>, acc: seq<Entry>, room: nat): Option<seq<Entry>>
    decreases |ts|
  {
    if ts == [] then Some(acc)
    else
      match ParseEntry(ts, false, room)
      case None => None
      case Some(p) => ParseTop(p.rest, acc + [p.node], room)
  }

  /** The type directive, which may be repeated, and the entries. */
  function ParseDocument(ts: seq<Token>, typeUrl: string, maxDepth: nat): Option<Document>
    decreases |ts|
  {
    if KindOf(ts).AtType? then
      if |ts| < 2 || ts[1].kind != Ident then None else ParseDocument(ts[2..], ts[1].value, maxDepth)
    else
      match ParseTop(ts, [], maxDepth)
      case None => None
      case Some(es) => Some(Document(typeUrl, es))
  }

  /** parse_with_limits, on a text without the other directives: its size is judged
      before its first token. */
  function Parse(c: Config, s: string, maxDepth: nat): Option<Document> {
    if |s| > c.maxSize then None else ParseDocument(Tokens(c, s), "", maxDepth)
  }

  // The parser, unfolded once.

  lemma ValueShape(ts: seq<Token>, room: nat)
    ensures KindOf(ts) == LBracket ==>
              ParseValue(ts, room)
              == if room == 0 || ParseList(ts[1..], [], room - 1).None? then None
                 else Some(Parsed(ListVal(ParseList(ts[1..], [], room - 1).value.node), ParseList(ts[1..], [], room - 1).value.rest))
    ensures KindOf(ts) == LBrace ==>
              ParseValue(ts, room)
              == if room == 0 || ParseBody(ts[1..], [], room - 1).None? then None
                 else Some(Parsed(BlockVal(ParseBody(ts[1..], [], room - 1).value.node), ParseBody(ts[1..], [], room - 1).value.rest))
  {
    hide Decode, ParseList, ParseBody;
  }

  lemma BodyStep(ts: seq<Token>, acc: seq<Entry>, room: nat)
    ensures ParseBody(ts, acc, room)
         == if ts == [] then None
            else if ts[0].kind == RBrace then Some(Parsed(acc, ts[1..]))
            else if ts[0].kind == AtType then
              if acc != [] || |ts| < 3 || ts[1].kind != Equals || ts[2].kind != Str then None
              else ParseBody(ts[3..], acc + [TypeEntry(ts[2].value)], room)
            else
              var e := ParseEntry(ts, true, room);
              if e.None? then None else ParseBody(e.value.rest, acc + [e.value.node], room)
  {
    hide ParseEntry;
  }

  lemma EntryShape(ts: seq<Token>, allowMap: bool, room: nat)
    ensures ParseEntry(ts, allowMap, room)
         == if |ts| < 2 || !IsKey(ts[0]) then None
            else if ts[1].kind == LBrace then
              if !IsName(ts[0]) || room == 0 || ParseBody(ts[2..], [], room - 1).None? then None
              else
                var p := ParseBody(ts[2..], [], room - 1).value;
                Some(Parsed(Block(ts[0].value, ts[0].kind == Str, p.node), p.rest))
            else if !(ts[1].kind == Equals && IsName(ts[0])) && !(ts[1].kind == Colon && allowMap) then None
            else if ParseValue(ts[2..], room).None? then None
            else
              var p := ParseValue(ts[2..], room).value;
              Some(Parsed(if ts[1].kind == Equals then Assignment(ts[0].value, ts[0].kind == Str, p.node)
                          else MapEntry(ts[0].value, ts[0].kind == Str, p.node), p.rest))
  {
    hide ParseValue, ParseBody;
  }

  // Formatting, in front of the text that follows.

  function Indent(unit: string, level: nat, tail: string): string {
    if level == 0 then tail else unit + Indent(unit, level - 1, tail)
  }

  function NameText(name: string, quoted: bool, tail: string): string {
    (if quoted then QuoteString(name) else name) + tail
  }

  predicate OctetBytes(v: Value) {
    v.BytesVal? ==> AllOctets(v.bytes)
  }

  function BytesSource(b: string): string {
    if AllOctets(b) then BytesText(b) else ""
  }

  function ValueText(unit: string, v: Value, level: nat, tail: string): string
    decreases v, 0
  {
    match v
    case StringVal(s) => QuoteString(s) + tail
    case IntVal(raw, prec) => NumberText(Token(Int, raw, prec)) + tail
    case FloatVal(raw, prec) => NumberText(Token(Float, raw, prec)) + tail
    case BoolVal(b) => (if b then "true" else "false") + tail
    case BytesVal(b) => BytesSource(b) + tail
    case NullVal => "null" + tail
    case IdentVal(name) => name + tail
    case TimestampVal(raw) => raw + tail
    case DurationVal(raw) => raw + tail
    case ListVal(vs) => "[" + ("\n" + ElementsText(unit, vs, level + 1, Indent(unit, level, "]" + tail)))
    case BlockVal(es) => "{" + ("\n" + EntriesText(unit, es, level + 1, Indent(unit, level, "}" + tail)))
  }

  function ElementsText(unit: string, vs: seq<Value>, level: nat, tail: string): string
    decreases vs, 1
  {
    if vs == [] then tail
    else
      var more := (if |vs| > 1 then "," else "") + ("\n" + ElementsText(unit, vs[1..], level, tail));
      Indent(unit, level, ValueText(unit, vs[0], level, more))
  }

  /** A quoted map key loses its quotes when it is safe without. */
  predicate KeepsQuotes(key: string, quoted: bool) {
    quoted && !KeyedForm.IdentSafe(key)
  }

  function EntryText(unit: string, e: Entry, level: nat, tail: string): string
    decreases e, 0
  {
    match e
    case Assignment(key, quoted, v) => NameText(key, quoted, " " + ("=" + (" " + ValueText(unit, v, level, "\n" + tail))))
    case MapEntry(key, quoted, v) =>
      NameText(key, KeepsQuotes(key, quoted), ":" + (" " + ValueText(unit, v, level, "\n" + tail)))
    case Block(name, quoted, es) =>
      NameText(name, quoted, " " + ("{" + ("\n" + EntriesText(unit, es, level + 1, Indent(unit, level, "}" + ("\n" + tail))))))
    case TypeEntry(url) => "@type" + (" " + ("=" + (" " + (QuoteString(url) + ("\n" + tail)))))
  }

  function EntriesText(unit: string, es: seq<Entry>, level: nat, tail: string): string
    decreases es, 1
  {
    if es == [] then tail else Indent(unit, level, EntryText(unit, es[0], level, EntriesText(unit, es[1..], level, tail)))
  }

  /** format */
  function Format(unit: string, d: Document): string {
    var body := EntriesText(unit, d.entries, 0, "");
    if d.typeUrl == "" then body else "@type" + (" " + (d.typeUrl + ("\n" + ("\n" + body))))
  }

  // The tokens a formatted text spells.

  function NameToken(name: string, quoted: bool): Token {
    Plain(if quoted then Str else BareKind(name), name)
  }

  /** What a key without quotes is. */
  function BareKind(name: string): Kind {
    if name == "true" || name == "false" then Bool
    else if name != "" && IdentStart(name[0]) then Ident
    else Int
  }

  function ValueToken(v: Value): Token
    requires !v.ListVal? && !v.BlockVal? && OctetBytes(v)
  {
    match v
    case StringVal(s) => Plain(Str, s)
    case IntVal(raw, prec) => Token(Int, raw, prec)
    case FloatVal(raw, prec) => Token(Float, raw, prec)
    case BoolVal(b) => Plain(Bool, if b then "true" else "false")
    case BytesVal(b) => Plain(BytesLit, Encode(b))
    case NullVal => Plain(Null, "null")
    case IdentVal(name) => Plain(Ident, name)
    case TimestampVal(raw) => Plain(TimestampLit, raw)
    case DurationVal(raw) => Plain(DurationLit, raw)
  }

  const COMMA: Token := Plain(Comma, ",")
  const EQUALS: Token := Plain(Equals, "=")
  const COLON: Token := Plain(Colon, ":")
  const OPEN_BRACE: Token := Plain(LBrace, "{")
  const CLOSE_BRACE: Token := Plain(RBrace, "}")
  const OPEN_BRACKET: Token := Plain(LBracket, "[")
  const CLOSE_BRACKET: Token := Plain(RBracket, "]")
  const TYPE: Token := Plain(AtType, "@type")

  function ValueTokens(v: Value, tail: seq<Token>): seq<Token>
    decreases v, 0
  {
    match v
    case ListVal(vs) => [OPEN_BRACKET] + ElementsTokens(vs, [CLOSE_BRACKET] + tail)
    case BlockVal(es) => [OPEN_BRACE] + EntriesTokens(es, [CLOSE_BRACE] + tail)
    case _ => if OctetBytes(v) then [ValueToken(v)] + tail else tail
  }

  function ElementsTokens(vs: seq<Value>, tail: seq<Token>): seq<Token>
    decreases vs, 1
  {
    if vs == [] then tail
    else
      var rest := ElementsTokens(vs[1..], tail);
      ValueTokens(vs[0], if |vs| > 1 then [COMMA] + rest else rest)
  }

  function EntryTokens(e: Entry, tail: seq<Token>): seq<Token>
    decreases e, 0
  {
    match e
    case Assignment(key, quoted, v) => [NameToken(key, quoted)] + ([EQUALS] + ValueTokens(v, tail))
    case MapEntry(key, quoted, v) => [NameToken(key, KeepsQuotes(key, quoted))] + ([COLON] + ValueTokens(v, tail))
    case Block(name, quoted, es) => [NameToken(name, quoted)] + ([OPEN_BRACE] + EntriesTokens(es, [CLOSE_BRACE] + tail))
    case TypeEntry(url) => [TYPE] + ([EQUALS] + ([Plain(Str, url)] + tail))
  }

  function EntriesTokens(es: seq<Entry>, tail: seq<Token>): seq<Token>
    decreases es, 1
  {
    if es == [] then tail else EntryTokens(es[0], EntriesTokens(es[1..], tail))
  }

  // Documents the parser can produce.

  /** A token some text starts with. */
  ghost predicate Produced(c: Config, t: Token) {
    exists s :: s != "" && LexAt(c, s).token == t
  }

  /** Every literal is one the lexer made, and no value nests deeper than room. */
  ghost predicate Proper(c: Config, v: Value, room: nat)
    decreases v, 0
  {
    match v
    case StringVal(s) => IsUtf8(s)
    case BytesVal(b) => AllOctets(b)
    case ListVal(vs) => room > 0 && forall i :: 0 <= i < |vs| ==> Proper(c, vs[i], room - 1)
    case BlockVal(es) => room > 0 && ProperBody(c, es, room - 1)
    case _ => Produced(c, ValueToken(v))
  }

  ghost predicate ProperName(c: Config, name: string, quoted: bool) {
    if quoted then IsUtf8(name) else Produced(c, NameToken(name, false))
  }

  ghost predicate ProperEntry(c: Config, e: Entry, room: nat)
    decreases e, 0
  {
    match e
    case Assignment(key, quoted, v) => ProperName(c, key, quoted) && (!quoted ==> BareKind(key) == Ident) && Proper(c, v, room)
    case MapEntry(key, quoted, v) => ProperName(c, key, quoted) && Proper(c, v, room)
    case Block(name, quoted, es) =>
      ProperName(c, name, quoted) && (!quoted ==> BareKind(name) == Ident) && room > 0 && ProperBody(c, es, room - 1)
    case TypeEntry(url) => IsUtf8(url)
  }

  /** A type entry only opens a body. */
  ghost predicate ProperBody(c: Config, es: seq<Entry>, room: nat)
    decreases es, 1
  {
    forall i :: 0 <= i < |es| ==> ProperEntry(c, es[i], room) && (es[i].TypeEntry? ==> i == 0)
  }

  ghost predicate ProperDocument(c: Config, d: Document, maxDepth: nat) {
    && (d.typeUrl != "" ==> Produced(c, Plain(Ident, d.typeUrl)))
    && ProperBody(c, d.entries, maxDepth)
    && forall i :: 0 <= i < |d.entries| ==> d.entries[i].Assignment? || d.entries[i].Block?
  }

  // Depth alone.

  /** No list or block of the value nests deeper than room. */
  predicate Within(v: Value, room: nat)
    decreases v, 0
  {
    match v
    case ListVal(vs) => room > 0 && forall i :: 0 <= i < |vs| ==> Within(vs[i], room - 1)
    case BlockVal(es) => room > 0 && EntriesWithin(es, room - 1)
    case _ => true
  }

  predicate EntryWithin(e: Entry, room: nat)
    decreases e, 0
  {
    match e
    case Assignment(_, _, v) => Within(v, room)
    case MapEntry(_, _, v) => Within(v, room)
    case Block(_, _, es) => room > 0 && EntriesWithin(es, room - 1)
    case TypeEntry(_) => true
  }

  predicate EntriesWithin(es: seq<Entry>, room: nat)
    decreases es, 1
  {
    forall i :: 0 <= i < |es| ==> EntryWithin(es[i], room)
  }

  // What reading back changes: the quotes of a map key that needs none.

  function Unquoted(v: Value): Value
    decreases v, 0
  {
    match v
    case ListVal(vs) => ListVal(UnquotedAll(vs))
    case BlockVal(es) => BlockVal(UnquotedEntries(es))
    case _ => v
  }

  function UnquotedAll(vs: seq<Value>): (r: seq<Value>)
    ensures |r| == |vs|
    decreases vs, 1
  {
    if vs == [] then [] else [Unquoted(vs[0])] + UnquotedAll(vs[1..])
  }

  function UnquotedEntry(e: Entry): Entry
    decreases e, 0
  {
    match e
    case Assignment(key, quoted, v) => Assignment(key, quoted, Unquoted(v))
    case MapEntry(key, quoted, v) => MapEntry(key, KeepsQuotes(key, quoted), Unquoted(v))
    case Block(name, quoted, es) => Block(name, quoted, UnquotedEntries(es))
    case TypeEntry(url) => e
  }

  function UnquotedEntries(es: seq<Entry>): (r: seq<Entry>)
    ensures |r| == |es|
    decreases es, 1
  {
    if es == [] then [] else [UnquotedEntry(es[0])] + UnquotedEntries(es[1..])
  }

  function UnquotedDocument(d: Document): Document {
    d.(entries := UnquotedEntries(d.entries))
  }

  // Bytes literals within the limit once padded.

  predicate BytesFit(c: Config, v: Value)
    decreases v, 0
  {
    match v
    case BytesVal(b) => JudgedLength(|b|) <= c.maxBytes
    case ListVal(vs) => forall i :: 0 <= i < |vs| ==> BytesFit(c, vs[i])
    case BlockVal(es) => EntriesFit(c, es)
    case _ => true
  }

  predicate EntryFits(c: Config, e: Entry)
    decreases e, 0
  {
    match e
    case Assignment(_, _, v) => BytesFit(c, v)
    case MapEntry(_, _, v) => BytesFit(c, v)
    case Block(_, _, es) => EntriesFit(c, es)
    case TypeEntry(_) => true
  }

  predicate EntriesFit(c: Config, es: seq<Entry>)
    decreases es, 1
  {
    forall i :: 0 <= i < |es| ==> EntryFits(c, es[i])
  }
}
