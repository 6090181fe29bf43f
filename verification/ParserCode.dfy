/** The parser as it runs: one token in hand, the lexer behind it, and the nesting
    depth. */
module ParserCode {
  import opened Options
  import opened Lexing
  import opened Base64
  import opened LexerCode
  import Durations
  import Timestamps
  import opened Syntax

  /** The loop of advance. */
  method FirstToken(lex: Lexer) returns (t: Token)
    requires lex.Valid()
    modifies lex
    ensures lex.Valid() && t.kind != Newline && t.kind != Comment
    ensures Tokens(lex.config, old(lex.Rest()))
         == if t.kind == Eof then [] else if t.kind == Illegal then [ILLEGAL.token]
            else [t] + Tokens(lex.config, lex.Rest())
  {
    hide NextToken;
    while true
      invariant lex.Valid() && Tokens(lex.config, lex.Rest()) == Tokens(lex.config, old(lex.Rest()))
      decreases |lex.Rest()|
    {
      IllegalToken(lex.config, lex.Rest());
      t := lex.Next();
      if t.kind != Newline && t.kind != Comment {
        return;
      }
    }
  }

  class Parser {
    const lex: Lexer
    const maxDepth: nat
    var current: Token
    var depth: nat

    ghost predicate Valid()
      reads this, lex
    {
      lex.Valid() && depth <= maxDepth && current.kind != Newline && current.kind != Comment
    }

    /** The tokens from the one in hand on. */
    ghost function Ahead(): seq<Token>
      requires Valid()
      reads this, lex
    {
      if current.kind == Eof then []
      else if current.kind == Illegal then [ILLEGAL.token]
      else [current] + Tokens(lex.config, lex.Rest())
    }

    ghost function Room(): nat
      requires Valid()
      reads this, lex
    {
      maxDepth - depth
    }

    constructor (lex: Lexer, first: Token, maxDepth: nat)
      requires lex.Valid() && first.kind != Newline && first.kind != Comment
      ensures Valid() && this.lex == lex && current == first && depth == 0 && this.maxDepth == maxDepth
    {
      this.lex := lex;
      this.maxDepth := maxDepth;
      current := first;
      depth := 0;
    }

    /** The next token that is neither a line break nor a comment. */
    method Advance()
      requires Valid()
      modifies this`current, lex
      ensures Valid() && Ahead() == Tokens(lex.config, old(lex.Rest()))
      ensures old(current.kind) != Eof && old(current.kind) != Illegal ==> Ahead() == old(Ahead())[1..]
    {
      hide NextToken;
      current := FirstToken(lex);
    }

    /** parse_value */
    method ReadValue() returns (r: Option<Value>)
      requires Valid()
      modifies this, lex
      ensures Valid()
      ensures var spec := ParseValue(old(Ahead()), old(Room()));
              if spec.None? then r.None? else r == Some(spec.value.node) && Ahead() == spec.value.rest && depth == old(depth)
      decreases |Ahead()|, 1
    {
      hide Tokens, ParseValue;
      if current.kind == LBracket {
        r := ReadList();
      } else if current.kind == LBrace {
        r := ReadBlockVal();
      } else {
        r := ReadLiteral();
      }
    }

    /** parse_list */
    method ReadList() returns (r: Option<Value>)
      requires Valid() && current.kind == LBracket
      modifies this, lex
      ensures Valid()
      ensures var spec := ParseValue(old(Ahead()), old(Room()));
              if spec.None? then r.None? else r == Some(spec.value.node) && Ahead() == spec.value.rest && depth == old(depth)
      decreases |Ahead()|, 0
    {
      hide Tokens, ParseList, ParseValue;
      ValueShape(Ahead(), Room());
      if depth >= maxDepth {
        return None;
      }
      depth := depth + 1;
      Advance();
      var elements := ReadElements();
      if elements.None? {
        return None;
      }
      depth := depth - 1;
      r := Some(ListVal(elements.value));
    }

    /** parse_block_val */
    method ReadBlockVal() returns (r: Option<Value>)
      requires Valid() && current.kind == LBrace
      modifies this, lex
      ensures Valid()
      ensures var spec := ParseValue(old(Ahead()), old(Room()));
              if spec.None? then r.None? else r == Some(spec.value.node) && Ahead() == spec.value.rest && depth == old(depth)
      decreases |Ahead()|, 0
    {
      hide Tokens, ParseBody, ParseValue;
      ValueShape(Ahead(), Room());
      Advance();
      var entries := ReadBody();
      r := if entries.None? then None else Some(BlockVal(entries.value));
    }

    /** The arms of parse_value that take one token. */
    method ReadLiteral() returns (r: Option<Value>)
      requires Valid() && current.kind != LBracket && current.kind != LBrace
      modifies this, lex
      ensures Valid()
      ensures var spec := ParseValue(old(Ahead()), old(Room()));
              if spec.None? then r.None? else r == Some(spec.value.node) && Ahead() == spec.value.rest && depth == old(depth)
    {
      hide Tokens, ParseValue, Decode;
      var t := current;
      if t.kind == Eof {
        NoValue(Room());
        return None;
      }
      r := LiteralOf(t);
      LiteralValue(Ahead(), t, Room());
      if r.Some? {
        Advance();
      }
    }

    /** The loop of parse_list, past its bracket. */
    method ReadElements() returns (r: Option<seq<Value>>)
      requires Valid()
      modifies this, lex
      ensures Valid()
      ensures var spec := ParseList(old(Ahead()), [], old(Room()));
              if spec.None? then r.None? else r == Some(spec.value.node) && Ahead() == spec.value.rest && depth == old(depth)
      decreases |Ahead()|, 2
    {
      hide Tokens, ParseValue;
      var elements: seq<Value> := [];
      ghost var all := Ahead();
      while current.kind != RBracket && current.kind != Eof
        invariant Valid() && depth == old(depth) && |Ahead()| <= |all|
        invariant ParseList(all, [], old(Room())) == ParseList(Ahead(), elements, old(Room()))
        decreases |Ahead()|
      {
        var v := ReadValue();
        if v.None? {
          return None;
        }
        elements := elements + [v.value];
        if current.kind == Comma {
          Advance();
        }
      }
      if current.kind != RBracket {
        return None;
      }
      Advance();
      r := Some(elements);
    }

    /** parse_body, past its brace. */
    method ReadBody() returns (r: Option<seq<Entry>>)
      requires Valid()
      modifies this, lex
      ensures Valid()
      ensures var room := old(Room());
              if room == 0 then r.None?
              else
                var spec := ParseBody(old(Ahead()), [], room - 1);
                if spec.None? then r.None? else r == Some(spec.value.node) && Ahead() == spec.value.rest && depth == old(depth)
      decreases |Ahead()|, 3
    {
      hide Tokens, ParseBody;
      if depth >= maxDepth {
        return None;
      }
      depth := depth + 1;
      r := ReadEntries();
      if r.Some? {
        depth := depth - 1;
      }
    }

    /** Its loop, to the closing brace. */
    method ReadEntries() returns (r: Option<seq<Entry>>)
      requires Valid()
      modifies this, lex
      ensures Valid()
      ensures var spec := ParseBody(old(Ahead()), [], old(Room()));
              if spec.None? then r.None? else r == Some(spec.value.node) && Ahead() == spec.value.rest && depth == old(depth)
      decreases |Ahead()|, 2
    {
      hide Tokens, ParseEntry, ParseBody;
      var entries: seq<Entry> := [];
      ghost var all := Ahead();
      ghost var room := Room();
      while current.kind != RBrace && current.kind != Eof
        invariant Valid() && depth == old(depth) && |Ahead()| <= |all|
        invariant ParseBody(all, [], room) == ParseBody(Ahead(), entries, room)
        decreases |Ahead()|
      {
        BodyStep(Ahead(), entries, room);
        var e: Option<Entry>;
        if current.kind == AtType {
          e := ReadTypeEntry(entries == []);
        } else {
          e := ReadEntry(true);
        }
        if e.None? {
          return None;
        }
        entries := entries + [e.value];
      }
      BodyStep(Ahead(), entries, room);
      if current.kind != RBrace {
        return None;
      }
      Advance();
      r := Some(entries);
    }

    /** parse_type_entry */
    method ReadTypeEntry(first: bool) returns (r: Option<Entry>)
      requires Valid() && current.kind == AtType
      modifies this, lex
      ensures Valid() && depth == old(depth)
      ensures var ts := old(Ahead());
              if !first || |ts| < 3 || ts[1].kind != Equals || ts[2].kind != Str then r.None?
              else r == Some(TypeEntry(ts[2].value)) && Ahead() == ts[3..]
    {
      hide Tokens;
      ghost var ts := Ahead();
      if !first {
        return None;
      }
      Advance();
      assert Ahead() == ts[1..];
      if current.kind != Equals {
        return None;
      }
      Advance();
      assert Ahead() == ts[2..];
      if current.kind != Str {
        return None;
      }
      var url := current.value;
      Advance();
      assert Ahead() == ts[3..];
      r := Some(TypeEntry(url));
    }

    /** parse_entry */
    method ReadEntry(allowMap: bool) returns (r: Option<Entry>)
      requires Valid()
      modifies this, lex
      ensures Valid()
      ensures var spec := ParseEntry(old(Ahead()), allowMap, old(Room()));
              if spec.None? then r.None? else r == Some(spec.value.node) && Ahead() == spec.value.rest && depth == old(depth)
      decreases |Ahead()|, 1
    {
      hide Tokens, ParseValue, ParseBody, ParseEntry;
      var name := current;
      ghost var ts := Ahead();
      EntryShape(ts, allowMap, Room());
      if !IsKey(name) {
        return None;
      }
      Advance();
      assert Ahead() == ts[1..];
      var mark := current.kind;
      if !(mark == Equals && IsName(name)) && !(mark == Colon && allowMap) && !(mark == LBrace && IsName(name)) {
        return None;
      }
      Advance();
      assert Ahead() == ts[2..];
      r := ReadEntryBody(name, mark);
      assert |ts| >= 2 && ts[0] == name && ts[1].kind == mark;
    }

    /** What follows a key and its mark. */
    method ReadEntryBody(name: Token, mark: Kind) returns (r: Option<Entry>)
      requires Valid() && (mark == Equals || mark == Colon || mark == LBrace)
      modifies this, lex
      ensures Valid()
      ensures var ts, room := old(Ahead()), old(Room());
              if mark == LBrace then
                if room == 0 || ParseBody(ts, [], room - 1).None? then r.None?
                else
                  var p := ParseBody(ts, [], room - 1).value;
                  r == Some(Block(name.value, name.kind == Str, p.node)) && Ahead() == p.rest && depth == old(depth)
              else if ParseValue(ts, room).None? then r.None?
              else
                var p := ParseValue(ts, room).value;
                && r == Some(if mark == Equals then Assignment(name.value, name.kind == Str, p.node)
                             else MapEntry(name.value, name.kind == Str, p.node))
                && Ahead() == p.rest && depth == old(depth)
      decreases |Ahead()|, 4
    {
      hide Tokens, ParseValue, ParseBody;
      if mark == LBrace {
        var entries := ReadBody();
        return if entries.None? then None else Some(Block(name.value, name.kind == Str, entries.value));
      }
      var v := ReadValue();
      if v.None? {
        return None;
      }
      r := Some(if mark == Equals then Assignment(name.value, name.kind == Str, v.value)
                else MapEntry(name.value, name.kind == Str, v.value));
    }

    /** parse_document, without the other directives. */
    method ReadDocument() returns (r: Option<Document>)
      requires Valid() && depth == 0
      modifies this, lex
      ensures r == ParseDocument(old(Ahead()), "", maxDepth)
    {
      hide Tokens, ParseTop;
      var url := "";
      ghost var all := Ahead();
      while current.kind == AtType
        invariant Valid() && depth == 0
        invariant ParseDocument(all, "", maxDepth) == ParseDocument(Ahead(), url, maxDepth)
        decreases |Ahead()|
      {
        ghost var ts := Ahead();
        Advance();
        assert Ahead() == ts[1..];
        if current.kind != Ident {
          return None;
        }
        url := current.value;
        Advance();
        assert Ahead() == ts[2..];
      }
      var entries := ReadTop();
      r := if entries.None? then None else Some(Document(url, entries.value));
    }

    /** Its loop over the entries. */
    method ReadTop() returns (r: Option<seq<Entry>>)
      requires Valid() && depth == 0
      modifies this, lex
      ensures r == ParseTop(old(Ahead()), [], maxDepth)
    {
      hide Tokens, ParseEntry;
      var entries: seq<Entry> := [];
      ghost var all := Ahead();
      while current.kind != Eof
        invariant Valid() && depth == 0
        invariant ParseTop(all, [], maxDepth) == ParseTop(Ahead(), entries, maxDepth)
        decreases |Ahead()|
      {
        var e := ReadEntry(false);
        if e.None? {
          return None;
        }
        entries := entries + [e.value];
      }
      r := Some(entries);
    }
  }

  /** The value of a single token. */
  function LiteralOf(t: Token): Option<Value> {
    match t.kind
    case Str => Some(StringVal(t.value))
    case Int => Some(IntVal(t.value, t.prec))
    case Float => Some(FloatVal(t.value, t.prec))
    case Bool => Some(BoolVal(t.value == "true"))
    case BytesLit => Some(BytesVal(Decode(t.value, 0, 0, "")))
    case TimestampLit => Some(TimestampVal(t.value))
    case DurationLit => Some(DurationVal(t.value))
    case Null => Some(NullVal)
    case Ident => Some(IdentVal(t.value))
    case _ => None
  }

  lemma NoValue(room: nat)
    ensures ParseValue([], room) == None
  {}

  lemma LiteralValue(ts: seq<Token>, t: Token, room: nat)
    requires t.kind != LBracket && t.kind != LBrace && t.kind != Eof
    requires ts != [] && (t.kind != Illegal ==> ts[0] == t) && ts[0].kind == t.kind
    ensures ParseValue(ts, room) == if LiteralOf(t).None? then None else Some(Parsed(LiteralOf(t).value, ts[1..]))
  {
    hide Decode, ParseList, ParseBody;
  }

  /** The specification's illegal token has no text. */
  lemma IllegalToken(c: Config, s: string)
    ensures NextToken(c, s).token.kind == Illegal ==> NextToken(c, s) == ILLEGAL
  {
    var t := SkipBlanks(s);
    if t != "" {
      IllegalAt(c, t);
    }
    hide LexAt;
  }

  lemma IllegalAt(c: Config, s: string)
    requires s != ""
    ensures LexAt(c, s).token.kind == Illegal ==> LexAt(c, s) == ILLEGAL
  {
    IllegalString(s[1..], "");
    hide LexString, CommentEnd, LineEnd, Timestamps.Valid, Durations.Valid, DurationEnd, TimestampEnd, TripleQuotes, BytesEnd;
  }

  lemma {:induction false} IllegalString(s: string, buf: string)
    ensures LexString(s, buf).token.kind == Illegal ==> LexString(s, buf) == ILLEGAL
    decreases |s|
  {
    hide IsUtf8;
    if s != "" && s[0] != '\n' && s[0] != '"' {
      if s[0] != '\\' {
        IllegalString(s[1..], buf + [s[0]]);
      } else if |s| > 1 && EscapeAt(s[1..]).Some? {
        IllegalString(s[1 + EscapeAt(s[1..]).value.length..], buf + EscapeAt(s[1..]).value.bytes);
      }
    }
  }

  /** parse_with_limits */
  method ParseText(config: Config, input: string, maxDepth: nat) returns (r: Option<Document>)
    ensures r == Parse(config, input, maxDepth)
  {
    hide Tokens, ParseDocument;
    if |input| > config.maxSize {
      return None;
    }
    var lex := new Lexer(config, input);
    var first := FirstToken(lex);
    var p := new Parser(lex, first, maxDepth);
    r := p.ReadDocument();
  }
}
