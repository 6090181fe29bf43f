/** Documents by their tokens: what the parser accepts is what these spellings spell,
    and it reads each as the document it spells. */
module ParserSpelling {
  import opened Options
  import opened Lexing
  import opened Base64
  import opened Syntax

  // Spellings.

  /** A value with its own tokens; after an element a comma may stand or not. */
  datatype Spelled =
    | Leaf(t: Token)
    | InBrackets(open: Token, items: seq<Item>, close: Token)
    | InBraces(open: Token, entries: seq<Field>, close: Token)

  datatype Item = Item(value: Spelled, commas: seq<Token>)

  /** An entry with its own tokens, the mark being '=', ':' or '{'. */
  datatype Field =
    | Assigned(name: Token, mark: Token, value: Spelled)
    | Nested(name: Token, mark: Token, entries: seq<Field>, close: Token)
    | Typed(at: Token, mark: Token, url: Token)

  function TokensOf(v: Spelled): seq<Token>
    decreases v, 0
  {
    match v
    case Leaf(t) => [t]
    case InBrackets(open, items, close) => [open] + ItemsOf(items) + [close]
    case InBraces(open, entries, close) => [open] + FieldsOf(entries) + [close]
  }

  function ItemsOf(items: seq<Item>): seq<Token>
    decreases items, 1
  {
    if items == [] then [] else TokensOf(items[0].value) + items[0].commas + ItemsOf(items[1..])
  }

  function FieldOf(e: Field): seq<Token>
    decreases e, 0
  {
    match e
    case Assigned(name, mark, value) => [name, mark] + TokensOf(value)
    case Nested(name, mark, entries, close) => [name, mark] + FieldsOf(entries) + [close]
    case Typed(at, mark, url) => [at, mark, url]
  }

  function FieldsOf(es: seq<Field>): seq<Token>
    decreases es, 1
  {
    if es == [] then [] else FieldOf(es[0]) + FieldsOf(es[1..])
  }

  // What they mean.

  const LEAVES: set<Kind> := {Str, Int, Float, Bool, BytesLit, TimestampLit, DurationLit, Null, Ident}

  /** What a literal or identifier token is. */
  function LeafValue(t: Token): Value {
    match t.kind
    case Str => StringVal(t.value)
    case Int => IntVal(t.value, t.prec)
    case Float => FloatVal(t.value, t.prec)
    case Bool => BoolVal(t.value == "true")
    case BytesLit => BytesVal(Decode(t.value, 0, 0, ""))
    case TimestampLit => TimestampVal(t.value)
    case DurationLit => DurationVal(t.value)
    case Ident => IdentVal(t.value)
    case _ => NullVal
  }

  /** Lists and blocks nest no deeper than room. */
  predicate Formed(v: Spelled, room: nat)
    decreases v, 0
  {
    match v
    case Leaf(t) => t.kind in LEAVES
    case InBrackets(open, items, close) =>
      open.kind == LBracket && close.kind == RBracket && room > 0
      && forall i :: 0 <= i < |items| ==> FormedItem(items[i], room - 1)
    case InBraces(open, entries, close) =>
      open.kind == LBrace && close.kind == RBrace && room > 0 && FormedBody(entries, room - 1)
  }

  predicate FormedItem(item: Item, room: nat)
    decreases item, 0
  {
    Formed(item.value, room) && |item.commas| <= 1 && forall i :: 0 <= i < |item.commas| ==> item.commas[i].kind == Comma
  }

  /** A name is an identifier or a string; a map's key may be an integer or a bool too. */
  predicate FormedField(e: Field, room: nat)
    decreases e, 0
  {
    match e
    case Assigned(name, mark, value) =>
      && name.prec == "" && Formed(value, room)
      && ((mark.kind == Equals && name.kind in {Ident, Str}) || (mark.kind == Colon && name.kind in {Ident, Str, Int, Bool}))
    case Nested(name, mark, entries, close) =>
      && name.prec == "" && name.kind in {Ident, Str} && mark.kind == LBrace && close.kind == RBrace
      && room > 0 && FormedBody(entries, room - 1)
    case Typed(at, mark, url) => at.kind == AtType && mark.kind == Equals && url.kind == Str
  }

  /** A type entry only opens a body. */
  predicate FormedBody(es: seq<Field>, room: nat)
    decreases es, 1
  {
    forall i :: 0 <= i < |es| ==> FormedField(es[i], room) && (es[i].Typed? ==> i == 0)
  }

  function ValueOf(v: Spelled): Value
    decreases v, 0
  {
    match v
    case Leaf(t) => LeafValue(t)
    case InBrackets(_, items, _) => ListVal(ValuesOf(items))
    case InBraces(_, entries, _) => BlockVal(EntriesOf(entries))
  }

  function ValuesOf(items: seq<Item>): seq<Value>
    decreases items, 1
  {
    if items == [] then [] else [ValueOf(items[0].value)] + ValuesOf(items[1..])
  }

  function EntryOf(e: Field): Entry
    decreases e, 0
  {
    match e
    case Assigned(name, mark, value) =>
      if mark.kind == Equals then Assignment(name.value, name.kind == Str, ValueOf(value))
      else MapEntry(name.value, name.kind == Str, ValueOf(value))
    case Nested(name, _, entries, _) => Block(name.value, name.kind == Str, EntriesOf(entries))
    case Typed(_, _, url) => TypeEntry(url.value)
  }

  function EntriesOf(es: seq<Field>): seq<Entry>
    decreases es, 1
  {
    if es == [] then [] else [EntryOf(es[0])] + EntriesOf(es[1..])
  }

  // Sequences.

  lemma {:induction false} Joined<T>(a: seq<T>, b: seq<T>, c: seq<T>)
    ensures (a + b) + c == a + (b + c)
  {}

  lemma {:induction false} Nothing<T>(a: seq<T>)
    ensures a + [] == a && [] + a == a
  {}

  lemma {:induction false} Front<T>(a: T, b: seq<T>)
    ensures ([a] + b)[0] == a && ([a] + b)[1..] == b
  {}

  lemma {:induction false} FirstItem(item: Item, more: seq<Item>)
    ensures ItemsOf([item] + more) == TokensOf(item.value) + (item.commas + ItemsOf(more))
    ensures ValuesOf([item] + more) == [ValueOf(item.value)] + ValuesOf(more)
  {
    Front(item, more);
    hide TokensOf, ValueOf;
  }

  lemma {:induction false} FirstField(e: Field, more: seq<Field>)
    ensures FieldsOf([e] + more) == FieldOf(e) + FieldsOf(more)
    ensures EntriesOf([e] + more) == [EntryOf(e)] + EntriesOf(more)
  {
    Front(e, more);
    hide FieldOf, EntryOf;
  }

  // Every spelling is read as what it means.

  lemma {:induction false} Starts(v: Spelled, room: nat)
    requires Formed(v, room)
    ensures TokensOf(v) != [] && TokensOf(v)[0].kind in LEAVES + {LBracket, LBrace}
  {}

  lemma {:induction false} ValueRead(v: Spelled, room: nat, rest: seq<Token>)
    requires Formed(v, room)
    ensures ParseValue(TokensOf(v) + rest, room) == Some(Parsed(ValueOf(v), rest))
    decreases v, 0
  {
    match v
    case Leaf(t) => LeafRead(t, room, rest);
    case InBrackets(open, items, close) =>
      ItemsRead(items, [], room - 1, close, rest);
      Opened(open, ItemsOf(items), close, rest);
      ValueShape(TokensOf(v) + rest, room);
      Nothing(ValuesOf(items));
      hide ParseValue, ParseList, ParseBody, ItemsOf, ValuesOf, FormedItem;
    case InBraces(open, entries, close) =>
      BodyFormed(entries, room - 1);
      BodyRead(entries, [], room - 1, close, rest);
      Opened(open, FieldsOf(entries), close, rest);
      ValueShape(TokensOf(v) + rest, room);
      Nothing(EntriesOf(entries));
      hide ParseValue, ParseList, ParseBody, FieldsOf, EntriesOf, FormedBody, RestFormed;
  }

  lemma {:induction false} Opened(open: Token, inner: seq<Token>, close: Token, rest: seq<Token>)
    ensures var ts := [open] + inner + [close] + rest;
            ts[0] == open && ts[1..] == inner + ([close] + rest)
  {}

  lemma {:induction false} LeafRead(t: Token, room: nat, rest: seq<Token>)
    requires t.kind in LEAVES
    ensures ParseValue([t] + rest, room) == Some(Parsed(LeafValue(t), rest))
  {
    hide Decode, ParseList, ParseBody;
    Front(t, rest);
  }

  lemma {:induction false} ListStep(ts: seq<Token>, acc: seq<Value>, room: nat)
    requires ts != []
    ensures ParseList(ts, acc, room)
         == if ts[0].kind == RBracket then Some(Parsed(acc, ts[1..]))
            else
              var p := ParseValue(ts, room);
              if p.None? then None
              else ParseList(if KindOf(p.value.rest) == Comma then p.value.rest[1..] else p.value.rest, acc + [p.value.node], room)
  {
    hide ParseValue;
  }

  lemma {:induction false} ItemsRead(items: seq<Item>, acc: seq<Value>, room: nat, close: Token, rest: seq<Token>)
    requires forall i :: 0 <= i < |items| ==> FormedItem(items[i], room)
    requires close.kind == RBracket
    ensures ParseList(ItemsOf(items) + ([close] + rest), acc, room) == Some(Parsed(acc + ValuesOf(items), rest))
    decreases items, 1
  {
    hide ParseList, ParseValue;
    var tail := [close] + rest;
    if items == [] {
      Nothing(tail);
      Nothing(acc);
      Front(close, rest);
      ListStep(tail, acc, room);
    } else {
      var item, more := items[0], ItemsOf(items[1..]) + tail;
      assert items == [item] + items[1..];
      FirstItem(item, items[1..]);
      assert FormedItem(item, room);
      ValueRead(item.value, room, item.commas + more);
      NoComma(items[1..], room, tail);
      ItemStep(item, more, acc, room);
      ItemsRead(items[1..], acc + [ValueOf(item.value)], room, close, rest);
      hide *;
      Joined(TokensOf(item.value), item.commas + ItemsOf(items[1..]), tail);
      Joined(item.commas, ItemsOf(items[1..]), tail);
      Joined(acc, [ValueOf(item.value)], ValuesOf(items[1..]));
    }
  }

  lemma {:induction false} ItemStep(item: Item, more: seq<Token>, acc: seq<Value>, room: nat)
    requires FormedItem(item, room) && KindOf(more) != Comma
    requires ParseValue(TokensOf(item.value) + (item.commas + more), room)
          == Some(Parsed(ValueOf(item.value), item.commas + more))
    ensures ParseList(TokensOf(item.value) + (item.commas + more), acc, room) == ParseList(more, acc + [ValueOf(item.value)], room)
  {
    hide ParseList, ParseValue, TokensOf, ValueOf;
    var ts, commas := TokensOf(item.value) + (item.commas + more), item.commas;
    Starts(item.value, room);
    assert ts[0] == TokensOf(item.value)[0];
    ListStep(ts, acc, room);
    CommaPassed(commas, more);
  }

  lemma {:induction false} CommaPassed(commas: seq<Token>, more: seq<Token>)
    requires |commas| <= 1 && (forall i :: 0 <= i < |commas| ==> commas[i].kind == Comma) && KindOf(more) != Comma
    ensures (if KindOf(commas + more) == Comma then (commas + more)[1..] else commas + more) == more
  {
    if commas == [] {
      Nothing(more);
    } else {
      assert commas == [commas[0]];
      Front(commas[0], more);
    }
  }

  lemma {:induction false} NoComma(items: seq<Item>, room: nat, tail: seq<Token>)
    requires forall i :: 0 <= i < |items| ==> FormedItem(items[i], room)
    requires tail != [] && tail[0].kind != Comma
    ensures KindOf(ItemsOf(items) + tail) != Comma
  {
    if items == [] {
      assert ItemsOf(items) + tail == tail;
    } else {
      assert FormedItem(items[0], room);
      Starts(items[0].value, room);
      assert (ItemsOf(items) + tail)[0] == TokensOf(items[0].value)[0];
    }
  }

  /** The rest of a body, past a first entry or not. */
  predicate RestFormed(es: seq<Field>, room: nat, first: bool) {
    forall i :: 0 <= i < |es| ==> FormedField(es[i], room) && (es[i].Typed? ==> i == 0 && first)
  }

  lemma {:induction false} BodyRead(es: seq<Field>, acc: seq<Entry>, room: nat, close: Token, rest: seq<Token>)
    requires RestFormed(es, room, acc == []) && close.kind == RBrace
    ensures ParseBody(FieldsOf(es) + ([close] + rest), acc, room) == Some(Parsed(acc + EntriesOf(es), rest))
    decreases es, 1
  {
    hide ParseBody, ParseEntry;
    var tail := [close] + rest;
    if es == [] {
      Nothing(tail);
      Nothing(acc);
      Front(close, rest);
      BodyStep(tail, acc, room);
    } else {
      var e, more := es[0], FieldsOf(es[1..]) + tail;
      var acc' := acc + [EntryOf(e)];
      assert es == [e] + es[1..];
      FirstField(e, es[1..]);
      RestOf(es, room, acc == []);
      FieldStep(e, more, acc, room);
      BodyRead(es[1..], acc', room, close, rest);
      hide *;
      Joined(FieldOf(e), FieldsOf(es[1..]), tail);
      Joined(acc, [EntryOf(e)], EntriesOf(es[1..]));
    }
  }

  lemma {:induction false} RestOf(es: seq<Field>, room: nat, first: bool)
    requires es != [] && RestFormed(es, room, first)
    ensures FormedField(es[0], room) && (es[0].Typed? ==> first) && RestFormed(es[1..], room, false)
  {
    hide FormedField;
    assert forall i :: 0 <= i < |es[1..]| ==> es[1..][i] == es[i + 1];
  }

  lemma {:induction false} FieldStep(e: Field, more: seq<Token>, acc: seq<Entry>, room: nat)
    requires FormedField(e, room) && (e.Typed? ==> acc == [])
    ensures ParseBody(FieldOf(e) + more, acc, room) == ParseBody(more, acc + [EntryOf(e)], room)
    decreases e, 1
  {
    var ts := FieldOf(e) + more;
    BodyStep(ts, acc, room);
    hide ParseBody, ParseEntry;
    if e.Typed? {
      assert ts[0] == e.at && ts[1] == e.mark && ts[2] == e.url && ts[3..] == more;
    } else {
      FieldRead(e, true, room, more);
      FieldStarts(e, room);
      assert ts[0] == FieldOf(e)[0];
      hide FieldOf, EntryOf, FormedField;
    }
  }

  lemma {:induction false} FieldStarts(e: Field, room: nat)
    requires FormedField(e, room) && !e.Typed?
    ensures FieldOf(e) != [] && FieldOf(e)[0].kind in {Ident, Str, Int, Bool}
  {}

  lemma {:induction false} FieldRead(e: Field, allowMap: bool, room: nat, rest: seq<Token>)
    requires FormedField(e, room) && !e.Typed? && (e.Assigned? && e.mark.kind == Colon ==> allowMap)
    ensures ParseEntry(FieldOf(e) + rest, allowMap, room) == Some(Parsed(EntryOf(e), rest))
    decreases e, 0
  {
    var ts := FieldOf(e) + rest;
    EntryShape(ts, allowMap, room);
    hide ParseEntry, ParseValue, ParseBody;
    match e
    case Assigned(name, mark, value) =>
      TwoFirst(name, mark, TokensOf(value), rest);
      ValueRead(value, room, rest);
      hide TokensOf, ValueOf, Formed;
    case Nested(name, mark, entries, close) =>
      TwoFirst(name, mark, FieldsOf(entries) + [close], rest);
      Joined(FieldsOf(entries), [close], rest);
      Joined([name, mark], FieldsOf(entries), [close]);
      assert RestFormed(entries, room - 1, true);
      BodyRead(entries, [], room - 1, close, rest);
      Nothing(EntriesOf(entries));
      hide FieldsOf, EntriesOf, FormedBody, RestFormed;
  }

  lemma {:induction false} TwoFirst(a: Token, b: Token, c: seq<Token>, rest: seq<Token>)
    ensures var ts := [a, b] + c + rest;
            |ts| >= 2 && ts[0] == a && ts[1] == b && ts[2..] == c + rest
  {}

  // Documents.

  /** Type directives, of which the last counts, and entries that are no map's. */
  datatype Text = Text(types: seq<(Token, Token)>, entries: seq<Field>)

  predicate FormedText(d: Text, maxDepth: nat) {
    && (forall i :: 0 <= i < |d.types| ==> d.types[i].0.kind == AtType && d.types[i].1.kind == Ident)
    && forall i :: 0 <= i < |d.entries| ==> TopField(d.entries[i], maxDepth)
  }

  predicate TopField(e: Field, room: nat) {
    FormedField(e, room) && !e.Typed? && (e.Assigned? ==> e.mark.kind == Equals)
  }

  function TypesOf(types: seq<(Token, Token)>): seq<Token> {
    if types == [] then [] else [types[0].0, types[0].1] + TypesOf(types[1..])
  }

  function TextTokens(d: Text): seq<Token> {
    TypesOf(d.types) + FieldsOf(d.entries)
  }

  function DocumentOf(d: Text): Document {
    Document(if d.types == [] then "" else d.types[|d.types| - 1].1.value, EntriesOf(d.entries))
  }

  lemma {:induction false} TopRead(es: seq<Field>, acc: seq<Entry>, room: nat)
    requires forall i :: 0 <= i < |es| ==> TopField(es[i], room)
    ensures ParseTop(FieldsOf(es), acc, room) == Some(acc + EntriesOf(es))
    decreases |es|
  {
    var ts := FieldsOf(es);
    if es == [] {
      assert acc + [] == acc;
    } else {
      var e := es[0];
      assert TopField(e, room);
      FieldRead(e, false, room, FieldsOf(es[1..]));
      FieldStarts(e, room);
      TopRead(es[1..], acc + [EntryOf(e)], room);
      assert acc + [EntryOf(e)] + EntriesOf(es[1..]) == acc + EntriesOf(es);
      hide ParseEntry, FieldOf, EntryOf;
    }
  }

  lemma {:induction false} DocumentRead(d: Text, url: string, maxDepth: nat)
    requires FormedText(d, maxDepth)
    ensures ParseDocument(TextTokens(d), url, maxDepth)
         == Some(Document(if d.types == [] then url else d.types[|d.types| - 1].1.value, EntriesOf(d.entries)))
    decreases |d.types|
  {
    var ts := TextTokens(d);
    if d.types == [] {
      assert ts == FieldsOf(d.entries);
      TopRead(d.entries, [], maxDepth);
      assert [] + EntriesOf(d.entries) == EntriesOf(d.entries);
      if d.entries != [] {
        assert TopField(d.entries[0], maxDepth);
        FieldStarts(d.entries[0], maxDepth);
      }
      hide ParseTop, FieldOf, EntriesOf;
    } else {
      var more := Text(d.types[1..], d.entries);
      assert ts[0] == d.types[0].0 && ts[1] == d.types[0].1 && ts[2..] == TextTokens(more);
      DocumentRead(more, d.types[0].1.value, maxDepth);
      hide ParseTop, FieldsOf, EntriesOf;
    }
  }

  // What is accepted is spelled.

  lemma {:induction false} ValueSpelled(ts: seq<Token>, room: nat) returns (v: Spelled)
    requires ParseValue(ts, room).Some?
    ensures var p := ParseValue(ts, room).value;
            Formed(v, room) && ts == TokensOf(v) + p.rest && ValueOf(v) == p.node
    decreases |ts|, 0
  {
    ValueShape(ts, room);
    if KindOf(ts) == LBracket {
      hide ParseValue, ParseList, ParseBody;
      var items, close := ListSpelled(ts[1..], [], room - 1);
      v := InBrackets(ts[0], items, close);
      var rest := ParseList(ts[1..], [], room - 1).value.rest;
      Enclosed(ts, ItemsOf(items), close, rest);
      Nothing(ValuesOf(items));
      hide ItemsOf, ValuesOf, FormedItem;
    } else if KindOf(ts) == LBrace {
      hide ParseValue, ParseList, ParseBody;
      var entries, close := BodySpelled(ts[1..], [], room - 1);
      v := InBraces(ts[0], entries, close);
      var rest := ParseBody(ts[1..], [], room - 1).value.rest;
      Enclosed(ts, FieldsOf(entries), close, rest);
      Nothing(EntriesOf(entries));
      BodyFormed(entries, room - 1);
      hide FieldsOf, EntriesOf, FormedBody, RestFormed;
    } else {
      v := Leaf(ts[0]);
      hide ParseList, ParseBody, Decode;
      assert ts == [ts[0]] + ts[1..];
    }
  }

  lemma {:induction false} Enclosed(ts: seq<Token>, inner: seq<Token>, close: Token, rest: seq<Token>)
    requires ts != [] && ts[1..] == inner + ([close] + rest)
    ensures ts == [ts[0]] + inner + [close] + rest
  {
    assert ts == [ts[0]] + ts[1..];
  }

  lemma {:induction false} BodyFormed(es: seq<Field>, room: nat)
    ensures RestFormed(es, room, true) <==> FormedBody(es, room)
  {
    hide FormedField;
  }

  lemma {:induction false} ListSpelled(ts: seq<Token>, acc: seq<Value>, room: nat) returns (items: seq<Item>, close: Token)
    requires ParseList(ts, acc, room).Some?
    ensures var p := ParseList(ts, acc, room).value;
            && (forall i :: 0 <= i < |items| ==> FormedItem(items[i], room))
            && close.kind == RBracket && ts == ItemsOf(items) + ([close] + p.rest) && p.node == acc + ValuesOf(items)
    decreases |ts|, 1
  {
    assert ts != [];
    ListStep(ts, acc, room);
    hide ParseList, ParseValue;
    if ts[0].kind == RBracket {
      items, close := [], ts[0];
      Nothing(ts);
      Nothing(acc);
      assert ts == [ts[0]] + ts[1..];
    } else {
      var q := ParseValue(ts, room).value;
      var v := ValueSpelled(ts, room);
      var commas, next := CommaOf(q.rest);
      var more;
      more, close := ListSpelled(next, acc + [q.node], room);
      var item, rest := Item(v, commas), ParseList(ts, acc, room).value.rest;
      assert FormedItem(item, room);
      items := [item] + more;
      FirstItem(item, more);
      hide ItemsOf, ValuesOf, TokensOf, ValueOf, FormedItem;
      Joined(commas, ItemsOf(more), [close] + rest);
      Joined(TokensOf(v), commas + ItemsOf(more), [close] + rest);
      Joined(acc, [q.node], ValuesOf(more));
    }
  }

  lemma {:induction false} CommaOf(ts: seq<Token>) returns (commas: seq<Token>, next: seq<Token>)
    ensures ts == commas + next && |commas| <= 1 && forall i :: 0 <= i < |commas| ==> commas[i].kind == Comma
    ensures next == if KindOf(ts) == Comma then ts[1..] else ts
  {
    commas, next := if KindOf(ts) == Comma then ts[..1] else [], if KindOf(ts) == Comma then ts[1..] else ts;
  }

  lemma {:induction false} BodySpelled(ts: seq<Token>, acc: seq<Entry>, room: nat) returns (es: seq<Field>, close: Token)
    requires ParseBody(ts, acc, room).Some?
    ensures var p := ParseBody(ts, acc, room).value;
            && RestFormed(es, room, acc == []) && close.kind == RBrace
            && ts == FieldsOf(es) + ([close] + p.rest) && p.node == acc + EntriesOf(es)
    decreases |ts|, 2
  {
    BodyStep(ts, acc, room);
    hide ParseBody, ParseEntry;
    if ts[0].kind == RBrace {
      es, close := [], ts[0];
      Nothing(ts);
      Nothing(acc);
      assert ts == [ts[0]] + ts[1..];
    } else {
      var e, next := StepSpelled(ts, acc, room);
      var more;
      more, close := BodySpelled(next, acc + [EntryOf(e)], room);
      var rest := ParseBody(ts, acc, room).value.rest;
      es := [e] + more;
      FirstField(e, more);
      Preceded(e, more, room, acc == []);
      hide FieldsOf, EntriesOf, FieldOf, EntryOf, FormedField, RestFormed;
      Joined(FieldOf(e), FieldsOf(more), [close] + rest);
      Joined(acc, [EntryOf(e)], EntriesOf(more));
    }
  }

  lemma {:induction false} Preceded(e: Field, more: seq<Field>, room: nat, first: bool)
    requires FormedField(e, room) && (e.Typed? ==> first) && RestFormed(more, room, false)
    ensures RestFormed([e] + more, room, first)
  {
    hide FormedField;
    assert forall i :: 0 < i < |[e] + more| ==> ([e] + more)[i] == more[i - 1];
  }

  /** One entry of a body, and what follows it. */
  lemma {:induction false} StepSpelled(ts: seq<Token>, acc: seq<Entry>, room: nat) returns (e: Field, next: seq<Token>)
    requires ts != [] && ts[0].kind != RBrace && ParseBody(ts, acc, room).Some?
    ensures FormedField(e, room) && (e.Typed? ==> acc == []) && ts == FieldOf(e) + next && |next| < |ts|
    ensures ParseBody(ts, acc, room) == ParseBody(next, acc + [EntryOf(e)], room)
    decreases |ts|, 1, 1
  {
    BodyStep(ts, acc, room);
    hide ParseBody, ParseEntry;
    if ts[0].kind == AtType {
      e, next := Typed(ts[0], ts[1], ts[2]), ts[3..];
      assert ts == [ts[0], ts[1], ts[2]] + ts[3..];
    } else {
      e := FieldSpelled(ts, true, room);
      next := ParseEntry(ts, true, room).value.rest;
      hide FieldOf, EntryOf, FormedField;
    }
  }

  lemma {:induction false} FieldSpelled(ts: seq<Token>, allowMap: bool, room: nat) returns (e: Field)
    requires ParseEntry(ts, allowMap, room).Some?
    ensures var p := ParseEntry(ts, allowMap, room).value;
            && FormedField(e, room) && !e.Typed? && (e.Assigned? && e.mark.kind == Colon ==> allowMap)
            && ts == FieldOf(e) + p.rest && EntryOf(e) == p.node
    decreases |ts|, 1, 0
  {
    EntryShape(ts, allowMap, room);
    hide ParseEntry, ParseValue, ParseBody;
    if ts[1].kind == LBrace {
      var entries, close := BodySpelled(ts[2..], [], room - 1);
      var rest := ParseBody(ts[2..], [], room - 1).value.rest;
      e := Nested(ts[0], ts[1], entries, close);
      BodyFormed(entries, room - 1);
      Nothing(EntriesOf(entries));
      hide FieldsOf, EntriesOf, FormedBody, RestFormed;
      assert ts == [ts[0], ts[1]] + ts[2..];
      Joined(FieldsOf(entries), [close], rest);
      Joined([ts[0], ts[1]], FieldsOf(entries), [close]);
      Joined([ts[0], ts[1]], FieldsOf(entries) + [close], rest);
    } else {
      var v := ValueSpelled(ts[2..], room);
      e := Assigned(ts[0], ts[1], v);
      hide Formed, TokensOf, ValueOf;
      assert ts == [ts[0], ts[1]] + ts[2..];
      Joined([ts[0], ts[1]], TokensOf(v), ParseValue(ts[2..], room).value.rest);
    }
  }

  lemma {:induction false} TopSpelled(ts: seq<Token>, acc: seq<Entry>, room: nat) returns (es: seq<Field>)
    requires ParseTop(ts, acc, room).Some?
    ensures forall i :: 0 <= i < |es| ==> TopField(es[i], room)
    ensures ts == FieldsOf(es) && ParseTop(ts, acc, room).value == acc + EntriesOf(es)
    decreases |ts|
  {
    hide ParseEntry;
    if ts == [] {
      es := [];
      Nothing(acc);
    } else {
      var p := ParseEntry(ts, false, room).value;
      var e := FieldSpelled(ts, false, room);
      FieldMark(e, room);
      assert TopField(e, room);
      var more := TopSpelled(p.rest, acc + [p.node], room);
      hide FormedField, FieldOf, EntryOf, FieldsOf, EntriesOf, TopField;
      es := [e] + more;
      FirstField(e, more);
      Joined(acc, [p.node], EntriesOf(more));
      assert forall i :: 0 < i < |es| ==> es[i] == more[i - 1];
    }
  }

  lemma {:induction false} FieldMark(e: Field, room: nat)
    requires FormedField(e, room) && !e.Typed? && !(e.Assigned? && e.mark.kind == Colon)
    ensures e.Assigned? ==> e.mark.kind == Equals
  {}

  lemma {:induction false} DocumentSpelled(ts: seq<Token>, url: string, maxDepth: nat) returns (d: Text)
    requires ParseDocument(ts, url, maxDepth).Some?
    ensures FormedText(d, maxDepth) && ts == TextTokens(d)
    ensures ParseDocument(ts, url, maxDepth).value
         == Document(if d.types == [] then url else d.types[|d.types| - 1].1.value, EntriesOf(d.entries))
    decreases |ts|
  {
    hide ParseTop, FieldsOf, EntriesOf, TopField;
    if KindOf(ts) == AtType {
      var more := DocumentSpelled(ts[2..], ts[1].value, maxDepth);
      d := Text([(ts[0], ts[1])] + more.types, more.entries);
      FirstType(ts[0], ts[1], more);
      assert ts == [ts[0], ts[1]] + ts[2..];
    } else {
      var es := TopSpelled(ts, [], maxDepth);
      d := Text([], es);
      Nothing(FieldsOf(es));
      Nothing(EntriesOf(es));
    }
  }

  lemma {:induction false} FirstType(a: Token, b: Token, more: Text)
    ensures var d := Text([(a, b)] + more.types, more.entries);
            && TextTokens(d) == [a, b] + TextTokens(more)
            && d.types[|d.types| - 1] == (if more.types == [] then (a, b) else more.types[|more.types| - 1])
            && (a.kind == AtType && b.kind == Ident ==> forall depth :: FormedText(more, depth) ==> FormedText(d, depth))
  {
    hide FieldsOf, TopField;
    var types := [(a, b)] + more.types;
    Front((a, b), more.types);
    Joined([a, b], TypesOf(more.types), FieldsOf(more.entries));
    assert forall i :: 0 < i < |types| ==> types[i] == more.types[i - 1];
  }

  /** Tokens are a document exactly when they spell it within the depth. */
  lemma {:induction false} DocumentExactly(ts: seq<Token>, d: Document, maxDepth: nat)
    ensures ParseDocument(ts, "", maxDepth) == Some(d)
        <==> exists s :: FormedText(s, maxDepth) && ts == TextTokens(s) && d == DocumentOf(s)
  {
    if ParseDocument(ts, "", maxDepth) == Some(d) {
      var s := DocumentSpelled(ts, "", maxDepth);
      hide ParseDocument, FormedText, TextTokens;
    }
    if s :| FormedText(s, maxDepth) && ts == TextTokens(s) && d == DocumentOf(s) {
      DocumentRead(s, "", maxDepth);
      hide ParseDocument, FormedText, TextTokens;
    }
  }
}