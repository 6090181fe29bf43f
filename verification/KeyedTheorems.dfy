/** The canonical form is a fixed point, and where rewriting a keyed field of Any
    messages goes wrong. */
module KeyedTheorems {
  import opened Options
  import opened PxfDocument
  import opened PxfDecoder
  import opened KeyedForm
  import opened KeyedMeaning

  // Canonical twice is canonical once.

  lemma {:induction false} EntriesTwice(s: Schema, message: string, es: seq<Entry>, d: Dropped)
    requires WellFormed(s)
    ensures CanonEntries(s, message, CanonEntries(s, message, es, d), d) == CanonEntries(s, message, es, d)
    decreases es, 3
  {
    hide CanonEntry, IsDropped;
    if es != [] {
      EntriesTwice(s, message, es[1..], d);
      var rest := CanonEntries(s, message, es[1..], d);
      if IsDropped(es[0], d) {
        assert CanonEntries(s, message, es, d) == rest;
      } else {
        var first := CanonEntry(s, message, es[0]);
        EntryTwice(s, message, es[0]);
        KeptStaysKept(s, message, es[0], d);
        assert CanonEntries(s, message, es, d) == [first] + rest;
        assert ([first] + rest)[1..] == rest;
      }
    }
  }

  /** Rewriting an entry makes no assignment of a literal that was not there. */
  lemma KeptStaysKept(s: Schema, message: string, e: Entry, d: Dropped)
    ensures IsDropped(CanonEntry(s, message, e), d) ==> IsDropped(e, d)
  {
    if e.Assignment? && !e.quoted && FieldNamed(s, message, e.key).Some? {
      LiteralKept(s, FieldNamed(s, message, e.key).value, e.key, e.value);
    }
    hide CanonAssignment, CanonEntries, CanonKeyed, KeyField;
  }

  lemma LiteralKept(s: Schema, fd: Field, key: string, v: Value)
    ensures var e := CanonAssignment(s, fd, key, v);
            e.Assignment? && e.value.Lit? ==> e == Assignment(key, false, v)
  {
    hide CanonEntries, CanonMap, CanonElements, CanonKeyed, NamedBlocks, KeyField, Eligible;
  }

  lemma {:induction false} EntryTwice(s: Schema, message: string, e: Entry)
    requires WellFormed(s)
    ensures CanonEntry(s, message, CanonEntry(s, message, e)) == CanonEntry(s, message, e)
    decreases e, 2
  {
    hide CanonEntries, CanonKeyed, CanonAssignment, KeyField;
    match e
    case Assignment(key, quoted, v) =>
      if !quoted && FieldNamed(s, message, key).Some? {
        AssignmentTwice(s, message, FieldNamed(s, message, key).value, key, v);
      }
    case Block(name, quoted, es) =>
      if !quoted && FieldNamed(s, message, name).Some? {
        var fd := FieldNamed(s, message, name).value;
        KeyFieldKind(s, fd);
        if KeyField(s, fd).Some? {
          KeyedTwice(s, fd, KeyField(s, fd).value, es);
        } else if fd.kind.MessageKind? {
          EntriesTwice(s, fd.kind.name, es, Nothing);
        }
      }
    case _ =>
  }

  lemma KeyFieldKind(s: Schema, fd: Field)
    ensures KeyField(s, fd).Some? ==> fd.kind.MessageKind? && fd.shape.Repeated?
    ensures KeyField(s, fd).Some? ==>
              && FieldNamed(s, fd.kind.name, fd.key.value) == KeyField(s, fd)
              && !KeyField(s, fd).value.kind.MessageKind?
  {}

  lemma {:induction false} AssignmentTwice(s: Schema, message: string, fd: Field, key: string, v: Value)
    requires WellFormed(s) && FieldNamed(s, message, key) == Some(fd)
    ensures var e := CanonAssignment(s, fd, key, v);
            CanonEntry(s, message, e) == e
    decreases v, 6
  {
    KeyFieldKind(s, fd);
    if fd.kind.MessageKind? {
      match v
      case Braces(es) =>
        if fd.shape.MapOf? {
          MapTwice(s, fd.kind.name, es);
        } else if fd.shape.Singular? {
          EntriesTwice(s, fd.kind.name, es, Nothing);
        } else if KeyField(s, fd).Some? {
          KeyedTwice(s, fd, KeyField(s, fd).value, es);
        }
      case List(vs) =>
        if fd.shape.Repeated? {
          ElementsTwice(s, fd.kind.name, vs);
          if KeyField(s, fd).Some? {
            ListTwice(s, fd, KeyField(s, fd).value, vs);
          }
        }
      case _ =>
    }
    hide CanonEntries, CanonKeyed, CanonMap, CanonElements, NamedBlocks, KeyField, Eligible, FieldNamed;
  }

  lemma {:induction false} MapTwice(s: Schema, message: string, es: seq<Entry>)
    requires WellFormed(s)
    ensures CanonMap(s, message, CanonMap(s, message, es)) == CanonMap(s, message, es)
    decreases es, 5
  {
    hide CanonEntries;
    if es != [] {
      if es[0].MapEntry? && es[0].value.Braces? {
        EntriesTwice(s, message, es[0].value.entries, Nothing);
      }
      MapTwice(s, message, es[1..]);
      assert CanonMap(s, message, es)[1..] == CanonMap(s, message, es[1..]);
    }
  }

  lemma {:induction false} ElementsTwice(s: Schema, message: string, vs: seq<Value>)
    requires WellFormed(s)
    ensures CanonElements(s, message, CanonElements(s, message, vs)) == CanonElements(s, message, vs)
    decreases vs, 5
  {
    hide CanonEntries;
    if vs != [] {
      if vs[0].Braces? {
        EntriesTwice(s, message, vs[0].entries, Nothing);
      }
      ElementsTwice(s, message, vs[1..]);
      assert CanonElements(s, message, vs)[1..] == CanonElements(s, message, vs[1..]);
    }
  }

  lemma {:induction false} KeyedTwice(s: Schema, fd: Field, key: Field, es: seq<Entry>)
    requires WellFormed(s) && fd.kind.MessageKind?
    ensures CanonKeyed(s, fd, key, CanonKeyed(s, fd, key, es)) == CanonKeyed(s, fd, key, es)
    decreases es, 5
  {
    hide CanonEntries, IdentSafe;
    if es != [] {
      NamedTwice(s, fd, key, es[0]);
      KeyedTwice(s, fd, key, es[1..]);
      assert CanonKeyed(s, fd, key, es)[1..] == CanonKeyed(s, fd, key, es[1..]);
    }
  }

  lemma {:induction false} NamedTwice(s: Schema, fd: Field, key: Field, e: Entry)
    requires WellFormed(s) && fd.kind.MessageKind?
    ensures CanonNamed(s, fd, key, CanonNamed(s, fd, key, e)) == CanonNamed(s, fd, key, e)
    decreases e, 5
  {
    hide CanonEntries, IdentSafe;
    if EntryName(e).Some? {
      EntriesTwice(s, fd.kind.name, EntryBody(e), Key(key.name, EntryName(e).value));
    }
  }

  /** A list that became named blocks is in canonical form; one that did not
      stays a list. */
  lemma {:induction false} ListTwice(s: Schema, fd: Field, key: Field, vs: seq<Value>)
    requires WellFormed(s) && KeyField(s, fd) == Some(key) && fd.kind.MessageKind?
    ensures Eligible(CanonElements(s, fd.kind.name, vs), key.name, {}) == Eligible(vs, key.name, {})
    ensures Eligible(vs, key.name, {}) ==>
              CanonKeyed(s, fd, key, NamedBlocks(s, fd, key, vs, {})) == NamedBlocks(s, fd, key, vs, {})
    decreases vs, 5
  {
    EligibleKept(s, fd, key, vs, {});
    if Eligible(vs, key.name, {}) {
      BlocksTwice(s, fd, key, vs, {});
    }
  }

  lemma {:induction false} EligibleKept(s: Schema, fd: Field, key: Field, vs: seq<Value>, seen: set<string>)
    requires WellFormed(s) && KeyField(s, fd) == Some(key) && fd.kind.MessageKind?
    ensures Eligible(CanonElements(s, fd.kind.name, vs), key.name, seen) == Eligible(vs, key.name, seen)
    decreases |vs|
  {
    FieldFacts(s, fd.kind.name, fd.key.value);
    KeyFieldKind(s, fd);
    hide CanonEntries, ExplicitKey, KeyField, WellFormed;
    if vs != [] {
      var canon := CanonElements(s, fd.kind.name, vs);
      assert canon[1..] == CanonElements(s, fd.kind.name, vs[1..]);
      if vs[0].Braces? {
        var k := ExplicitKey(vs[0].entries, key.name, None);
        KeyFound(s, fd, key, vs[0].entries, None);
        if k.Some? {
          EligibleKept(s, fd, key, vs[1..], seen + {k.value});
        }
      }
    }
  }

  /** Rewriting an element's entries leaves its explicit key. */
  lemma {:induction false} KeyFound(s: Schema, fd: Field, key: Field, es: seq<Entry>, found: Option<string>)
    requires KeyField(s, fd) == Some(key) && fd.kind.MessageKind?
    requires key.name == fd.key.value
    ensures ExplicitKey(CanonEntries(s, fd.kind.name, es, Nothing), key.name, found) == ExplicitKey(es, key.name, found)
    decreases |es|
  {
    hide CanonEntry, KeyField;
    if es != [] {
      var canon := CanonEntries(s, fd.kind.name, es, Nothing);
      KeyEntryKept(s, fd, key, es[0]);
      assert canon == [CanonEntry(s, fd.kind.name, es[0])] + CanonEntries(s, fd.kind.name, es[1..], Nothing);
      assert canon[1..] == CanonEntries(s, fd.kind.name, es[1..], Nothing);
      KeyFound(s, fd, key, es[1..], found);
      if es[0].Assignment? && es[0].value.Lit? && es[0].value.literal.Str? {
        KeyFound(s, fd, key, es[1..], Some(es[0].value.literal.text));
      }
    }
  }

  lemma KeyEntryKept(s: Schema, fd: Field, key: Field, e: Entry)
    requires KeyField(s, fd) == Some(key) && fd.kind.MessageKind? && key.name == fd.key.value
    ensures var e' := CanonEntry(s, fd.kind.name, e);
            (e.Assignment? && e.key == key.name ==> e' == e)
            && (e'.Assignment? && e'.key == key.name ==> e' == e)
  {
    KeyFieldKind(s, fd);
    hide CanonEntries, CanonMap, CanonElements, CanonKeyed, NamedBlocks, KeyField, Eligible;
  }

  lemma {:induction false} BlocksTwice(s: Schema, fd: Field, key: Field, vs: seq<Value>, seen: set<string>)
    requires WellFormed(s) && fd.kind.MessageKind? && Eligible(vs, key.name, seen)
    ensures CanonKeyed(s, fd, key, NamedBlocks(s, fd, key, vs, seen)) == NamedBlocks(s, fd, key, vs, seen)
    decreases vs, 4
  {
    hide CanonEntries, IdentSafe, ExplicitKey;
    if vs != [] {
      var name := ExplicitKey(vs[0].entries, key.name, None).value;
      EntriesTwice(s, fd.kind.name, vs[0].entries, Key(key.name, name));
      BlocksTwice(s, fd, key, vs[1..], seen + {name});
      var blocks := NamedBlocks(s, fd, key, vs, seen);
      assert blocks[1..] == NamedBlocks(s, fd, key, vs[1..], seen + {name});
    }
  }

  /** Rewriting a canonical document changes nothing. */
  lemma CanonicalTwice(s: Schema, message: string, es: seq<Entry>)
    requires WellFormed(s)
    ensures Canonical(s, message, Canonical(s, message, es)) == Canonical(s, message, es)
  {
    hide CanonEntries;
    EntriesTwice(s, message, es, Nothing);
  }

  // A keyed field of Any messages.

  /** A list of one Any, whose payload sets the field the key is named after. */
  function TypedElement(fd: Field, key: Field, url: string, text: string): seq<Entry> {
    [Assignment(fd.name, false, List([Braces(ElementEntries(key, url, text))]))]
  }

  function ElementEntries(key: Field, url: string, text: string): seq<Entry> {
    [TypeEntry(url), Assignment(key.name, false, Lit(Str(text)))]
  }

  lemma FieldsOne(c: Config, message: string, e: Entry, st: State, ke: Keyed, room: nat)
    ensures Fields(c, message, [e], st, ke, room)
         == var r := Step(c, message, e, st, ke, room); if r.None? then None else Some(r.value.msg)
  {
    hide Step;
    assert [e][1..] == [];
    var r := Step(c, message, e, st, ke, room);
    if r.Some? {
      assert Fields(c, message, [], r.value, ke, room) == Some(r.value.msg);
    }
  }

  /** The message an Any names, packed. */
  function AnyOf(m: Msg, url: string, payload: Msg): Msg {
    Put(Put(m, "type_url", VString(url)), "value", VPacked(payload))
  }

  /** What the key assignment leaves in the payload. */
  function PayloadOf(c: Config, payload: string, keyName: string, text: string): Msg
    requires ReadsAsKey(c, payload, keyName, text)
  {
    match FieldNamed(c.schema, payload, keyName)
    case None => EMPTY
    case Some(fd) => Put(Mark(EMPTY, keyName), keyName, OneValue(c, fd.kind, Lit(Str(text)), NotKeyed, 0).value)
  }

  /** The payload with the key-named field, whatever the keyed checks allow an
      unnamed element. */
  lemma PayloadWithKey(c: Config, payload: string, owner: string, key: Field, text: string, room: nat)
    requires WellFormed(c.schema) && room > 0 && text != "" && ReadsAsKey(c, payload, key.name, text)
    ensures InBraces(c, payload, [Assignment(key.name, false, Lit(Str(text)))], EMPTY, Keyed(owner, key, "", false), room)
         == Some(PayloadOf(c, payload, key.name, text))
  {
    var e := Assignment(key.name, false, Lit(Str(text)));
    FieldsOne(c, payload, e, Start(EMPTY), Keyed(owner, key, "", false), room - 1);
    if FieldNamed(c.schema, payload, key.name).Some? {
      FieldFacts(c.schema, payload, key.name);
      LiteralField(c, FieldNamed(c.schema, payload, key.name).value, text, EMPTY, room - 1);
    }
    hide FieldValue, Fields, WellFormed, OneValue;
  }

  lemma AnyBody(c: Config, es: seq<Entry>, m: Msg, ke: Keyed, room: nat, payload: Msg)
    requires es != [] && es[0].TypeEntry? && c.schema.resolve(es[0].url).Some? && room > 0
    requires InBraces(c, c.schema.resolve(es[0].url).value, es[1..], EMPTY, ke, room) == Some(payload)
    ensures InBraces(c, ANY, es, m, ke, room) == Some(AnyOf(m, es[0].url, payload))
  {
    hide Fields;
  }

  lemma EmptyPayload(c: Config, payload: string, ke: Keyed, room: nat)
    requires room > 0
    ensures InBraces(c, payload, [], EMPTY, ke, room) == Some(EMPTY)
  {}

  lemma ListOfOne(c: Config, fd: Field, key: Field, es: seq<Entry>, room: nat, m: Msg)
    requires KeyField(c.schema, fd) == Some(key) && fd.kind.MessageKind? && fd.shape.Repeated? && c.maxCount >= 1
    requires InBraces(c, fd.kind.name, es, EMPTY, Keyed(fd.kind.name, key, "", false), room) == Some(m)
    ensures Elements(c, fd, [Braces(es)], [], room) == Some([VMsg(m)])
  {
    hide InBraces, KeyField;
    var vs := [Braces(es)];
    assert vs[1..] == [];
    assert ElementKeyed(c, fd) == Keyed(fd.kind.name, key, "", false);
    assert OneValue(c, fd.kind, vs[0], ElementKeyed(c, fd), room) == Some(VMsg(m));
    assert [] + [VMsg(m)] == [VMsg(m)];
    assert Elements(c, fd, vs[1..], [] + [VMsg(m)], room) == Some([VMsg(m)]);
  }

  lemma BlockOfOne(c: Config, fd: Field, key: Field, e: Entry, name: string, room: nat, m: Msg)
    requires KeyField(c.schema, fd) == Some(key) && fd.kind.MessageKind? && c.maxCount >= 1
    requires EntryName(e) == Some(name) && name != ""
    requires InBraces(c, fd.kind.name, EntryBody(e), NamedStart(key, name), Keyed(fd.kind.name, key, name, true), room) == Some(m)
    ensures Named(c, fd, key, [e], [], {}, room) == Some([VMsg(m)])
  {
    hide InBraces, KeyField, NamedStart;
    assert [e][1..] == [];
    assert [] + [VMsg(m)] == [VMsg(m)];
    assert Named(c, fd, key, [], [] + [VMsg(m)], {} + {name}, room) == Some([VMsg(m)]);
  }

  /** A list or keyed block is all the document says. */
  lemma DecodeList(c: Config, message: string, fd: Field, e: Entry, list: seq<Val>, maxDepth: nat)
    requires FieldNamed(c.schema, message, fd.name) == Some(fd) && fd.shape.Repeated? && fd.oneof.None? && maxDepth > 0
    requires KeyField(c.schema, fd).Some?
    requires match e
             case Assignment(k, false, List(vs)) => k == fd.name && Elements(c, fd, vs, [], maxDepth - 1) == Some(list)
             case Block(k, false, es) =>
               k == fd.name && Named(c, fd, KeyField(c.schema, fd).value, es, [], {}, maxDepth - 1) == Some(list)
             case _ => false
    ensures Decode(c, message, [e], maxDepth) == Some(Put(Mark(EMPTY, fd.name), fd.name, VList(list)))
  {
    hide Elements, Named, KeyField, FieldNamed, InBraces;
    FieldsOne(c, message, e, Start(EMPTY), NotKeyed, maxDepth);
    if e.Assignment? {
      assert FieldValue(c, fd, e.value, EMPTY, maxDepth) == Some(VList(list));
      hide FieldValue;
    } else {
      assert KeyedBlock(c, fd, KeyField(c.schema, fd).value, e.entries, EMPTY, maxDepth) == Some(VList(list));
      hide KeyedBlock;
    }
  }

  /** What the document is rewritten to. */
  lemma TypedRewritten(s: Schema, message: string, fd: Field, key: Field, url: string, text: string)
    requires FieldNamed(s, message, fd.name) == Some(fd) && KeyField(s, fd) == Some(key) && text != ""
    ensures Canonical(s, message, TypedElement(fd, key, url, text))
         == [Block(fd.name, false, [Block(text, !IdentSafe(text), [TypeEntry(url)])])]
  {
    var es := ElementEntries(key, url, text);
    var vs := [Braces(es)];
    KeyFieldKind(s, fd);
    assert es[1..][1..] == [] && vs[1..] == [] && TypedElement(fd, key, url, text)[1..] == [];
    assert ExplicitKey(es[1..], key.name, None) == Some(text) by {
      assert ExplicitKey(es[1..][1..], key.name, Some(text)) == Some(text);
    }
    assert ExplicitKey(es, key.name, None) == Some(text);
    assert CanonEntries(s, fd.kind.name, es[1..], Key(key.name, text)) == [] by {
      assert CanonEntries(s, fd.kind.name, es[1..][1..], Key(key.name, text)) == [];
    }
    assert CanonEntries(s, fd.kind.name, es, Key(key.name, text)) == [TypeEntry(url)];
    hide ExplicitKey, KeyField, IdentSafe, FieldNamed;
    assert Eligible(vs, key.name, {}) by {
      assert Eligible(vs[1..], key.name, {} + {text});
    }
    assert NamedBlocks(s, fd, key, vs, {}) == [Block(text, !IdentSafe(text), [TypeEntry(url)])] by {
      assert NamedBlocks(s, fd, key, vs[1..], {} + {text}) == [];
    }
    var e := TypedElement(fd, key, url, text)[0];
    assert CanonEntry(s, message, e) == Block(fd.name, false, NamedBlocks(s, fd, key, vs, {}));
    assert CanonEntries(s, message, TypedElement(fd, key, url, text)[1..], Nothing) == [];
  }

  /** The rewrite takes the payload's field for the element's key: it is the key in
      the document, and the payload is empty. */
  lemma KeyedAnyLosesPayload(c: Config, message: string, fd: Field, key: Field, url: string, text: string, maxDepth: nat)
    requires WellFormed(c.schema) && FieldNamed(c.schema, message, fd.name) == Some(fd)
    requires KeyField(c.schema, fd) == Some(key) && fd.kind == MessageKind(ANY) && text != ""
    requires c.schema.resolve(url).Some? && maxDepth >= 2 && c.maxCount > 0
    requires ReadsAsKey(c, c.schema.resolve(url).value, key.name, text)
    ensures var doc := TypedElement(fd, key, url, text);
            var full := PayloadOf(c, c.schema.resolve(url).value, key.name, text);
            && Decode(c, message, doc, maxDepth) == Some(ListOf(fd, AnyOf(EMPTY, url, full)))
            && Decode(c, message, Canonical(c.schema, message, doc), maxDepth)
            == Some(ListOf(fd, AnyOf(NamedStart(key, text), url, EMPTY)))
  {
    hide InBraces, Fields, Elements, Named, KeyField, CanonEntries, Decode, Canonical, IdentSafe, ReadsAsKey, PayloadOf;
    FieldFacts(c.schema, message, fd.name);
    KeyFieldKind(c.schema, fd);
    var es := ElementEntries(key, url, text);
    var payload := c.schema.resolve(url).value;
    var full := PayloadOf(c, payload, key.name, text);
    assert es[1..] == [Assignment(key.name, false, Lit(Str(text)))];
    PayloadWithKey(c, payload, ANY, key, text, maxDepth - 1);
    AnyBody(c, es, EMPTY, Keyed(ANY, key, "", false), maxDepth - 1, full);
    ListOfOne(c, fd, key, es, maxDepth - 1, AnyOf(EMPTY, url, full));
    DecodeList(c, message, fd, TypedElement(fd, key, url, text)[0], [VMsg(AnyOf(EMPTY, url, full))], maxDepth);
    var entry := Block(text, !IdentSafe(text), [TypeEntry(url)]);
    TypedRewritten(c.schema, message, fd, key, url, text);
    assert [TypeEntry(url)][1..] == [];
    EmptyPayload(c, payload, Keyed(ANY, key, text, true), maxDepth - 1);
    AnyBody(c, [TypeEntry(url)], NamedStart(key, text), Keyed(ANY, key, text, true), maxDepth - 1, EMPTY);
    BlockOfOne(c, fd, key, entry, text, maxDepth - 1, AnyOf(NamedStart(key, text), url, EMPTY));
    DecodeList(c, message, fd, Block(fd.name, false, [entry]), [VMsg(AnyOf(NamedStart(key, text), url, EMPTY))], maxDepth);
  }

  function ListOf(fd: Field, m: Msg): Msg {
    Put(Mark(EMPTY, fd.name), fd.name, VList([VMsg(m)]))
  }

  /** A payload field the key assignment set is lost with it, and the key is marked
      present although the document did not mention it. */
  lemma LostPayload(fd: Field, key: Field, url: string, text: string, full: Msg)
    ensures ListOf(fd, AnyOf(NamedStart(key, text), url, EMPTY)) != ListOf(fd, AnyOf(EMPTY, url, full))
  {
    var a, b := AnyOf(NamedStart(key, text), url, EMPTY), AnyOf(EMPTY, url, full);
    assert key.name in a.present && key.name !in b.present;
    assert ListOf(fd, a).fields[fd.name] == VList([VMsg(a)]) && ListOf(fd, b).fields[fd.name] == VList([VMsg(b)]);
    assert [VMsg(a)][0] != [VMsg(b)][0];
  }

  /** Every document that decodes means the same after the rewrite. */
  ghost predicate KeepsMeaning(c: Config) {
    forall message, es, maxDepth: nat :: Decode(c, message, es, maxDepth).Some? ==>
      Decode(c, message, Canonical(c.schema, message, es), maxDepth) == Decode(c, message, es, maxDepth)
  }

  /** The rewrite keeps meanings exactly under the configurations in which no
      payload of a keyed Any reads the key. */
  lemma MeaningKeptExactly(c: Config)
    requires WellFormed(c.schema)
    ensures KeepsMeaning(c) <==> KeysApart(c)
  {
    hide Decode, Canonical, KeyField, ReadsAsKey, ListOf, AnyOf, PayloadOf;
    if KeysApart(c) {
      forall message, es, maxDepth: nat | Decode(c, message, es, maxDepth).Some?
        ensures Decode(c, message, Canonical(c.schema, message, es), maxDepth) == Decode(c, message, es, maxDepth)
      {
        CanonicalMeaning(c, message, es, maxDepth);
      }
    } else {
      var m, n :| m in c.schema.messages && n in c.schema.messages[m] && !KeyApart(c, c.schema.messages[m][n]);
      var fd := c.schema.messages[m][n];
      var key := KeyField(c.schema, fd).value;
      KeyFieldKind(c.schema, fd);
      FieldFacts(c.schema, m, n);
      var url, text :| text != "" && c.schema.resolve(url).Some? && ReadsAsKey(c, c.schema.resolve(url).value, key.name, text);
      KeyedAnyLosesPayload(c, m, fd, key, url, text, 2);
      LostPayload(fd, key, url, text, PayloadOf(c, c.schema.resolve(url).value, key.name, text));
    }
  }
}
