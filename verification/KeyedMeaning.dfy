/** The canonical form means what the document means. */
module KeyedMeaning {
  import opened Options
  import opened PxfDocument
  import opened PxfDecoder
  import opened KeyedForm
  import opened KeyedSteps

  /** In a payload, a key assignment of the text reads as a field of the payload, or
      is discarded. */
  predicate ReadsAsKey(c: Config, payload: string, keyName: string, text: string) {
    match FieldNamed(c.schema, payload, keyName)
    case None => c.discardUnknown
    case Some(fd) => fd.shape.Singular? && OneValue(c, fd.kind, Lit(Str(text)), NotKeyed, 0).Some?
  }

  /** No payload an Any may name reads a key assignment. */
  ghost predicate NeverReads(c: Config, keyName: string) {
    forall url, text :: text != "" && c.schema.resolve(url).Some? ==>
      !ReadsAsKey(c, c.schema.resolve(url).value, keyName, text)
  }

  /** A keyed field holds no Any messages, or none whose payload reads the key. */
  ghost predicate KeyApart(c: Config, fd: Field) {
    KeyField(c.schema, fd).Some? && fd.kind.name == ANY && c.maxCount > 0 ==> NeverReads(c, KeyField(c.schema, fd).value.name)
  }

  ghost predicate KeysApart(c: Config) {
    forall m, n :: m in c.schema.messages && n in c.schema.messages[m] ==> KeyApart(c, c.schema.messages[m][n])
  }

  ghost predicate Fair(c: Config) {
    WellFormed(c.schema) && KeysApart(c)
  }

  /** A field of a message of the schema. */
  ghost predicate InSchema(s: Schema, fd: Field) {
    exists m :: FieldNamed(s, m, fd.name) == Some(fd)
  }

  lemma NamedInSchema(s: Schema, message: string, name: string)
    requires WellFormed(s) && FieldNamed(s, message, name).Some?
    ensures InSchema(s, FieldNamed(s, message, name).value)
  {
    FieldFacts(s, message, name);
  }

  lemma KeyIsKey(c: Config, fd: Field)
    requires Fair(c) && InSchema(c.schema, fd) && KeyField(c.schema, fd).Some?
    ensures fd.kind.MessageKind? && fd.shape.Repeated?
    ensures IsKey(c.schema, fd.kind.name, KeyField(c.schema, fd).value)
    ensures fd.kind.name == ANY && c.maxCount > 0 ==> NeverReads(c, KeyField(c.schema, fd).value.name)
  {
    var s := c.schema;
    var m :| FieldNamed(s, m, fd.name) == Some(fd);
    assert m in s.messages && fd.name in s.messages[m];
    assert KeyApart(c, s.messages[m][fd.name]);
    FieldFacts(s, fd.kind.name, fd.key.value);
  }

  // An Any's own fields hold nothing to rewrite.

  lemma {:induction false} AnyUntouched(s: Schema, es: seq<Entry>, d: Dropped)
    requires WellFormed(s) && NoneDropped(es, d)
    ensures CanonEntries(s, ANY, es, d) == es
    decreases |es|
  {
    if es != [] {
      AnyEntryUntouched(s, es[0]);
      AnyUntouched(s, es[1..], d);
      hide CanonEntry;
    }
  }

  lemma AnyEntryUntouched(s: Schema, e: Entry)
    requires WellFormed(s)
    ensures CanonEntry(s, ANY, e) == e
  {
    if e.Assignment? && FieldNamed(s, ANY, e.key).Some? {
      FieldFacts(s, ANY, e.key);
    }
    if e.Block? && FieldNamed(s, ANY, e.name).Some? {
      FieldFacts(s, ANY, e.name);
    }
    hide WellFormed;
  }

  // Bodies.

  lemma {:induction false} BracesMeaning(c: Config, message: string, es: seq<Entry>, m: Msg, ke: Keyed, room: nat)
    requires Fair(c) && InBraces(c, message, es, m, ke, room).Some?
    ensures InBraces(c, message, CanonEntries(c.schema, message, es, Nothing), m, ke, room)
         == InBraces(c, message, es, m, ke, room)
    decreases es, 4
  {
    if message == ANY {
      AnyUntouched(c.schema, es, Nothing);
    } else {
      FieldsMeaning(c, message, es, Start(m), ke, room - 1);
      hide Fields, CanonEntries, KeysApart, WellFormed;
    }
  }

  lemma {:induction false} FieldsMeaning(c: Config, message: string, es: seq<Entry>, st: State, ke: Keyed, room: nat)
    requires Fair(c) && Fields(c, message, es, st, ke, room).Some?
    ensures Fields(c, message, CanonEntries(c.schema, message, es, Nothing), st, ke, room)
         == Fields(c, message, es, st, ke, room)
    decreases es, 3
  {
    hide Step, CanonEntry, Fair;
    if es != [] {
      var st' := Step(c, message, es[0], st, ke, room).value;
      StepMeaning(c, message, es[0], st, ke, room);
      FieldsMeaning(c, message, es[1..], st', ke, room);
      var first, rest := CanonEntry(c.schema, message, es[0]), CanonEntries(c.schema, message, es[1..], Nothing);
      assert ([first] + rest)[1..] == rest;
    }
  }

  /** An entry that decodes does so to the same state after the rewrite. */
  lemma {:induction false} StepMeaning(c: Config, message: string, e: Entry, st: State, ke: Keyed, room: nat)
    requires Fair(c) && Step(c, message, e, st, ke, room).Some?
    ensures Step(c, message, CanonEntry(c.schema, message, e), st, ke, room) == Step(c, message, e, st, ke, room)
    decreases e, 2
  {
    match e
    case Assignment(key, quoted, v) =>
      if FieldNamed(c.schema, message, key).Some? {
        FieldFacts(c.schema, message, key);
        NamedInSchema(c.schema, message, key);
        AssignMeaning(c, message, FieldNamed(c.schema, message, key).value, v, st, ke, room);
      }
      hide Assign, CanonAssignment, Fair, ValueFits;
    case Block(name, quoted, es) =>
      if FieldNamed(c.schema, message, name).Some? {
        FieldFacts(c.schema, message, name);
        NamedInSchema(c.schema, message, name);
        BlockMeaning(c, message, FieldNamed(c.schema, message, name).value, es, st, ke, room);
      }
      hide BlockField, Fair, ValueFits, CanonEntries, CanonKeyed, KeyField;
    case _ =>
  }

  /** A literal or null is left as it is. */
  predicate SameShape(v: Value, v': Value) {
    v.Null? == v'.Null? && (v.Lit? || v'.Lit? ==> v == v')
  }

  /** What an assignment is rewritten to holds the same value. */
  ghost predicate SameValue(c: Config, fd: Field, v: Value, e: Entry, m: Msg, room: nat) {
    match e
    case Assignment(k, quoted, v') =>
      k == fd.name && !quoted && SameShape(v, v') && FieldValue(c, fd, v', m, room) == FieldValue(c, fd, v, m, room)
    case Block(k, quoted, es) =>
      && k == fd.name && !quoted && KeyField(c.schema, fd).Some?
      && KeyedBlock(c, fd, KeyField(c.schema, fd).value, es, m, room) == FieldValue(c, fd, v, m, room)
    case _ => false
  }

  lemma {:induction false} AssignMeaning(c: Config, message: string, fd: Field, v: Value, st: State, ke: Keyed, room: nat)
    requires Fair(c) && InSchema(c.schema, fd) && (!fd.shape.Singular? ==> fd.oneof.None?)
    requires FieldNamed(c.schema, message, fd.name) == Some(fd)
    requires Assign(c, message, fd, v, st, ke, room).Some?
    ensures Step(c, message, CanonAssignment(c.schema, fd, fd.name, v), st, ke, room)
         == Assign(c, message, fd, v, st, ke, room)
    decreases v, 8
  {
    hide FieldValue, KeyedBlock, InBraces, CanonAssignment, BindingAllowed, Fair, InSchema, KeyField, FieldNamed;
    if v.Null? {
      NullKept(c.schema, fd);
    } else {
      ValueMeaning(c, fd, v, st.msg, room);
      KeyedShape(c.schema, fd);
    }
  }

  lemma KeyedShape(s: Schema, fd: Field)
    ensures KeyField(s, fd).Some? ==> fd.shape.Repeated? && fd.kind.MessageKind?
  {}

  lemma NullKept(s: Schema, fd: Field)
    ensures CanonAssignment(s, fd, fd.name, Null) == Assignment(fd.name, false, Null)
  {}

  lemma {:induction false} ValueMeaning(c: Config, fd: Field, v: Value, m: Msg, room: nat)
    requires Fair(c) && InSchema(c.schema, fd) && FieldValue(c, fd, v, m, room).Some?
    ensures SameValue(c, fd, v, CanonAssignment(c.schema, fd, fd.name, v), m, room)
    decreases v, 7
  {
    if !fd.kind.MessageKind? || v.Lit? || v.Null? {
      Unchanged(c, fd, v, m, room);
    } else {
      match fd.shape
      case MapOf => MapValueMeaning(c, fd, v.entries, m, room);
      case Singular => BodyValueMeaning(c, fd, v.entries, m, room);
      case Repeated =>
        if v.Braces? {
          KeyedValueMeaning(c, fd, v.entries, m, room);
        } else {
          ListValueMeaning(c, fd, v.elements, m, room);
        }
    }
  }

  lemma Unchanged(c: Config, fd: Field, v: Value, m: Msg, room: nat)
    requires !fd.kind.MessageKind? || v.Lit? || v.Null?
    ensures SameValue(c, fd, v, CanonAssignment(c.schema, fd, fd.name, v), m, room)
  {
    hide FieldValue, KeyField;
  }

  lemma {:induction false} MapValueMeaning(c: Config, fd: Field, es: seq<Entry>, m: Msg, room: nat)
    requires Fair(c) && fd.kind.MessageKind? && fd.shape.MapOf?
    requires FieldValue(c, fd, Braces(es), m, room).Some?
    ensures SameValue(c, fd, Braces(es), CanonAssignment(c.schema, fd, fd.name, Braces(es)), m, room)
    decreases es, 6
  {
    MapMeaning(c, fd, es, ExistingMap(m, fd.name), room - 1);
    hide MapBody, CanonMap, Fair, KeyField;
  }

  lemma {:induction false} MapMeaning(c: Config, fd: Field, es: seq<Entry>, acc: map<nat, Val>, room: nat)
    requires Fair(c) && fd.kind.MessageKind? && MapBody(c, fd, es, acc, room).Some?
    ensures MapBody(c, fd, CanonMap(c.schema, fd.kind.name, es), acc, room) == MapBody(c, fd, es, acc, room)
    decreases es, 5
  {
    hide InBraces, CanonEntries, Fair;
    if es != [] {
      var k := c.schema.mapKey(fd.keyKind, es[0].key, es[0].quoted).value;
      var x := OneValue(c, fd.kind, es[0].value, NotKeyed, room).value;
      if es[0].value.Braces? {
        BracesMeaning(c, fd.kind.name, es[0].value.entries, EMPTY, NotKeyed, room);
      }
      MapMeaning(c, fd, es[1..], acc[k := x], room);
      var canon := CanonMap(c.schema, fd.kind.name, es);
      assert canon[1..] == CanonMap(c.schema, fd.kind.name, es[1..]);
    }
  }

  lemma {:induction false} BodyValueMeaning(c: Config, fd: Field, es: seq<Entry>, m: Msg, room: nat)
    requires Fair(c) && fd.kind.MessageKind? && fd.shape.Singular?
    requires FieldValue(c, fd, Braces(es), m, room).Some?
    ensures SameValue(c, fd, Braces(es), CanonAssignment(c.schema, fd, fd.name, Braces(es)), m, room)
    decreases es, 6
  {
    hide InBraces, CanonEntries, Fair, KeyField;
    SingleBody(c, fd, es, m, room);
    SingleBody(c, fd, CanonEntries(c.schema, fd.kind.name, es, Nothing), m, room);
    BracesMeaning(c, fd.kind.name, es, EMPTY, NotKeyed, room);
    hide FieldValue;
  }

  lemma SingleBody(c: Config, fd: Field, es: seq<Entry>, m: Msg, room: nat)
    requires fd.kind.MessageKind? && fd.shape.Singular?
    ensures FieldValue(c, fd, Braces(es), m, room)
         == var r := InBraces(c, fd.kind.name, es, EMPTY, NotKeyed, room);
            if r.None? then None else Some(VMsg(r.value))
  {
    hide InBraces;
    assert FieldValue(c, fd, Braces(es), m, room) == OneValue(c, fd.kind, Braces(es), NotKeyed, room);
  }

  // The payload of an Any.

  /** The entries hold no assignment of the name to the key. */
  ghost predicate NoneDropped(es: seq<Entry>, d: Dropped) {
    forall i :: 0 <= i < |es| ==> !IsDropped(es[i], d)
  }

  lemma {:induction false} KeyInEntries(es: seq<Entry>, keyName: string, found: Option<string>, name: string)
    requires ExplicitKey(es, keyName, found) == Some(name)
    ensures found == Some(name) || !NoneDropped(es, Key(keyName, name))
    decreases |es|
  {
    if es != [] {
      if es[0].Assignment? && es[0].key == keyName {
        KeyInEntries(es[1..], keyName, Some(es[0].value.literal.text), name);
      } else {
        KeyInEntries(es[1..], keyName, found, name);
      }
      if !NoneDropped(es[1..], Key(keyName, name)) {
        var i :| 0 <= i < |es[1..]| && IsDropped(es[1..][i], Key(keyName, name));
        assert IsDropped(es[i + 1], Key(keyName, name));
      }
    }
  }

  /** A payload that decodes has no key assignment, so nothing in it is rewritten. */
  lemma PayloadUntouched(c: Config, es: seq<Entry>, m: Msg, ke: Keyed, keyName: string, name: string, room: nat)
    requires Fair(c) && NeverReads(c, keyName) && name != ""
    requires es != [] && es[0].TypeEntry? && InBraces(c, ANY, es, m, ke, room).Some?
    ensures NoneDropped(es, Key(keyName, name))
    ensures CanonEntries(c.schema, ANY, es, Key(keyName, name)) == es
  {
    PayloadWithout(c, ANY, es, m, ke, keyName, name, room);
    AnyUntouched(c.schema, es, Key(keyName, name));
  }

  lemma {:induction false} PayloadWithout(c: Config, message: string, es: seq<Entry>, m: Msg, ke: Keyed, keyName: string,
                                          name: string, room: nat)
    requires NeverReads(c, keyName) && name != "" && InBraces(c, message, es, m, ke, room).Some?
    requires !ReadsAsKey(c, message, keyName, name) || (message == ANY && es != [] && es[0].TypeEntry?)
    ensures NoneDropped(es, Key(keyName, name))
    decreases |es|
  {
    if message == ANY && es != [] && es[0].TypeEntry? {
      var payload := c.schema.resolve(es[0].url).value;
      PayloadWithout(c, payload, es[1..], EMPTY, ke, keyName, name, room);
      assert forall i :: 0 < i < |es| ==> es[i] == es[1..][i - 1];
    } else {
      FieldsWithout(c, message, es, Start(m), ke, keyName, name, room - 1);
    }
  }

  lemma {:induction false} FieldsWithout(c: Config, message: string, es: seq<Entry>, st: State, ke: Keyed, keyName: string,
                                         name: string, room: nat)
    requires !ReadsAsKey(c, message, keyName, name) && Fields(c, message, es, st, ke, room).Some?
    ensures NoneDropped(es, Key(keyName, name))
    decreases |es|
  {
    hide Step, ReadsAsKey, IsDropped;
    if es != [] {
      KeyNotRead(c, message, es[0], st, ke, keyName, name, room);
      FieldsWithout(c, message, es[1..], Step(c, message, es[0], st, ke, room).value, ke, keyName, name, room);
      assert forall i :: 0 < i < |es| ==> es[i] == es[1..][i - 1];
    }
  }

  lemma KeyNotRead(c: Config, message: string, e: Entry, st: State, ke: Keyed, keyName: string, name: string, room: nat)
    requires !ReadsAsKey(c, message, keyName, name) && Step(c, message, e, st, ke, room).Some?
    ensures !IsDropped(e, Key(keyName, name))
  {
    hide KeyedBlock, InBraces, Elements, MapBody, KeyField, FieldNamed, BindingAllowed, ExplicitKeyAllowed, Unbound;
    if IsDropped(e, Key(keyName, name)) && FieldNamed(c.schema, message, keyName).Some? {
      var fd := FieldNamed(c.schema, message, keyName).value;
      assert Assign(c, message, fd, e.value, st, ke, room).Some?;
      LiteralField(c, fd, name, st.msg, room);
    }
  }

  lemma LiteralField(c: Config, fd: Field, text: string, m: Msg, room: nat)
    ensures FieldValue(c, fd, Lit(Str(text)), m, room)
         == if fd.shape.Singular? then OneValue(c, fd.kind, Lit(Str(text)), NotKeyed, 0) else None
  {
    if fd.shape.Singular? {
      assert OneValue(c, fd.kind, Lit(Str(text)), NotKeyed, room) == OneValue(c, fd.kind, Lit(Str(text)), NotKeyed, 0);
    }
  }

  // Keyed blocks.

  lemma {:induction false} KeyedValueMeaning(c: Config, fd: Field, es: seq<Entry>, m: Msg, room: nat)
    requires Fair(c) && InSchema(c.schema, fd) && fd.kind.MessageKind? && fd.shape.Repeated?
    requires FieldValue(c, fd, Braces(es), m, room).Some?
    ensures SameValue(c, fd, Braces(es), CanonAssignment(c.schema, fd, fd.name, Braces(es)), m, room)
    decreases es, 6
  {
    hide KeyedBlock, CanonKeyed, KeyField, Fair;
    KeyIsKeyIf(c, fd);
    KeyedBlockMeaning(c, fd, KeyField(c.schema, fd).value, es, m, room);
  }

  lemma KeyIsKeyIf(c: Config, fd: Field)
    requires Fair(c) && InSchema(c.schema, fd)
    ensures KeyField(c.schema, fd).Some? ==>
              fd.kind.MessageKind? && fd.shape.Repeated? && IsKey(c.schema, fd.kind.name, KeyField(c.schema, fd).value)
  {
    if KeyField(c.schema, fd).Some? {
      KeyIsKey(c, fd);
    }
    hide WellFormed, KeysApart, InSchema;
  }

  lemma {:induction false} KeyedBlockMeaning(c: Config, fd: Field, key: Field, es: seq<Entry>, m: Msg, room: nat)
    requires Fair(c) && InSchema(c.schema, fd) && KeyField(c.schema, fd) == Some(key) && fd.kind.MessageKind?
    requires KeyedBlock(c, fd, key, es, m, room).Some?
    ensures KeyedBlock(c, fd, key, CanonKeyed(c.schema, fd, key, es), m, room) == KeyedBlock(c, fd, key, es, m, room)
    decreases es, 5
  {
    NamedMeaning(c, fd, key, es, ExistingList(m, fd.name), {}, room - 1);
    hide Named, CanonKeyed, KeyField, Fair;
  }

  lemma {:induction false} NamedMeaning(c: Config, fd: Field, key: Field, es: seq<Entry>, acc: seq<Val>, seen: set<string>, room: nat)
    requires Fair(c) && InSchema(c.schema, fd) && KeyField(c.schema, fd) == Some(key) && fd.kind.MessageKind?
    requires Named(c, fd, key, es, acc, seen, room).Some?
    ensures Named(c, fd, key, CanonKeyed(c.schema, fd, key, es), acc, seen, room) == Named(c, fd, key, es, acc, seen, room)
    decreases es, 4
  {
    hide InBraces, CanonEntries, Fair, KeyField, InSchema, NamedStart;
    if es != [] {
      var name := EntryName(es[0]).value;
      var sub := InBraces(c, fd.kind.name, EntryBody(es[0]), NamedStart(key, name), Keyed(fd.kind.name, key, name, true), room);
      NamedBodyMeaning(c, fd, key, name, es[0], room);
      NamedMeaning(c, fd, key, es[1..], acc + [VMsg(sub.value)], seen + {name}, room);
      var canon := CanonKeyed(c.schema, fd, key, es);
      assert canon[1..] == CanonKeyed(c.schema, fd, key, es[1..]);
    }
  }

  lemma {:induction false} NamedBodyMeaning(c: Config, fd: Field, key: Field, name: string, e: Entry, room: nat)
    requires Fair(c) && InSchema(c.schema, fd) && KeyField(c.schema, fd) == Some(key) && fd.kind.MessageKind?
    requires EntryName(e) == Some(name) && name != "" && c.maxCount > 0
    requires InBraces(c, fd.kind.name, EntryBody(e), NamedStart(key, name), Keyed(fd.kind.name, key, name, true), room).Some?
    ensures InBraces(c, fd.kind.name, CanonEntries(c.schema, fd.kind.name, EntryBody(e), Key(key.name, name)),
                     NamedStart(key, name), Keyed(fd.kind.name, key, name, true), room)
         == InBraces(c, fd.kind.name, EntryBody(e), NamedStart(key, name), Keyed(fd.kind.name, key, name, true), room)
    decreases e, 3
  {
    KeyIsKey(c, fd);
    var st := Start(NamedStart(key, name));
    if EntryBody(e) != [] && EntryBody(e)[0].TypeEntry? && fd.kind.name == ANY {
      hide Fields, CanonEntries, Fair, KeyField, InSchema;
      PayloadUntouched(c, EntryBody(e), st.msg, Keyed(fd.kind.name, key, name, true), key.name, name, room);
      return;
    }
    hide Fields, CanonEntries, Fair, KeyField, InSchema;
    DroppedMeaning(c, fd.kind.name, EntryBody(e), st, st, key, name, room - 1);
  }

  /** A named entry's body without the assignments that repeat its name. */
  lemma {:induction false} DroppedMeaning(c: Config, message: string, es: seq<Entry>, st: State, less: State, key: Field,
                                          name: string, room: nat)
    requires Fair(c) && IsKey(c.schema, message, key) && HasKey(st.msg, key, name) && Fewer(less, st)
    requires Fields(c, message, es, st, Keyed(message, key, name, true), room).Some?
    ensures Fields(c, message, CanonEntries(c.schema, message, es, Key(key.name, name)), less,
                   Keyed(message, key, name, true), room)
         == Fields(c, message, es, st, Keyed(message, key, name, true), room)
    decreases es, 3
  {
    hide Step, CanonEntry, Fair, HasKey, IsKey, IsDropped;
    if es != [] {
      var ke := Keyed(message, key, name, true);
      var st' := Step(c, message, es[0], st, ke, room).value;
      StepKeepsKeyFair(c, message, es[0], st, key, name, room);
      var rest := CanonEntries(c.schema, message, es[1..], Key(key.name, name));
      if IsDropped(es[0], Key(key.name, name)) {
        DroppedStep(c, message, es[0], st, key, name, room);
        DroppedMeaning(c, message, es[1..], st', less, key, name, room);
        assert CanonEntries(c.schema, message, es, Key(key.name, name)) == rest;
      } else {
        StepMeaning(c, message, es[0], st, ke, room);
        var first := CanonEntry(c.schema, message, es[0]);
        StepFewer(c, message, first, st, less, ke, room);
        DroppedMeaning(c, message, es[1..], st', Step(c, message, first, less, ke, room).value, key, name, room);
        assert ([first] + rest)[1..] == rest;
      }
    }
  }

  lemma StepKeepsKeyFair(c: Config, message: string, e: Entry, st: State, key: Field, name: string, room: nat)
    requires Fair(c) && IsKey(c.schema, message, key) && HasKey(st.msg, key, name)
    requires Step(c, message, e, st, Keyed(message, key, name, true), room).Some?
    ensures HasKey(Step(c, message, e, st, Keyed(message, key, name, true), room).value.msg, key, name)
  {
    hide Step, HasKey, IsKey, WellFormed, KeysApart;
    StepKeepsKey(c, message, e, st, key, name, room);
  }

  // Blocks.

  lemma {:induction false} BlockMeaning(c: Config, message: string, fd: Field, es: seq<Entry>, st: State, ke: Keyed, room: nat)
    requires Fair(c) && InSchema(c.schema, fd) && FieldNamed(c.schema, message, fd.name) == Some(fd)
    requires BlockField(c, message, fd, es, st, ke, room).Some?
    ensures Step(c, message, CanonEntry(c.schema, message, Block(fd.name, false, es)), st, ke, room)
         == BlockField(c, message, fd, es, st, ke, room)
    decreases es, 8
  {
    KeyedShape(c.schema, fd);
    if fd.shape.Repeated? {
      KeyedBlockMeaning(c, fd, KeyField(c.schema, fd).value, es, st.msg, room);
      hide KeyedBlock, CanonKeyed, KeyField, Fair, InSchema, FieldNamed;
    } else {
      BracesMeaning(c, fd.kind.name, es, EMPTY, NotKeyed, room);
      hide InBraces, CanonEntries, CanonKeyed, Fair, InSchema, FieldNamed, BindingAllowed, Unbound;
    }
  }

  // Lists.

  lemma {:induction false} ListValueMeaning(c: Config, fd: Field, vs: seq<Value>, m: Msg, room: nat)
    requires Fair(c) && InSchema(c.schema, fd) && fd.kind.MessageKind? && fd.shape.Repeated?
    requires FieldValue(c, fd, List(vs), m, room).Some?
    ensures SameValue(c, fd, List(vs), CanonAssignment(c.schema, fd, fd.name, List(vs)), m, room)
    decreases vs, 6
  {
    hide Elements, Named, KeyField, Fair, CanonElements, NamedBlocks, Eligible;
    var key := KeyField(c.schema, fd);
    KeyIsKeyIf(c, fd);
    if key.Some? && Eligible(vs, key.value.name, {}) {
      EligibleMeaning(c, fd, key.value, vs, ExistingList(m, fd.name), {}, room - 1);
      ListAsBlock(c, fd, key.value, vs, m, room);
    } else {
      ElementsMeaning(c, fd, vs, ExistingList(m, fd.name), room - 1);
      ListAsList(c, fd, vs, m, room);
    }
  }

  lemma ListAsList(c: Config, fd: Field, vs: seq<Value>, m: Msg, room: nat)
    requires fd.kind.MessageKind? && fd.shape.Repeated? && room > 0
    requires KeyField(c.schema, fd).Some? ==> !Eligible(vs, KeyField(c.schema, fd).value.name, {})
    requires Elements(c, fd, CanonElements(c.schema, fd.kind.name, vs), ExistingList(m, fd.name), room - 1)
          == Elements(c, fd, vs, ExistingList(m, fd.name), room - 1)
    ensures SameValue(c, fd, List(vs), CanonAssignment(c.schema, fd, fd.name, List(vs)), m, room)
  {
    hide Elements, KeyField, CanonElements, Eligible, NamedBlocks, CanonKeyed;
  }

  lemma ListAsBlock(c: Config, fd: Field, key: Field, vs: seq<Value>, m: Msg, room: nat)
    requires fd.kind.MessageKind? && fd.shape.Repeated? && room > 0
    requires KeyField(c.schema, fd) == Some(key) && Eligible(vs, key.name, {})
    requires Named(c, fd, key, NamedBlocks(c.schema, fd, key, vs, {}), ExistingList(m, fd.name), {}, room - 1)
          == Elements(c, fd, vs, ExistingList(m, fd.name), room - 1)
    ensures SameValue(c, fd, List(vs), CanonAssignment(c.schema, fd, fd.name, List(vs)), m, room)
  {
    hide Elements, Named, KeyField, CanonElements, Eligible, NamedBlocks, CanonKeyed;
  }

  lemma {:induction false} ElementsMeaning(c: Config, fd: Field, vs: seq<Value>, acc: seq<Val>, room: nat)
    requires Fair(c) && fd.kind.MessageKind? && fd.shape.Repeated? && Elements(c, fd, vs, acc, room).Some?
    ensures Elements(c, fd, CanonElements(c.schema, fd.kind.name, vs), acc, room) == Elements(c, fd, vs, acc, room)
    decreases vs, 5
  {
    hide InBraces, CanonEntries, Fair, KeyField, ElementKeyed;
    if vs != [] {
      var x := OneValue(c, fd.kind, vs[0], ElementKeyed(c, fd), room).value;
      if vs[0].Braces? {
        BracesMeaning(c, fd.kind.name, vs[0].entries, EMPTY, ElementKeyed(c, fd), room);
      }
      ElementsMeaning(c, fd, vs[1..], acc + [x], room);
      var canon := CanonElements(c.schema, fd.kind.name, vs);
      assert canon[1..] == CanonElements(c.schema, fd.kind.name, vs[1..]);
    }
  }

  // An anonymous list becomes a keyed block.

  lemma {:induction false} EligibleMeaning(c: Config, fd: Field, key: Field, vs: seq<Value>, acc: seq<Val>, seen: set<string>, room: nat)
    requires Fair(c) && InSchema(c.schema, fd) && KeyField(c.schema, fd) == Some(key)
    requires fd.kind.MessageKind? && fd.shape.Repeated? && Eligible(vs, key.name, seen)
    requires Elements(c, fd, vs, acc, room).Some?
    ensures Named(c, fd, key, NamedBlocks(c.schema, fd, key, vs, seen), acc, seen, room) == Elements(c, fd, vs, acc, room)
    decreases vs, 5
  {
    hide InBraces, CanonEntries, Fair, KeyField, InSchema, NamedStart, ExplicitKey;
    if vs != [] {
      var name := ExplicitKey(vs[0].entries, key.name, None).value;
      ElementMeaning(c, fd, key, vs[0], name, room);
      ElementIs(c, fd, key, vs[0], room);
      var sub := InBraces(c, fd.kind.name, vs[0].entries, EMPTY, Keyed(fd.kind.name, key, "", false), room);
      EligibleMeaning(c, fd, key, vs[1..], acc + [VMsg(sub.value)], seen + {name}, room);
      var blocks := NamedBlocks(c.schema, fd, key, vs, seen);
      assert blocks[1..] == NamedBlocks(c.schema, fd, key, vs[1..], seen + {name});
    }
  }

  lemma ElementIs(c: Config, fd: Field, key: Field, v: Value, room: nat)
    requires KeyField(c.schema, fd) == Some(key) && fd.kind.MessageKind? && v.Braces?
    ensures OneValue(c, fd.kind, v, ElementKeyed(c, fd), room)
         == var r := InBraces(c, fd.kind.name, v.entries, EMPTY, Keyed(fd.kind.name, key, "", false), room);
            if r.None? then None else Some(VMsg(r.value))
  {
    hide InBraces, KeyField;
  }

  /** An element with an explicit key is the named entry of that key without it. */
  lemma {:induction false} ElementMeaning(c: Config, fd: Field, key: Field, v: Value, name: string, room: nat)
    requires Fair(c) && InSchema(c.schema, fd) && KeyField(c.schema, fd) == Some(key) && fd.kind.MessageKind?
    requires v.Braces? && ExplicitKey(v.entries, key.name, None) == Some(name) && name != "" && c.maxCount > 0
    requires InBraces(c, fd.kind.name, v.entries, EMPTY, Keyed(fd.kind.name, key, "", false), room).Some?
    ensures InBraces(c, fd.kind.name, CanonEntries(c.schema, fd.kind.name, v.entries, Key(key.name, name)),
                     NamedStart(key, name), Keyed(fd.kind.name, key, name, true), room)
         == InBraces(c, fd.kind.name, v.entries, EMPTY, Keyed(fd.kind.name, key, "", false), room)
    decreases v, 4
  {
    KeyIsKey(c, fd);
    if v.entries != [] && v.entries[0].TypeEntry? && fd.kind.name == ANY {
      hide Fields, CanonEntries, Fair, KeyField, InSchema, ExplicitKey;
      KeyInEntries(v.entries, key.name, None, name);
      PayloadUntouched(c, v.entries, EMPTY, Keyed(fd.kind.name, key, "", false), key.name, name, room);
      return;
    }
    hide Fields, CanonEntries, Fair, KeyField, InSchema, ExplicitKey;
    ReadAsNamed(c, fd.kind.name, v.entries, Start(EMPTY), Start(NamedStart(key, name)), key, name, false, room - 1);
  }

  /** Both readings of an element's entries, in step. */
  lemma {:induction false} ReadAsNamed(c: Config, message: string, es: seq<Entry>, anonymous: State, named: State, key: Field,
                                       name: string, done: bool, room: nat)
    requires Fair(c) && IsKey(c.schema, message, key) && Alike(anonymous, named, key, name, done)
    requires ExplicitKey(es, key.name, if done then Some(name) else None) == Some(name)
    requires Fields(c, message, es, anonymous, Keyed(message, key, "", false), room).Some?
    ensures Fields(c, message, CanonEntries(c.schema, message, es, Key(key.name, name)), named,
                   Keyed(message, key, name, true), room)
         == Fields(c, message, es, anonymous, Keyed(message, key, "", false), room)
    decreases es, 3
  {
    hide Step, CanonEntry, Fair, IsKey, Alike;
    if es == [] {
      AlikeDone(anonymous, named, key, name, done);
    } else {
      var st' := Step(c, message, es[0], anonymous, Keyed(message, key, "", false), room).value;
      var rest := CanonEntries(c.schema, message, es[1..], Key(key.name, name));
      if NotKeyAssignment(es[0], key) {
        NotSibling(c, message, es, anonymous, key, name, done, room);
        NamedStepFair(c, message, es[0], anonymous, named, key, name, done, room);
        var named' := Step(c, message, es[0], named, Keyed(message, key, name, true), room).value;
        StepMeaning(c, message, es[0], named, Keyed(message, key, name, true), room);
        ReadAsNamed(c, message, es[1..], st', named', key, name, done, room);
        var first := CanonEntry(c.schema, message, es[0]);
        assert CanonEntries(c.schema, message, es, Key(key.name, name)) == [first] + rest;
        assert ([first] + rest)[1..] == rest;
      } else {
        KeyRead(c, message, es, anonymous, named, key, name, done, room);
        ReadAsNamed(c, message, es[1..], st', named, key, name, true, room);
        assert CanonEntries(c.schema, message, es, Key(key.name, name)) == rest;
      }
    }
  }

  lemma AlikeDone(anonymous: State, named: State, key: Field, name: string, done: bool)
    requires Alike(anonymous, named, key, name, done) && (if done then Some(name) else None) == Some(name)
    ensures anonymous.msg == named.msg
  {}

  lemma NamedStepFair(c: Config, message: string, e: Entry, anonymous: State, named: State, key: Field, name: string,
                      done: bool, room: nat)
    requires Fair(c) && IsKey(c.schema, message, key) && NotKeyAssignment(e, key)
    requires Alike(anonymous, named, key, name, done)
    requires Step(c, message, e, anonymous, Keyed(message, key, "", false), room).Some?
    requires !done && RealOneof(key).Some? ==>
               RealOneof(key).value
               !in Step(c, message, e, anonymous, Keyed(message, key, "", false), room).value.oneofs
    ensures var r := Step(c, message, e, named, Keyed(message, key, name, true), room);
            r.Some? && Alike(Step(c, message, e, anonymous, Keyed(message, key, "", false), room).value, r.value, key, name, done)
  {
    hide Step, IsKey, Alike, WellFormed, KeysApart;
    NamedStep(c, message, e, anonymous, named, key, name, done, room);
  }

  /** The explicit key: what it sets is what the entry name set. */
  lemma KeyRead(c: Config, message: string, es: seq<Entry>, anonymous: State, named: State, key: Field, name: string,
                done: bool, room: nat)
    requires IsKey(c.schema, message, key) && Alike(anonymous, named, key, name, done)
    requires es != [] && !NotKeyAssignment(es[0], key)
    requires ExplicitKey(es, key.name, if done then Some(name) else None) == Some(name)
    requires Step(c, message, es[0], anonymous, Keyed(message, key, "", false), room).Some?
    ensures !done && IsDropped(es[0], Key(key.name, name)) && ExplicitKey(es[1..], key.name, Some(name)) == Some(name)
    ensures Alike(Step(c, message, es[0], anonymous, Keyed(message, key, "", false), room).value, named, key, name, true)
  {
    FoundKey(es[1..], key.name, if es[0].value.Lit? && es[0].value.literal.Str? then es[0].value.literal.text else "");
    StringValue(c, key, es[0].value, anonymous.msg, room);
    hide FieldValue, BindingAllowed, ExplicitKeyAllowed, KeyedBlock, InBraces, ValueFits;
  }

  lemma {:induction false} FoundKey(es: seq<Entry>, keyName: string, found: string)
    ensures ExplicitKey(es, keyName, Some(found)) in {None, Some(found)}
    decreases |es|
  {
    if es != [] {
      FoundKey(es[1..], keyName, found);
    }
  }

  /** Before the explicit key, no other member of its oneof is bound: the key
      would then be refused. */
  lemma NotSibling(c: Config, message: string, es: seq<Entry>, anonymous: State, key: Field, name: string, done: bool, room: nat)
    requires IsKey(c.schema, message, key) && es != [] && NotKeyAssignment(es[0], key)
    requires ExplicitKey(es, key.name, if done then Some(name) else None) == Some(name)
    requires Fields(c, message, es, anonymous, Keyed(message, key, "", false), room).Some?
    ensures !done && RealOneof(key).Some? ==>
              RealOneof(key).value
              !in Step(c, message, es[0], anonymous, Keyed(message, key, "", false), room).value.oneofs
  {
    hide Step, IsKey;
    var st' := Step(c, message, es[0], anonymous, Keyed(message, key, "", false), room).value;
    if !done && RealOneof(key).Some? && RealOneof(key).value in st'.oneofs {
      KeyRefused(c, message, es[1..], st', Keyed(message, key, "", false), key, name, room);
    }
  }

  lemma {:induction false} KeyRefused(c: Config, message: string, es: seq<Entry>, st: State, ke: Keyed, key: Field, name: string, room: nat)
    requires IsKey(c.schema, message, key) && RealOneof(key).Some? && RealOneof(key).value in st.oneofs
    requires ExplicitKey(es, key.name, None) == Some(name)
    ensures Fields(c, message, es, st, ke, room).None?
    decreases |es|
  {
    hide Step;
    if NotKeyAssignment(es[0], key) {
      var r := Step(c, message, es[0], st, ke, room);
      if r.Some? {
        StepGrows(c, message, es[0], st, ke, room);
        KeyRefused(c, message, es[1..], r.value, ke, key, name, room);
      }
    } else {
      KeyStepRefused(c, message, es[0], st, ke, key, room);
    }
  }

  lemma KeyStepRefused(c: Config, message: string, e: Entry, st: State, ke: Keyed, key: Field, room: nat)
    requires IsKey(c.schema, message, key) && RealOneof(key).Some? && RealOneof(key).value in st.oneofs
    requires !NotKeyAssignment(e, key)
    ensures Step(c, message, e, st, ke, room).None?
  {
    hide FieldValue, BindingAllowed, ExplicitKeyAllowed;
  }

  // The theorem.

  /** Every document that decodes decodes to the same message, with the same
      fields present and null, after the rewrite. */
  lemma CanonicalMeaning(c: Config, message: string, es: seq<Entry>, maxDepth: nat)
    requires WellFormed(c.schema) && KeysApart(c)
    requires Decode(c, message, es, maxDepth).Some?
    ensures Decode(c, message, Canonical(c.schema, message, es), maxDepth) == Decode(c, message, es, maxDepth)
  {
    hide Fields, CanonEntries, WellFormed, KeysApart;
    FieldsMeaning(c, message, es, Start(EMPTY), NotKeyed, maxDepth);
  }
}
