/** How one entry's decoding depends on the state it starts from. */
module KeyedSteps {
  import opened Options
  import opened PxfDocument
  import opened PxfDecoder
  import opened KeyedForm

  /** The same message, with no more bound. */
  ghost predicate Fewer(a: State, b: State) {
    a.msg == b.msg && a.bound <= b.bound && a.oneofs <= b.oneofs
  }

  /** An entry that decodes still does when less was bound before it. */
  lemma StepFewer(c: Config, message: string, e: Entry, st: State, less: State, ke: Keyed, room: nat)
    requires Fewer(less, st) && Step(c, message, e, st, ke, room).Some?
    ensures Step(c, message, e, less, ke, room).Some?
    ensures Fewer(Step(c, message, e, less, ke, room).value, Step(c, message, e, st, ke, room).value)
  {
    hide FieldValue, KeyedBlock, InBraces, ValueFits, BindingAllowed, ExplicitKeyAllowed, KeyField;
  }

  lemma {:induction false} FieldsFewer(c: Config, message: string, es: seq<Entry>, st: State, less: State, ke: Keyed, room: nat)
    requires Fewer(less, st) && Fields(c, message, es, st, ke, room).Some?
    ensures Fields(c, message, es, less, ke, room) == Fields(c, message, es, st, ke, room)
    decreases |es|
  {
    hide Step;
    if es != [] {
      StepFewer(c, message, es[0], st, less, ke, room);
      FieldsFewer(c, message, es[1..], Step(c, message, es[0], st, ke, room).value,
                  Step(c, message, es[0], less, ke, room).value, ke, room);
    }
  }

  /** What an entry binds is never unbound. */
  lemma StepGrows(c: Config, message: string, e: Entry, st: State, ke: Keyed, room: nat)
    requires Step(c, message, e, st, ke, room).Some?
    ensures st.bound <= Step(c, message, e, st, ke, room).value.bound
    ensures st.oneofs <= Step(c, message, e, st, ke, room).value.oneofs
  {
    hide FieldValue, KeyedBlock, InBraces, ValueFits, BindingAllowed, ExplicitKeyAllowed, KeyField;
  }

  // The element of a keyed field: its name against an explicit key.

  /** key is the key field of the element message. */
  ghost predicate IsKey(s: Schema, message: string, key: Field) {
    FieldNamed(s, message, key.name) == Some(key) && key.shape.Singular? && key.kind.StringKind?
  }

  ghost predicate HasKey(m: Msg, key: Field, name: string) {
    key.name in m.fields && m.fields[key.name] == VString(name) && key.name in m.present
  }

  /** The message with the key set as an entry name sets it. */
  function WithKey(m: Msg, key: Field, name: string): Msg {
    Put(Mark(m, key.name), key.name, VString(name))
  }

  /** A string field takes a string literal. */
  lemma StringValue(c: Config, key: Field, v: Value, m: Msg, room: nat)
    requires key.shape.Singular? && key.kind.StringKind?
    ensures FieldValue(c, key, v, m, room)
         == if v.Lit? && v.literal.Str? then Some(VString(v.literal.text)) else None
  {
    assert FieldValue(c, key, v, m, room) == OneValue(c, key.kind, v, NotKeyed, room);
  }

  /** The name stays what it is through the body of a named entry. */
  lemma StepKeepsKey(c: Config, message: string, e: Entry, st: State, key: Field, name: string, room: nat)
    requires WellFormed(c.schema) && IsKey(c.schema, message, key) && HasKey(st.msg, key, name)
    requires Step(c, message, e, st, Keyed(message, key, name, true), room).Some?
    ensures HasKey(Step(c, message, e, st, Keyed(message, key, name, true), room).value.msg, key, name)
  {
    hide KeyedBlock, InBraces, ValueFits, Unbound, WellFormed, FieldValue;
    EntryField(c.schema, message, e);
    if e.Assignment? {
      StringValue(c, key, e.value, st.msg, room);
    }
  }

  lemma EntryField(s: Schema, message: string, e: Entry)
    requires WellFormed(s)
    ensures e.Assignment? && FieldNamed(s, message, e.key).Some? ==> FieldNamed(s, message, e.key).value.name == e.key
    ensures e.Block? && FieldNamed(s, message, e.name).Some? ==> FieldNamed(s, message, e.name).value.name == e.name
    ensures e.Assignment? && FieldNamed(s, message, e.key).Some? && !FieldNamed(s, message, e.key).value.shape.Singular? ==>
              FieldNamed(s, message, e.key).value.oneof.None?
    ensures e.Block? && FieldNamed(s, message, e.name).Some? && !FieldNamed(s, message, e.name).value.shape.Singular? ==>
              FieldNamed(s, message, e.name).value.oneof.None?
  {
    if e.Assignment? && FieldNamed(s, message, e.key).Some? {
      FieldFacts(s, message, e.key);
    }
    if e.Block? && FieldNamed(s, message, e.name).Some? {
      FieldFacts(s, message, e.name);
    }
  }

  /** A key assignment that repeats the name changes nothing but what is bound. */
  lemma DroppedStep(c: Config, message: string, e: Entry, st: State, key: Field, name: string, room: nat)
    requires IsKey(c.schema, message, key) && HasKey(st.msg, key, name) && IsDropped(e, Key(key.name, name))
    requires Step(c, message, e, st, Keyed(message, key, name, true), room).Some?
    ensures Fewer(st, Step(c, message, e, st, Keyed(message, key, name, true), room).value)
  {
    hide KeyedBlock, InBraces, ValueFits, BindingAllowed, ExplicitKeyAllowed, Unbound, FieldValue;
    StringValue(c, key, e.value, st.msg, room);
    var m := st.msg;
    assert m.fields[key.name := VString(name)] == m.fields;
    assert m.present + {key.name} == m.present;
  }

  // An anonymous element against the named entry it becomes.

  /** The two readings of an element: the named one has bound no more, and holds
      the key from the start; done says the explicit key has been read. */
  ghost predicate Alike(anonymous: State, named: State, key: Field, name: string, done: bool) {
    && named.bound <= anonymous.bound && named.oneofs <= anonymous.oneofs
    && named.msg == (if done then anonymous.msg else WithKey(anonymous.msg, key, name))
    && (done && RealOneof(key).Some? ==> RealOneof(key).value in anonymous.oneofs)
  }

  /** A field's value depends only on what the message holds in that field. */
  lemma FieldValueSame(c: Config, fd: Field, v: Value, m: Msg, m': Msg, room: nat)
    requires ExistingList(m, fd.name) == ExistingList(m', fd.name) && ExistingMap(m, fd.name) == ExistingMap(m', fd.name)
    ensures FieldValue(c, fd, v, m, room) == FieldValue(c, fd, v, m', room)
  {
    hide Named, Elements, MapBody, OneValue, KeyField, ExistingList, ExistingMap;
  }

  lemma KeyedBlockSame(c: Config, fd: Field, key: Field, es: seq<Entry>, m: Msg, m': Msg, room: nat)
    requires KeyField(c.schema, fd) == Some(key) && ExistingList(m, fd.name) == ExistingList(m', fd.name)
    ensures KeyedBlock(c, fd, key, es, m, room) == KeyedBlock(c, fd, key, es, m', room)
  {
    hide Named, KeyField, ExistingList;
  }

  lemma WithKeyElsewhere(m: Msg, key: Field, name: string, n: string, v: Val)
    requires n != key.name
    ensures ExistingList(WithKey(m, key, name), n) == ExistingList(m, n)
    ensures ExistingMap(WithKey(m, key, name), n) == ExistingMap(m, n)
    ensures Put(Mark(WithKey(m, key, name), n), n, v) == WithKey(Put(Mark(m, n), n, v), key, name)
    ensures MarkNull(WithKey(m, key, name), n) == WithKey(MarkNull(m, n), key, name)
  {
    assert m.fields[key.name := VString(name)][n := v] == m.fields[n := v][key.name := VString(name)];
    assert m.present + {key.name} + {n} == m.present + {n} + {key.name};
  }

  /** The entry sets some field other than the key, or none. */
  predicate NotKeyAssignment(e: Entry, key: Field) {
    !(e.Assignment? && e.key == key.name)
  }

  lemma NamedStep(c: Config, message: string, e: Entry, anonymous: State, named: State, key: Field, name: string,
                  done: bool, room: nat)
    requires WellFormed(c.schema) && IsKey(c.schema, message, key) && NotKeyAssignment(e, key)
    requires Alike(anonymous, named, key, name, done)
    requires Step(c, message, e, anonymous, Keyed(message, key, "", false), room).Some?
    requires !done && RealOneof(key).Some? ==>
               RealOneof(key).value
               !in Step(c, message, e, anonymous, Keyed(message, key, "", false), room).value.oneofs
    ensures var r := Step(c, message, e, named, Keyed(message, key, name, true), room);
            r.Some? && Alike(Step(c, message, e, anonymous, Keyed(message, key, "", false), room).value, r.value, key, name, done)
  {
    EntryField(c.schema, message, e);
    match e
    case Assignment(k, quoted, v) =>
      if FieldNamed(c.schema, message, k).Some? {
        var fd := FieldNamed(c.schema, message, k).value;
        NamedAssign(c, message, fd, v, anonymous, named, key, name, done, room);
      }
      hide Assign, WellFormed, ValueFits;
    case Block(k, quoted, es) =>
      if FieldNamed(c.schema, message, k).Some? {
        var fd := FieldNamed(c.schema, message, k).value;
        NamedBlockField(c, message, fd, es, anonymous, named, key, name, done, room);
      }
      hide BlockField, WellFormed, ValueFits;
    case _ =>
  }

  lemma NamedAssign(c: Config, message: string, fd: Field, v: Value, anonymous: State, named: State, key: Field, name: string,
                    done: bool, room: nat)
    requires fd.name != key.name && Alike(anonymous, named, key, name, done)
    requires Assign(c, message, fd, v, anonymous, Keyed(message, key, "", false), room).Some?
    requires !done && RealOneof(key).Some? ==>
               RealOneof(key).value !in Assign(c, message, fd, v, anonymous, Keyed(message, key, "", false), room).value.oneofs
    ensures var r := Assign(c, message, fd, v, named, Keyed(message, key, name, true), room);
            r.Some? && Alike(Assign(c, message, fd, v, anonymous, Keyed(message, key, "", false), room).value, r.value, key, name, done)
  {
    hide FieldValue, KeyField, WithKey, Put, Mark, MarkNull, ExistingList, ExistingMap;
    var x := FieldValue(c, fd, v, anonymous.msg, room);
    WithKeyElsewhere(anonymous.msg, key, name, fd.name, if x.Some? then x.value else VScalar(0));
    FieldValueSame(c, fd, v, anonymous.msg, named.msg, room);
  }

  lemma NamedBlockField(c: Config, message: string, fd: Field, es: seq<Entry>, anonymous: State, named: State, key: Field,
                        name: string, done: bool, room: nat)
    requires fd.name == key.name ==> fd == key
    requires key.shape.Singular? && key.kind.StringKind? && Alike(anonymous, named, key, name, done)
    requires BlockField(c, message, fd, es, anonymous, Keyed(message, key, "", false), room).Some?
    requires !done && RealOneof(key).Some? ==>
               RealOneof(key).value
               !in BlockField(c, message, fd, es, anonymous, Keyed(message, key, "", false), room).value.oneofs
    ensures var r := BlockField(c, message, fd, es, named, Keyed(message, key, name, true), room);
            && r.Some?
            && Alike(BlockField(c, message, fd, es, anonymous, Keyed(message, key, "", false), room).value, r.value, key, name, done)
  {
    hide KeyedBlock, InBraces, WithKey, Put, Mark, MarkNull, ExistingList, ExistingMap;
    if fd.shape.Repeated? {
      hide KeyField;
      var k := KeyField(c.schema, fd).value;
      var x := KeyedBlock(c, fd, k, es, anonymous.msg, room).value;
      WithKeyElsewhere(anonymous.msg, key, name, fd.name, x);
      KeyedBlockSame(c, fd, k, es, anonymous.msg, named.msg, room);
    } else {
      var sub := InBraces(c, fd.kind.name, es, EMPTY, NotKeyed, room).value;
      WithKeyElsewhere(anonymous.msg, key, name, fd.name, VMsg(sub));
    }
  }
}
