/** What the canonical keyed form is, said of a document and of a document beside
    the one it was written from, without the rewrite. */
module KeyedNormal {
  import opened Options
  import opened PxfDocument
  import opened PxfDecoder
  import opened KeyedForm
  import opened KeyedTheorems

  // Lists that could be keyed.

  /** The entry is the key's assignment of the name, as a named entry need not repeat it. */
  predicate Repeats(e: Entry, key: string, name: string) {
    e == Assignment(key, false, Lit(Str(name)))
  }

  predicate Assigns(e: Entry, key: string) {
    e.Assignment? && e.key == key
  }

  /** Exactly one entry assigns the key, and it is the plain assignment of the name. */
  ghost predicate KeyedOnce(es: seq<Entry>, key: string, name: string) {
    exists i :: 0 <= i < |es| && Repeats(es[i], key, name) && forall j :: 0 <= j < |es| && j != i ==> !Assigns(es[j], key)
  }

  /** The elements are bodies that these names, distinct and not empty, tell apart. */
  ghost predicate NamedBy(vs: seq<Value>, key: string, names: seq<string>) {
    && |names| == |vs|
    && (forall i :: 0 <= i < |vs| ==> vs[i].Braces? && names[i] != "" && KeyedOnce(vs[i].entries, key, names[i]))
    && forall i, j :: 0 <= i < j < |names| ==> names[i] != names[j]
  }

  ghost predicate CouldBeKeyed(vs: seq<Value>, key: string) {
    exists names :: NamedBy(vs, key, names)
  }

  // The keyed form.

  /** Nothing in the body is left to rewrite. */
  ghost predicate Settled(s: Schema, message: string, es: seq<Entry>)
    decreases es, 2
  {
    forall i :: 0 <= i < |es| ==> SettledEntry(s, message, es[i])
  }

  /** Entries of unknown fields and under quoted names are as they may be. */
  ghost predicate SettledEntry(s: Schema, message: string, e: Entry)
    decreases e, 1
  {
    match e
    case Assignment(name, quoted, v) =>
      !quoted && FieldNamed(s, message, name).Some? ==> SettledValue(s, FieldNamed(s, message, name).value, v)
    case Block(name, quoted, es) =>
      !quoted && FieldNamed(s, message, name).Some? ==>
        var fd := FieldNamed(s, message, name).value;
        if KeyField(s, fd).Some? then SettledKeyed(s, fd.kind.name, KeyField(s, fd).value.name, es)
        else fd.kind.MessageKind? && fd.shape.Singular? ==> Settled(s, fd.kind.name, es)
    case _ => true
  }

  /** A keyed field is not assigned braces, nor a list that could be keyed. */
  ghost predicate SettledValue(s: Schema, fd: Field, v: Value)
    decreases v, 3
  {
    fd.kind.MessageKind? ==>
      match v
      case Braces(es) =>
        (match fd.shape
         case Singular => Settled(s, fd.kind.name, es)
         case MapOf => SettledMap(s, fd.kind.name, es)
         case Repeated => KeyField(s, fd).None?)
      case List(vs) =>
        fd.shape.Repeated? ==>
          SettledElements(s, fd.kind.name, vs) && (KeyField(s, fd).Some? ==> !CouldBeKeyed(vs, KeyField(s, fd).value.name))
      case _ => true
  }

  ghost predicate SettledMap(s: Schema, message: string, es: seq<Entry>)
    decreases es, 2
  {
    forall i :: 0 <= i < |es| && es[i].MapEntry? && es[i].value.Braces? ==> Settled(s, message, es[i].value.entries)
  }

  ghost predicate SettledElements(s: Schema, message: string, vs: seq<Value>)
    decreases vs, 2
  {
    forall i :: 0 <= i < |vs| && vs[i].Braces? ==> Settled(s, message, vs[i].entries)
  }

  ghost predicate SettledKeyed(s: Schema, message: string, key: string, es: seq<Entry>)
    decreases es, 3
  {
    forall i :: 0 <= i < |es| ==> SettledNamed(s, message, key, es[i])
  }

  /** An entry of a keyed field is not spelled as an assignment, not quoted without
      need, and does not repeat its name. */
  ghost predicate SettledNamed(s: Schema, message: string, key: string, e: Entry)
    decreases e, 3
  {
    match e
    case Block(name, quoted, body) =>
      && (quoted ==> !IdentSafe(name))
      && (forall j :: 0 <= j < |body| ==> !Repeats(body[j], key, name))
      && Settled(s, message, body)
    case Assignment(_, _, v) => !v.Braces?
    case _ => true
  }

  // The same document respelled.

  /** What may be left out of a body: nothing, or what repeats the name of its entry. */
  datatype Spare = NoSpare | Spare(key: string, name: string)

  predicate MayGo(e: Entry, spare: Spare) {
    spare.Spare? && Repeats(e, spare.key, spare.name)
  }

  /** The same entries in the same order, each respelled, but for those that may go. */
  ghost predicate Respelled(s: Schema, message: string, was: seq<Entry>, now: seq<Entry>, spare: Spare)
    decreases was, 2
  {
    if was == [] then now == []
    else
      || (MayGo(was[0], spare) && Respelled(s, message, was[1..], now, spare))
      || (now != [] && RespelledEntry(s, message, was[0], now[0]) && Respelled(s, message, was[1..], now[1..], spare))
  }

  /** An entry of a known field may change; no other does. */
  ghost predicate RespelledEntry(s: Schema, message: string, e: Entry, e': Entry)
    decreases e, 1
  {
    || e == e'
    || match (e, e')
       case (Assignment(name, false, v), Assignment(name', false, v')) =>
         name == name' && FieldNamed(s, message, name).Some? && RespelledValue(s, FieldNamed(s, message, name).value, v, v')
       case (Assignment(name, false, Braces(es)), Block(name', false, es')) =>
         && name == name' && FieldNamed(s, message, name).Some?
         && var fd := FieldNamed(s, message, name).value;
            KeyField(s, fd).Some? && RespelledKeyed(s, fd.kind.name, KeyField(s, fd).value.name, es, es')
       case (Assignment(name, false, List(vs)), Block(name', false, es')) =>
         && name == name' && FieldNamed(s, message, name).Some?
         && var fd := FieldNamed(s, message, name).value;
            KeyField(s, fd).Some? && BecameKeyed(s, fd.kind.name, KeyField(s, fd).value.name, vs, es')
       case (Block(name, false, es), Block(name', false, es')) =>
         && name == name' && FieldNamed(s, message, name).Some?
         && var fd := FieldNamed(s, message, name).value;
            if KeyField(s, fd).Some? then RespelledKeyed(s, fd.kind.name, KeyField(s, fd).value.name, es, es')
            else fd.kind.MessageKind? && fd.shape.Singular? && Respelled(s, fd.kind.name, es, es', NoSpare)
       case _ => false
  }

  /** Bodies inside the value are respelled; it is otherwise the same. */
  ghost predicate RespelledValue(s: Schema, fd: Field, v: Value, v': Value)
    decreases v, 3
  {
    && fd.kind.MessageKind?
    && match (v, v')
       case (Braces(es), Braces(es')) =>
         (match fd.shape
          case Singular => Respelled(s, fd.kind.name, es, es', NoSpare)
          case MapOf => RespelledMap(s, fd.kind.name, es, es')
          case Repeated => false)
       case (List(vs), List(vs')) => fd.shape.Repeated? && RespelledElements(s, fd.kind.name, vs, vs')
       case _ => false
  }

  ghost predicate RespelledMap(s: Schema, message: string, es: seq<Entry>, es': seq<Entry>)
    decreases es, 2
  {
    && |es'| == |es|
    && forall i :: 0 <= i < |es| ==>
         if es[i].MapEntry? && es[i].value.Braces? then
           && es'[i].MapEntry? && es'[i].key == es[i].key && es'[i].quoted == es[i].quoted && es'[i].value.Braces?
           && Respelled(s, message, es[i].value.entries, es'[i].value.entries, NoSpare)
         else es'[i] == es[i]
  }

  ghost predicate RespelledElements(s: Schema, message: string, vs: seq<Value>, vs': seq<Value>)
    decreases vs, 2
  {
    && |vs'| == |vs|
    && forall i :: 0 <= i < |vs| ==>
         if vs[i].Braces? then vs'[i].Braces? && Respelled(s, message, vs[i].entries, vs'[i].entries, NoSpare)
         else vs'[i] == vs[i]
  }

  ghost predicate RespelledKeyed(s: Schema, message: string, key: string, es: seq<Entry>, es': seq<Entry>)
    decreases es, 3
  {
    |es'| == |es| && forall i :: 0 <= i < |es| ==> RespelledNamed(s, message, key, es[i], es'[i])
  }

  /** The same name, quoted as before or no longer, over the body respelled, as a
      block; what names no entry is the same. */
  ghost predicate RespelledNamed(s: Schema, message: string, key: string, e: Entry, e': Entry)
    decreases e, 3
  {
    match EntryName(e)
    case None => e' == e
    case Some(name) =>
      && e'.Block? && e'.name == name
      && (e'.quoted == EntryQuoted(e) || (EntryQuoted(e) && IdentSafe(name)))
      && Respelled(s, message, EntryBody(e), e'.entries, Spare(key, name))
  }

  /** Each element under the name that alone its key assignment gave it. */
  ghost predicate BecameKeyed(s: Schema, message: string, key: string, vs: seq<Value>, es': seq<Entry>)
    decreases vs, 3
  {
    && |es'| == |vs|
    && (forall i :: 0 <= i < |vs| ==>
          && vs[i].Braces? && es'[i].Block? && es'[i].name != "" && KeyedOnce(vs[i].entries, key, es'[i].name)
          && es'[i].quoted == !IdentSafe(es'[i].name)
          && Respelled(s, message, vs[i].entries, es'[i].entries, Spare(key, es'[i].name)))
    && forall i, j :: 0 <= i < j < |vs| ==> es'[i].name != es'[j].name
  }

  // Lists that could be keyed are those the rewrite takes.

  lemma {:induction false} KeyGiven(es: seq<Entry>, key: string, name: string)
    ensures ExplicitKey(es, key, Some(name)) in [None, Some(name)]
    ensures ExplicitKey(es, key, Some(name)).Some? <==> forall j :: 0 <= j < |es| ==> !Assigns(es[j], key)
    decreases |es|
  {
    if es != [] {
      KeyGiven(es[1..], key, name);
      if !Assigns(es[0], key) && forall j :: 0 <= j < |es[1..]| ==> !Assigns(es[1..][j], key) {
        forall j | 0 <= j < |es| ensures !Assigns(es[j], key) {
          assert j > 0 ==> es[j] == es[1..][j - 1];
        }
      }
    }
  }

  lemma {:induction false} KeyExactly(es: seq<Entry>, key: string, name: string)
    ensures ExplicitKey(es, key, None) == Some(name) <==> KeyedOnce(es, key, name)
    decreases |es|
  {
    if es != [] {
      if !Assigns(es[0], key) {
        KeyExactly(es[1..], key, name);
        OnceLater(es, key, name);
      } else if es[0].value.Lit? && es[0].value.literal.Str? && !es[0].quoted {
        var text := es[0].value.literal.text;
        KeyGiven(es[1..], key, text);
        OnceFirst(es, key, name);
      }
    }
  }

  lemma {:induction false} OnceLater(es: seq<Entry>, key: string, name: string)
    requires es != [] && !Assigns(es[0], key)
    ensures KeyedOnce(es, key, name) <==> KeyedOnce(es[1..], key, name)
  {
    var rest := es[1..];
    if KeyedOnce(es, key, name) {
      var i :| 0 <= i < |es| && Repeats(es[i], key, name) && forall j :: 0 <= j < |es| && j != i ==> !Assigns(es[j], key);
      assert Repeats(rest[i - 1], key, name);
      assert forall j :: 0 <= j < |rest| && j != i - 1 ==> rest[j] == es[j + 1];
    }
    if KeyedOnce(rest, key, name) {
      var i :| 0 <= i < |rest| && Repeats(rest[i], key, name) && forall j :: 0 <= j < |rest| && j != i ==> !Assigns(rest[j], key);
      assert Repeats(es[i + 1], key, name);
      assert forall j :: 0 < j < |es| ==> es[j] == rest[j - 1];
    }
  }

  lemma {:induction false} OnceFirst(es: seq<Entry>, key: string, name: string)
    requires es != [] && Assigns(es[0], key)
    ensures KeyedOnce(es, key, name)
        <==> Repeats(es[0], key, name) && forall j :: 0 <= j < |es[1..]| ==> !Assigns(es[1..][j], key)
  {
    var rest := es[1..];
    assert forall j :: 0 < j < |es| ==> es[j] == rest[j - 1];
    if Repeats(es[0], key, name) && forall j :: 0 <= j < |rest| ==> !Assigns(rest[j], key) {
      assert forall j :: 0 <= j < |es| && j != 0 ==> !Assigns(es[j], key);
    }
    if KeyedOnce(es, key, name) {
      var i :| 0 <= i < |es| && Repeats(es[i], key, name) && forall j :: 0 <= j < |es| && j != i ==> !Assigns(es[j], key);
      assert i == 0;
      assert forall j :: 0 <= j < |rest| ==> rest[j] == es[j + 1];
    }
  }

  lemma {:induction false} EligibleNamed(vs: seq<Value>, key: string, seen: set<string>) returns (names: seq<string>)
    requires Eligible(vs, key, seen)
    ensures NamedBy(vs, key, names) && forall i :: 0 <= i < |names| ==> names[i] !in seen
    decreases |vs|
  {
    if vs == [] {
      names := [];
    } else {
      var name := ExplicitKey(vs[0].entries, key, None).value;
      KeyExactly(vs[0].entries, key, name);
      var rest := EligibleNamed(vs[1..], key, seen + {name});
      names := [name] + rest;
      assert forall i :: 0 < i < |vs| ==> vs[i] == vs[1..][i - 1] && names[i] == rest[i - 1];
    }
  }

  lemma {:induction false} NamedEligible(vs: seq<Value>, key: string, names: seq<string>, seen: set<string>)
    requires NamedBy(vs, key, names) && forall i :: 0 <= i < |names| ==> names[i] !in seen
    ensures Eligible(vs, key, seen)
    decreases |vs|
  {
    if vs != [] {
      KeyExactly(vs[0].entries, key, names[0]);
      assert forall i :: 0 <= i < |vs[1..]| ==> vs[1..][i] == vs[i + 1] && names[1..][i] == names[i + 1];
      NamedEligible(vs[1..], key, names[1..], seen + {names[0]});
    }
  }

  /** The lists made into named entries are those that distinct names tell apart. */
  lemma {:induction false} EligibleExactly(vs: seq<Value>, key: string)
    ensures Eligible(vs, key, {}) <==> CouldBeKeyed(vs, key)
  {
    if Eligible(vs, key, {}) {
      var names := EligibleNamed(vs, key, {});
    }
    if CouldBeKeyed(vs, key) {
      var names :| NamedBy(vs, key, names);
      NamedEligible(vs, key, names, {});
    }
  }

  // The rewrite reaches the keyed form and only respells.

  function SpareOf(d: Dropped): Spare {
    match d
    case Nothing => NoSpare
    case Key(key, name) => Spare(key, name)
  }

  ghost predicate NoneMayGo(es: seq<Entry>, spare: Spare) {
    forall i :: 0 <= i < |es| ==> !MayGo(es[i], spare)
  }

  lemma {:induction false} CanonDone(s: Schema, message: string, es: seq<Entry>, d: Dropped)
    requires WellFormed(s)
    ensures var now := CanonEntries(s, message, es, d);
            Settled(s, message, now) && NoneMayGo(now, SpareOf(d)) && Respelled(s, message, es, now, SpareOf(d))
    decreases es, 3
  {
    if es != [] {
      CanonDone(s, message, es[1..], d);
      EntryDone(s, message, es[0]);
      KeptStaysKept(s, message, es[0], d);
      hide SettledEntry, RespelledEntry, CanonEntry;
      var first, rest := CanonEntry(s, message, es[0]), CanonEntries(s, message, es[1..], d);
      var now := CanonEntries(s, message, es, d);
      if IsDropped(es[0], d) {
        assert now == rest;
      } else {
        assert now == [first] + rest && now[1..] == rest;
        assert forall i :: 0 < i < |now| ==> now[i] == rest[i - 1];
      }
    }
  }

  lemma {:induction false} EntryDone(s: Schema, message: string, e: Entry)
    requires WellFormed(s)
    ensures SettledEntry(s, message, CanonEntry(s, message, e)) && RespelledEntry(s, message, e, CanonEntry(s, message, e))
    decreases e, 2
  {
    hide CanonEntries, CanonKeyed, CanonAssignment, KeyField, Settled, SettledValue, SettledKeyed, Respelled, RespelledValue,
      RespelledKeyed, BecameKeyed;
    match e
    case Assignment(name, quoted, v) =>
      if !quoted && FieldNamed(s, message, name).Some? {
        AssignmentDone(s, message, FieldNamed(s, message, name).value, name, v);
        hide SettledEntry, RespelledEntry;
      }
    case Block(name, quoted, es) =>
      if !quoted && FieldNamed(s, message, name).Some? {
        var fd := FieldNamed(s, message, name).value;
        KeyFieldKind(s, fd);
        if KeyField(s, fd).Some? {
          NamedDone(s, fd, KeyField(s, fd).value, es);
        } else if fd.kind.MessageKind? && fd.shape.Singular? {
          CanonDone(s, fd.kind.name, es, Nothing);
        }
      }
    case _ =>
  }

  lemma {:induction false} AssignmentDone(s: Schema, message: string, fd: Field, name: string, v: Value)
    requires WellFormed(s) && FieldNamed(s, message, name) == Some(fd)
    ensures var e := CanonAssignment(s, fd, name, v);
            SettledEntry(s, message, e) && RespelledEntry(s, message, Assignment(name, false, v), e)
    decreases v, 6
  {
    KeyFieldKind(s, fd);
    if fd.kind.MessageKind? {
      match v
      case Braces(es) =>
        if fd.shape.MapOf? {
          MapDone(s, fd.kind.name, es);
        } else if fd.shape.Singular? {
          CanonDone(s, fd.kind.name, es, Nothing);
        } else if KeyField(s, fd).Some? {
          NamedDone(s, fd, KeyField(s, fd).value, es);
        }
      case List(vs) =>
        if fd.shape.Repeated? {
          ElementsDone(s, fd.kind.name, vs);
          if KeyField(s, fd).Some? {
            ListDone(s, fd, KeyField(s, fd).value, vs);
          }
        }
      case _ =>
    }
    hide CanonEntries, CanonMap, CanonElements, CanonKeyed, NamedBlocks, KeyField, Eligible, FieldNamed, CouldBeKeyed;
    hide Settled, SettledMap, SettledElements, SettledKeyed, Respelled, RespelledMap, RespelledElements, RespelledKeyed, BecameKeyed;
  }

  lemma {:induction false} MapDone(s: Schema, message: string, es: seq<Entry>)
    requires WellFormed(s)
    ensures var now := CanonMap(s, message, es);
            SettledMap(s, message, now) && RespelledMap(s, message, es, now)
    decreases es, 5
  {
    hide CanonEntries, Settled, Respelled;
    if es != [] {
      if es[0].MapEntry? && es[0].value.Braces? {
        CanonDone(s, message, es[0].value.entries, Nothing);
      }
      MapDone(s, message, es[1..]);
      var now := CanonMap(s, message, es);
      assert now[1..] == CanonMap(s, message, es[1..]);
      assert forall i :: 0 < i < |es| ==> es[i] == es[1..][i - 1] && now[i] == now[1..][i - 1];
    }
  }

  lemma {:induction false} ElementsDone(s: Schema, message: string, vs: seq<Value>)
    requires WellFormed(s)
    ensures var now := CanonElements(s, message, vs);
            SettledElements(s, message, now) && RespelledElements(s, message, vs, now)
    decreases vs, 5
  {
    hide CanonEntries, Settled, Respelled;
    if vs != [] {
      if vs[0].Braces? {
        CanonDone(s, message, vs[0].entries, Nothing);
      }
      ElementsDone(s, message, vs[1..]);
      var now := CanonElements(s, message, vs);
      assert now[1..] == CanonElements(s, message, vs[1..]);
      assert forall i :: 0 < i < |vs| ==> vs[i] == vs[1..][i - 1] && now[i] == now[1..][i - 1];
    }
  }

  lemma {:induction false} NamedDone(s: Schema, fd: Field, key: Field, es: seq<Entry>)
    requires WellFormed(s) && fd.kind.MessageKind?
    ensures var now := CanonKeyed(s, fd, key, es);
            SettledKeyed(s, fd.kind.name, key.name, now) && RespelledKeyed(s, fd.kind.name, key.name, es, now)
    decreases es, 5
  {
    if es != [] {
      OneNamedDone(s, fd, key, es[0]);
      NamedDone(s, fd, key, es[1..]);
      hide CanonNamed, SettledNamed, RespelledNamed;
      var now := CanonKeyed(s, fd, key, es);
      assert now[1..] == CanonKeyed(s, fd, key, es[1..]);
      assert forall i :: 0 < i < |es| ==> es[i] == es[1..][i - 1] && now[i] == now[1..][i - 1];
    }
  }

  lemma {:induction false} OneNamedDone(s: Schema, fd: Field, key: Field, e: Entry)
    requires WellFormed(s) && fd.kind.MessageKind?
    ensures var now := CanonNamed(s, fd, key, e);
            SettledNamed(s, fd.kind.name, key.name, now) && RespelledNamed(s, fd.kind.name, key.name, e, now)
    decreases e, 5
  {
    hide CanonEntries, Settled, Respelled, IdentSafe;
    if EntryName(e).Some? {
      CanonDone(s, fd.kind.name, EntryBody(e), Key(key.name, EntryName(e).value));
    }
  }

  /** A list becomes entries, or is none that could. */
  lemma {:induction false} ListDone(s: Schema, fd: Field, key: Field, vs: seq<Value>)
    requires WellFormed(s) && KeyField(s, fd) == Some(key) && fd.kind.MessageKind?
    ensures !Eligible(vs, key.name, {}) ==> !CouldBeKeyed(CanonElements(s, fd.kind.name, vs), key.name)
    ensures Eligible(vs, key.name, {}) ==>
              var now := NamedBlocks(s, fd, key, vs, {});
              SettledKeyed(s, fd.kind.name, key.name, now) && BecameKeyed(s, fd.kind.name, key.name, vs, now)
    decreases vs, 5
  {
    EligibleKept(s, fd, key, vs, {});
    EligibleExactly(CanonElements(s, fd.kind.name, vs), key.name);
    if Eligible(vs, key.name, {}) {
      BlocksDone(s, fd, key, vs, {});
    }
  }

  lemma {:induction false} BlocksDone(s: Schema, fd: Field, key: Field, vs: seq<Value>, seen: set<string>)
    requires WellFormed(s) && fd.kind.MessageKind? && Eligible(vs, key.name, seen)
    ensures var now := NamedBlocks(s, fd, key, vs, seen);
            && SettledKeyed(s, fd.kind.name, key.name, now) && BecameKeyed(s, fd.kind.name, key.name, vs, now)
            && forall i :: 0 <= i < |now| ==> now[i].Block? && now[i].name !in seen
    decreases vs, 4
  {
    hide CanonEntries, Settled, Respelled, IdentSafe, ExplicitKey, KeyedOnce;
    if vs != [] {
      var name := ExplicitKey(vs[0].entries, key.name, None).value;
      KeyExactly(vs[0].entries, key.name, name);
      CanonDone(s, fd.kind.name, vs[0].entries, Key(key.name, name));
      BlocksDone(s, fd, key, vs[1..], seen + {name});
      var now := NamedBlocks(s, fd, key, vs, seen);
      assert now[1..] == NamedBlocks(s, fd, key, vs[1..], seen + {name});
      assert forall i :: 0 < i < |vs| ==> vs[i] == vs[1..][i - 1] && now[i] == now[1..][i - 1];
    }
  }

  // Nothing else does.

  lemma {:induction false} RespelledSelf(s: Schema, message: string, es: seq<Entry>, spare: Spare)
    ensures Respelled(s, message, es, es, spare)
    decreases |es|
  {
    if es != [] {
      RespelledSelf(s, message, es[1..], spare);
    }
  }

  lemma {:induction false} OnlyEntries(s: Schema, message: string, es: seq<Entry>, now: seq<Entry>, d: Dropped)
    requires WellFormed(s) && Respelled(s, message, es, now, SpareOf(d)) && Settled(s, message, now) && NoneMayGo(now, SpareOf(d))
    ensures now == CanonEntries(s, message, es, d)
    decreases es, 3
  {
    hide SettledEntry, CanonEntry;
    if es != [] {
      if MayGo(es[0], SpareOf(d)) && Respelled(s, message, es[1..], now, SpareOf(d)) {
        OnlyEntries(s, message, es[1..], now, d);
      } else {
        LiteralStays(s, message, es[0], now[0]);
        OnlyEntry(s, message, es[0], now[0]);
        hide RespelledEntry;
        assert forall i :: 0 <= i < |now[1..]| ==> now[1..][i] == now[i + 1];
        OnlyEntries(s, message, es[1..], now[1..], d);
        assert now == [now[0]] + now[1..];
      }
    }
  }

  lemma {:induction false} LiteralStays(s: Schema, message: string, e: Entry, e': Entry)
    requires RespelledEntry(s, message, e, e')
    ensures e.Assignment? && e.value.Lit? ==> e == e'
  {}

  lemma {:induction false} OnlyEntry(s: Schema, message: string, e: Entry, e': Entry)
    requires WellFormed(s) && RespelledEntry(s, message, e, e') && SettledEntry(s, message, e')
    ensures e' == CanonEntry(s, message, e)
    decreases e, 2
  {
    match e
    case Assignment(name, quoted, v) =>
      if !quoted && FieldNamed(s, message, name).Some? {
        var fd := FieldNamed(s, message, name).value;
        if e'.Assignment? {
          OnlyAssignment(s, fd, name, v, e'.value);
        } else {
          OnlyKeyedAssignment(s, message, fd, name, v, e');
        }
      }
      hide CanonAssignment, RespelledValue, SettledValue, RespelledKeyed, BecameKeyed, SettledKeyed;
    case Block(name, quoted, es) =>
      if !quoted && FieldNamed(s, message, name).Some? {
        var fd := FieldNamed(s, message, name).value;
        KeyFieldKind(s, fd);
        if KeyField(s, fd).Some? {
          if e == e' {
            KeyedSelf(s, fd.kind.name, KeyField(s, fd).value.name, es);
          }
          OnlyKeyed(s, fd, KeyField(s, fd).value, es, e'.entries);
        } else if fd.kind.MessageKind? && fd.shape.Singular? {
          RespelledSelf(s, fd.kind.name, es, NoSpare);
          OnlyEntries(s, fd.kind.name, es, e'.entries, Nothing);
        }
      }
      hide CanonEntries, CanonKeyed, KeyField, Settled, SettledKeyed, Respelled, RespelledKeyed;
    case _ =>
  }

  lemma {:induction false} OnlyAssignment(s: Schema, fd: Field, name: string, v: Value, v': Value)
    requires WellFormed(s) && (v == v' || RespelledValue(s, fd, v, v')) && SettledValue(s, fd, v')
    ensures CanonAssignment(s, fd, name, v) == Assignment(name, false, v')
    decreases v, 6
  {
    KeyFieldKind(s, fd);
    if fd.kind.MessageKind? {
      match v
      case Braces(es) =>
        if fd.shape.MapOf? {
          MapSelf(s, fd.kind.name, es);
          OnlyMap(s, fd.kind.name, es, v'.entries);
        } else if fd.shape.Singular? {
          RespelledSelf(s, fd.kind.name, es, NoSpare);
          OnlyEntries(s, fd.kind.name, es, v'.entries, Nothing);
        }
      case List(vs) =>
        if fd.shape.Repeated? {
          ElementsSelf(s, fd.kind.name, vs);
          OnlyElements(s, fd.kind.name, vs, v'.elements);
          if KeyField(s, fd).Some? {
            EligibleKept(s, fd, KeyField(s, fd).value, vs, {});
            EligibleExactly(v'.elements, KeyField(s, fd).value.name);
          }
        }
      case _ =>
    }
    hide CanonEntries, CanonMap, CanonElements, CanonKeyed, NamedBlocks, KeyField, Eligible, CouldBeKeyed;
    hide Settled, SettledMap, SettledElements, SettledKeyed, Respelled, RespelledMap, RespelledElements, BecameKeyed;
  }

  lemma {:induction false} OnlyKeyedAssignment(s: Schema, message: string, fd: Field, name: string, v: Value, e': Entry)
    requires WellFormed(s) && FieldNamed(s, message, name) == Some(fd) && e'.Block?
    requires RespelledEntry(s, message, Assignment(name, false, v), e') && SettledEntry(s, message, e')
    ensures CanonAssignment(s, fd, name, v) == e'
    decreases v, 6
  {
    KeyFieldKind(s, fd);
    if v.Braces? {
      OnlyKeyed(s, fd, KeyField(s, fd).value, v.entries, e'.entries);
    } else {
      OnlyBecame(s, fd, KeyField(s, fd).value, v.elements, e'.entries, {});
    }
    hide CanonKeyed, NamedBlocks, KeyField, Eligible, CanonElements, FieldNamed;
    hide SettledKeyed, RespelledKeyed, BecameKeyed;
  }

  lemma {:induction false} MapSelf(s: Schema, message: string, es: seq<Entry>)
    ensures RespelledMap(s, message, es, es)
  {
    forall i | 0 <= i < |es| && es[i].MapEntry? && es[i].value.Braces?
      ensures Respelled(s, message, es[i].value.entries, es[i].value.entries, NoSpare)
    {
      RespelledSelf(s, message, es[i].value.entries, NoSpare);
    }
    hide Respelled;
  }

  lemma {:induction false} ElementsSelf(s: Schema, message: string, vs: seq<Value>)
    ensures RespelledElements(s, message, vs, vs)
  {
    forall i | 0 <= i < |vs| && vs[i].Braces? ensures Respelled(s, message, vs[i].entries, vs[i].entries, NoSpare) {
      RespelledSelf(s, message, vs[i].entries, NoSpare);
    }
    hide Respelled;
  }

  lemma {:induction false} KeyedSelf(s: Schema, message: string, key: string, es: seq<Entry>)
    requires SettledKeyed(s, message, key, es)
    ensures RespelledKeyed(s, message, key, es, es)
  {
    forall i | 0 <= i < |es| ensures RespelledNamed(s, message, key, es[i], es[i]) {
      assert SettledNamed(s, message, key, es[i]);
      if EntryName(es[i]).Some? {
        RespelledSelf(s, message, EntryBody(es[i]), Spare(key, EntryName(es[i]).value));
      }
      hide Respelled, Settled;
    }
  }

  lemma {:induction false} OnlyMap(s: Schema, message: string, es: seq<Entry>, now: seq<Entry>)
    requires WellFormed(s) && RespelledMap(s, message, es, now) && SettledMap(s, message, now)
    ensures now == CanonMap(s, message, es)
    decreases es, 5
  {
    hide CanonEntries, Settled, Respelled;
    if es != [] {
      if es[0].MapEntry? && es[0].value.Braces? {
        OnlyEntries(s, message, es[0].value.entries, now[0].value.entries, Nothing);
      }
      assert forall i :: 0 <= i < |es[1..]| ==> es[1..][i] == es[i + 1] && now[1..][i] == now[i + 1];
      OnlyMap(s, message, es[1..], now[1..]);
      assert now == [now[0]] + now[1..];
    }
  }

  lemma {:induction false} OnlyElements(s: Schema, message: string, vs: seq<Value>, now: seq<Value>)
    requires WellFormed(s) && RespelledElements(s, message, vs, now) && SettledElements(s, message, now)
    ensures now == CanonElements(s, message, vs)
    decreases vs, 5
  {
    hide CanonEntries, Settled, Respelled;
    if vs != [] {
      if vs[0].Braces? {
        OnlyEntries(s, message, vs[0].entries, now[0].entries, Nothing);
      }
      assert forall i :: 0 <= i < |vs[1..]| ==> vs[1..][i] == vs[i + 1] && now[1..][i] == now[i + 1];
      OnlyElements(s, message, vs[1..], now[1..]);
      assert now == [now[0]] + now[1..];
    }
  }

  lemma {:induction false} OnlyKeyed(s: Schema, fd: Field, key: Field, es: seq<Entry>, now: seq<Entry>)
    requires WellFormed(s) && fd.kind.MessageKind?
    requires RespelledKeyed(s, fd.kind.name, key.name, es, now) && SettledKeyed(s, fd.kind.name, key.name, now)
    ensures now == CanonKeyed(s, fd, key, es)
    decreases es, 5
  {
    hide CanonNamed, SettledNamed, RespelledNamed;
    if es != [] {
      OnlyNamed(s, fd, key, es[0], now[0]);
      assert forall i :: 0 <= i < |es[1..]| ==> es[1..][i] == es[i + 1] && now[1..][i] == now[i + 1];
      OnlyKeyed(s, fd, key, es[1..], now[1..]);
      assert now == [now[0]] + now[1..];
    }
  }

  lemma {:induction false} OnlyNamed(s: Schema, fd: Field, key: Field, e: Entry, now: Entry)
    requires WellFormed(s) && fd.kind.MessageKind?
    requires RespelledNamed(s, fd.kind.name, key.name, e, now) && SettledNamed(s, fd.kind.name, key.name, now)
    ensures now == CanonNamed(s, fd, key, e)
    decreases e, 5
  {
    hide CanonEntries, Settled, Respelled, IdentSafe;
    if EntryName(e).Some? {
      OnlyEntries(s, fd.kind.name, EntryBody(e), now.entries, Key(key.name, EntryName(e).value));
    }
  }

  lemma {:induction false} OnlyBecame(s: Schema, fd: Field, key: Field, vs: seq<Value>, now: seq<Entry>, seen: set<string>)
    requires WellFormed(s) && fd.kind.MessageKind?
    requires BecameKeyed(s, fd.kind.name, key.name, vs, now) && SettledKeyed(s, fd.kind.name, key.name, now)
    requires forall i :: 0 <= i < |now| ==> now[i].name !in seen
    ensures Eligible(vs, key.name, seen) && now == NamedBlocks(s, fd, key, vs, seen)
    decreases vs, 4
  {
    hide CanonEntries, Settled, Respelled, IdentSafe, ExplicitKey, KeyedOnce;
    if vs != [] {
      var name := now[0].name;
      KeyExactly(vs[0].entries, key.name, name);
      assert SettledNamed(s, fd.kind.name, key.name, now[0]);
      OnlyEntries(s, fd.kind.name, vs[0].entries, now[0].entries, Key(key.name, name));
      assert forall i :: 0 <= i < |vs[1..]| ==> vs[1..][i] == vs[i + 1] && now[1..][i] == now[i + 1];
      OnlyBecame(s, fd, key, vs[1..], now[1..], seen + {name});
      assert now == [now[0]] + now[1..];
    }
  }

  /** The rewritten document is the one document in keyed form that respells the original. */
  lemma {:induction false} CanonicalExactly(s: Schema, message: string, es: seq<Entry>, now: seq<Entry>)
    requires WellFormed(s)
    ensures now == Canonical(s, message, es) <==> Settled(s, message, now) && Respelled(s, message, es, now, NoSpare)
  {
    hide Settled, Respelled, CanonEntries;
    CanonDone(s, message, es, Nothing);
    if Settled(s, message, now) && Respelled(s, message, es, now, NoSpare) {
      OnlyEntries(s, message, es, now, Nothing);
    }
  }

  /** A document is left as it is exactly when it is in keyed form. */
  lemma {:induction false} LeftAloneExactly(s: Schema, message: string, es: seq<Entry>)
    requires WellFormed(s)
    ensures Canonical(s, message, es) == es <==> Settled(s, message, es)
  {
    RespelledSelf(s, message, es, NoSpare);
    CanonicalExactly(s, message, es, es);
  }
}
