/** The post-decode pass over a message, pruned by the plan or not. */
module PostDecodePass {
  import opened Decimals
  import opened Options
  import opened PostDecode

  /** The pass's result: the value with its defaults, or the path it fails at and
      whether a required field is missing there or a default does not read. */
  datatype Outcome<+T> = Done(value: T) | Failed(path: string, missing: bool)

  /** Set a field, which clears the other members of its oneof. */
  function SetField(t: Types, b: Body, fd: Info, v: Value): Body {
    b.(fields := (b.fields - Siblings(t, b.message, fd))[fd.name := v])
  }

  /** The other members of a field's oneof. */
  function Siblings(t: Types, message: string, fd: Info): set<string> {
    set m | m in InfosOf(t, message) && fd.oneof.Some? && m.oneof == fd.oneof && m.name != fd.name :: m.name
  }

  /** Another member of the field's oneof was mentioned. */
  predicate OneofChosen(t: Types, message: string, fd: Info, p: Presence, prefix: string) {
    exists n :: n in Siblings(t, message, fd) && prefix + n in p.present
  }

  /** Whether the pass goes into the bodies of a field: by the plan, or, unpruned,
      whenever they are not well-known. */
  ghost predicate Enters(t: Types, fd: Info, pruned: bool) {
    if pruned then Visit(t, fd) else fd.body.Some? && fd.body.value !in t.wellKnown
  }

  /** post_decode: each field in turn. skip is the field of null paths, which is
      not user data. */
  ghost function Pass(t: Types, b: Body, p: Presence, skip: Option<string>, prefix: string, pruned: bool): Outcome<Body>
    decreases b, 1, 0
  {
    Fields(t, b, b, InfosOf(t, b.message), p, skip, prefix, pruned)
  }

  /** The remaining fields; bodies are those the document wrote. */
  ghost function Fields(t: Types, wrote: Body, b: Body, infos: seq<Info>, p: Presence, skip: Option<string>, prefix: string,
                        pruned: bool): Outcome<Body>
    decreases wrote, 0, |infos|
  {
    if infos == [] then Done(b)
    else
      match FieldPass(t, wrote, b, infos[0], p, skip, prefix, pruned)
      case Failed(path, missing) => Failed(path, missing)
      case Done(b') => Fields(t, wrote, b', infos[1..], p, skip, prefix, pruned)
  }

  ghost function FieldPass(t: Types, wrote: Body, b: Body, fd: Info, p: Presence, skip: Option<string>, prefix: string,
                           pruned: bool): Outcome<Body>
    decreases wrote, 0, 0
  {
    var path := prefix + fd.name;
    if (!Annotated(fd) && !Enters(t, fd, pruned)) || skip == Some(fd.name) then Done(b)
    else if path !in p.present then
      if fd.required then Failed(path, true)
      else if fd.default.Some? && !OneofChosen(t, b.message, fd, p, prefix) then
        match t.defaultOf(b.message, fd)
        case None => Failed(path, false)
        case Some(v) => Done(SetField(t, b, fd, v))
      else Done(b)
    else if Enters(t, fd, pruned) && path !in p.nulls && fd.name in b.fields && fd.name in wrote.fields then
      match Bodies(t, wrote.fields[fd.name], p, path, pruned)
      case Failed(at, missing) => Failed(at, missing)
      case Done(v) => Done(b.(fields := b.fields[fd.name := v]))
    else Done(b)
  }

  /** post_decode_bodies: the message, each element, or each value of a map in key
      order. */
  ghost function Bodies(t: Types, v: Value, p: Presence, path: string, pruned: bool): Outcome<Value>
    decreases v, 2, 0
  {
    match v
    case Scalar(_) => Done(v)
    case Message(b) =>
      (match Pass(t, b, p, None, path + ".", pruned)
       case Failed(at, missing) => Failed(at, missing)
       case Done(b') => Done(Message(b')))
    case Elements(items) =>
      (match Each(t, items, p, path, 0, pruned)
       case Failed(at, missing) => Failed(at, missing)
       case Done(items') => Done(Elements(items')))
    case Entries(entries) =>
      (match EachEntry(t, entries, p, path, pruned)
       case Failed(at, missing) => Failed(at, missing)
       case Done(entries') => Done(Entries(entries')))
  }

  /** A body among the elements of a list or the values of a map. */
  ghost function OneBody(t: Types, v: Value, p: Presence, prefix: string, pruned: bool): Outcome<Value>
    decreases v, 1, 0
  {
    if !v.Message? then Done(v)
    else
      match Pass(t, v.body, p, None, prefix, pruned)
      case Failed(at, missing) => Failed(at, missing)
      case Done(b) => Done(Message(b))
  }

  ghost function Each(t: Types, items: seq<Value>, p: Presence, path: string, i: nat, pruned: bool): Outcome<seq<Value>>
    decreases items, 1, 0
  {
    if items == [] then Done([])
    else
      match OneBody(t, items[0], p, path + "[" + ToDec(i) + "].", pruned)
      case Failed(at, missing) => Failed(at, missing)
      case Done(v) =>
        match Each(t, items[1..], p, path, i + 1, pruned)
        case Failed(at, missing) => Failed(at, missing)
        case Done(rest) => Done([v] + rest)
  }

  ghost function EachEntry(t: Types, entries: seq<MapItem>, p: Presence, path: string, pruned: bool): Outcome<seq<MapItem>>
    decreases entries, 1, 0
  {
    if entries == [] then Done([])
    else
      match OneBody(t, entries[0].value, p, path + "[" + entries[0].key + "].", pruned)
      case Failed(at, missing) => Failed(at, missing)
      case Done(v) =>
        match EachEntry(t, entries[1..], p, path, pruned)
        case Failed(at, missing) => Failed(at, missing)
        case Done(rest) => Done([MapItem(entries[0].key, v)] + rest)
  }

  // Pruning.

  /** Bodies have the type their field says, at every depth. */
  ghost predicate Typed(t: Types, b: Body)
    decreases b
  {
    forall i :: 0 <= i < |InfosOf(t, b.message)| ==>
      var fd := InfosOf(t, b.message)[i];
      fd.name in b.fields && fd.body.Some? ==> TypedValue(t, b.fields[fd.name], fd.body.value)
  }

  ghost predicate TypedValue(t: Types, v: Value, message: string)
    decreases v
  {
    match v
    case Scalar(_) => true
    case Message(b) => b.message == message && Typed(t, b)
    case Elements(items) => forall i :: 0 <= i < |items| ==> TypedValue(t, items[i], message)
    case Entries(entries) => forall i :: 0 <= i < |entries| ==> TypedValue(t, entries[i].value, message)
  }

  lemma CleanField(t: Types, message: string, i: nat)
    requires message !in t.wellKnown && !Reaches(t, message) && i < |InfosOf(t, message)|
    ensures var fd := InfosOf(t, message)[i];
            !Annotated(fd) && !Visit(t, fd)
  {
    hide Reaches;
    var fd := InfosOf(t, message)[i];
    if Annotated(fd) {
      FoundHere(t, message, i);
    } else if fd.body.Some? && Reaches(t, fd.body.value) {
      FoundBelow(t, message, i);
    }
  }

  /** A body below which nothing is annotated is left as it is by the full pass. */
  lemma {:induction false} CleanBody(t: Types, b: Body, p: Presence, prefix: string)
    requires Typed(t, b) && b.message !in t.wellKnown && !Reaches(t, b.message)
    ensures Pass(t, b, p, None, prefix, false) == Done(b)
    decreases b, 1, 0
  {
    hide Reaches, Fields;
    CleanFields(t, b, 0, p, prefix);
    assert InfosOf(t, b.message)[0..] == InfosOf(t, b.message);
  }

  lemma {:induction false} CleanFields(t: Types, b: Body, i: nat, p: Presence, prefix: string)
    requires Typed(t, b) && b.message !in t.wellKnown && !Reaches(t, b.message) && i <= |InfosOf(t, b.message)|
    ensures Fields(t, b, b, InfosOf(t, b.message)[i..], p, None, prefix, false) == Done(b)
    decreases b, 0, |InfosOf(t, b.message)| - i
  {
    hide Reaches, FieldPass, Typed, InfosOf;
    var infos := InfosOf(t, b.message)[i..];
    if infos != [] {
      CleanFieldPass(t, b, i, p, prefix);
      CleanFields(t, b, i + 1, p, prefix);
      assert infos[1..] == InfosOf(t, b.message)[i + 1..];
    }
  }

  lemma {:induction false} CleanFieldPass(t: Types, b: Body, i: nat, p: Presence, prefix: string)
    requires Typed(t, b) && b.message !in t.wellKnown && !Reaches(t, b.message) && i < |InfosOf(t, b.message)|
    ensures FieldPass(t, b, b, InfosOf(t, b.message)[i], p, None, prefix, false) == Done(b)
    decreases b, 0, 0
  {
    hide Reaches, Bodies;
    var fd := InfosOf(t, b.message)[i];
    CleanField(t, b.message, i);
    if fd.body.Some? && fd.body.value !in t.wellKnown && fd.name in b.fields {
      CleanBodies(t, b.fields[fd.name], fd.body.value, p, prefix + fd.name);
      assert b.fields[fd.name := b.fields[fd.name]] == b.fields;
    }
  }

  lemma {:induction false} CleanBodies(t: Types, v: Value, message: string, p: Presence, path: string)
    requires TypedValue(t, v, message) && message !in t.wellKnown && !Reaches(t, message)
    ensures Bodies(t, v, p, path, false) == Done(v)
    decreases v, 2, 0
  {
    hide Reaches, Pass, Each, EachEntry, Typed;
    match v
    case Scalar(_) =>
    case Message(b) => CleanBody(t, b, p, path + ".");
    case Elements(items) => CleanEach(t, items, message, p, path, 0);
    case Entries(entries) => CleanEntries(t, entries, message, p, path);
  }

  lemma {:induction false} CleanEach(t: Types, items: seq<Value>, message: string, p: Presence, path: string, i: nat)
    requires forall k :: 0 <= k < |items| ==> TypedValue(t, items[k], message)
    requires message !in t.wellKnown && !Reaches(t, message)
    ensures Each(t, items, p, path, i, false) == Done(items)
    decreases items, 1, 0
  {
    hide Reaches, OneBody, TypedValue, ToDec;
    if items != [] {
      CleanOne(t, items[0], message, p, path + "[" + ToDec(i) + "].");
      CleanEach(t, items[1..], message, p, path, i + 1);
      assert [items[0]] + items[1..] == items;
    }
  }

  lemma {:induction false} CleanOne(t: Types, v: Value, message: string, p: Presence, prefix: string)
    requires TypedValue(t, v, message) && message !in t.wellKnown && !Reaches(t, message)
    ensures OneBody(t, v, p, prefix, false) == Done(v)
    decreases v, 1, 0
  {
    hide Reaches, Pass, Typed;
    if v.Message? {
      CleanBody(t, v.body, p, prefix);
    }
  }

  lemma {:induction false} CleanEntries(t: Types, entries: seq<MapItem>, message: string, p: Presence, path: string)
    requires forall k :: 0 <= k < |entries| ==> TypedValue(t, entries[k].value, message)
    requires message !in t.wellKnown && !Reaches(t, message)
    ensures EachEntry(t, entries, p, path, false) == Done(entries)
    decreases entries, 1, 0
  {
    hide Reaches, OneBody, TypedValue;
    if entries != [] {
      CleanOne(t, entries[0].value, message, p, path + "[" + entries[0].key + "].");
      CleanEntries(t, entries[1..], message, p, path);
      assert [MapItem(entries[0].key, entries[0].value)] + entries[1..] == entries;
    }
  }

  // The general case: the fields still to come are as the document wrote them.

  /** The fields mentioned, from the i-th on, hold what the document wrote. */
  ghost predicate Untouched(t: Types, wrote: Body, b: Body, i: nat, p: Presence, prefix: string) {
    b.message == wrote.message &&
    forall j :: i <= j < |InfosOf(t, wrote.message)| && prefix + InfosOf(t, wrote.message)[j].name in p.present ==>
      var n := InfosOf(t, wrote.message)[j].name;
      && (n in b.fields <==> n in wrote.fields)
      && (n in wrote.fields ==> b.fields[n] == wrote.fields[n])
  }

  lemma UntouchedNext(t: Types, wrote: Body, b: Body, i: nat, p: Presence, skip: Option<string>, prefix: string, pruned: bool)
    requires WellFormed(t) && i < |InfosOf(t, wrote.message)| && Untouched(t, wrote, b, i, p, prefix)
    requires FieldPass(t, wrote, b, InfosOf(t, wrote.message)[i], p, skip, prefix, pruned).Done?
    ensures Untouched(t, wrote, FieldPass(t, wrote, b, InfosOf(t, wrote.message)[i], p, skip, prefix, pruned).value, i + 1, p, prefix)
  {
    hide Bodies, Enters;
    var infos := InfosOf(t, wrote.message);
    var b' := FieldPass(t, wrote, b, infos[i], p, skip, prefix, pruned).value;
    DistinctNames(t, wrote.message);
    forall j | i + 1 <= j < |infos| && prefix + infos[j].name in p.present
      ensures (infos[j].name in b'.fields <==> infos[j].name in b.fields)
      ensures infos[j].name in b.fields ==> b'.fields[infos[j].name] == b.fields[infos[j].name]
    {
      assert infos[i].name != infos[j].name;
    }
  }

  lemma DistinctNames(t: Types, message: string)
    requires WellFormed(t)
    ensures forall i, j :: 0 <= i < j < |InfosOf(t, message)| ==> InfosOf(t, message)[i].name != InfosOf(t, message)[j].name
  {}

  /** The plan skips nothing that matters: the pruned pass gives the same message,
      or fails at the same path in the same way. */
  lemma {:induction false} PrunedPass(t: Types, b: Body, p: Presence, skip: Option<string>, prefix: string)
    requires WellFormed(t) && Typed(t, b)
    ensures Pass(t, b, p, skip, prefix, true) == Pass(t, b, p, skip, prefix, false)
    decreases b, 1, 0
  {
    hide Fields, Typed, WellFormed;
    assert InfosOf(t, b.message)[0..] == InfosOf(t, b.message);
    PrunedFields(t, b, b, 0, p, skip, prefix);
  }

  lemma {:induction false} PrunedFields(t: Types, wrote: Body, b: Body, i: nat, p: Presence, skip: Option<string>, prefix: string)
    requires WellFormed(t) && Typed(t, wrote) && i <= |InfosOf(t, wrote.message)| && Untouched(t, wrote, b, i, p, prefix)
    ensures Fields(t, wrote, b, InfosOf(t, wrote.message)[i..], p, skip, prefix, true)
         == Fields(t, wrote, b, InfosOf(t, wrote.message)[i..], p, skip, prefix, false)
    decreases wrote, 0, |InfosOf(t, wrote.message)| - i
  {
    hide FieldPass, Typed, InfosOf, WellFormed, Untouched;
    var infos := InfosOf(t, wrote.message)[i..];
    if infos != [] {
      PrunedFieldPass(t, wrote, b, i, p, skip, prefix);
      var r := FieldPass(t, wrote, b, InfosOf(t, wrote.message)[i], p, skip, prefix, true);
      if r.Done? {
        UntouchedNext(t, wrote, b, i, p, skip, prefix, true);
        PrunedFields(t, wrote, r.value, i + 1, p, skip, prefix);
      }
      assert infos[1..] == InfosOf(t, wrote.message)[i + 1..];
    }
  }

  lemma {:induction false} PrunedFieldPass(t: Types, wrote: Body, b: Body, i: nat, p: Presence, skip: Option<string>, prefix: string)
    requires WellFormed(t) && Typed(t, wrote) && i < |InfosOf(t, wrote.message)| && Untouched(t, wrote, b, i, p, prefix)
    ensures FieldPass(t, wrote, b, InfosOf(t, wrote.message)[i], p, skip, prefix, true)
         == FieldPass(t, wrote, b, InfosOf(t, wrote.message)[i], p, skip, prefix, false)
    decreases wrote, 0, 0
  {
    hide Reaches, Bodies, WellFormed;
    var fd := InfosOf(t, wrote.message)[i];
    if fd.body.Some? && fd.name in wrote.fields {
      var v := wrote.fields[fd.name];
      if Reaches(t, fd.body.value) {
        ReachesNotWellKnown(t, fd.body.value);
        PrunedBodies(t, v, fd.body.value, p, prefix + fd.name);
      } else if fd.body.value !in t.wellKnown {
        CleanBodies(t, v, fd.body.value, p, prefix + fd.name);
        if prefix + fd.name in p.present {
          assert b.fields[fd.name := v] == b.fields;
        }
      }
    } else if fd.body.Some? && Reaches(t, fd.body.value) {
      ReachesNotWellKnown(t, fd.body.value);
    }
  }

  lemma ReachesNotWellKnown(t: Types, message: string)
    requires Reaches(t, message)
    ensures message !in t.wellKnown
  {
    hide HasAnnotated, Holds;
  }

  lemma {:induction false} PrunedBodies(t: Types, v: Value, message: string, p: Presence, path: string)
    requires WellFormed(t) && TypedValue(t, v, message)
    ensures Bodies(t, v, p, path, true) == Bodies(t, v, p, path, false)
    decreases v, 2, 0
  {
    hide Pass, Each, EachEntry, Typed, WellFormed;
    match v
    case Scalar(_) =>
    case Message(b) => PrunedPass(t, b, p, None, path + ".");
    case Elements(items) => PrunedEach(t, items, message, p, path, 0);
    case Entries(entries) => PrunedEntries(t, entries, message, p, path);
  }

  lemma {:induction false} PrunedOne(t: Types, v: Value, message: string, p: Presence, prefix: string)
    requires WellFormed(t) && TypedValue(t, v, message)
    ensures OneBody(t, v, p, prefix, true) == OneBody(t, v, p, prefix, false)
    decreases v, 1, 0
  {
    hide Pass, Typed, WellFormed;
    if v.Message? {
      PrunedPass(t, v.body, p, None, prefix);
    }
  }

  lemma {:induction false} PrunedEach(t: Types, items: seq<Value>, message: string, p: Presence, path: string, i: nat)
    requires WellFormed(t) && forall k :: 0 <= k < |items| ==> TypedValue(t, items[k], message)
    ensures Each(t, items, p, path, i, true) == Each(t, items, p, path, i, false)
    decreases items, 1, 0
  {
    hide OneBody, TypedValue, ToDec, WellFormed;
    if items != [] {
      PrunedOne(t, items[0], message, p, path + "[" + ToDec(i) + "].");
      PrunedEach(t, items[1..], message, p, path, i + 1);
    }
  }

  lemma {:induction false} PrunedEntries(t: Types, entries: seq<MapItem>, message: string, p: Presence, path: string)
    requires WellFormed(t) && forall k :: 0 <= k < |entries| ==> TypedValue(t, entries[k].value, message)
    ensures EachEntry(t, entries, p, path, true) == EachEntry(t, entries, p, path, false)
    decreases entries, 1, 0
  {
    hide OneBody, TypedValue, WellFormed;
    if entries != [] {
      PrunedOne(t, entries[0].value, message, p, path + "[" + entries[0].key + "].");
      PrunedEntries(t, entries[1..], message, p, path);
    }
  }
}
