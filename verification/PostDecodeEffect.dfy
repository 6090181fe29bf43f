/** What the post-decode pass does to a message, said of the bodies it reaches and
    of the message beside its result, without the pass. */
module PostDecodeEffect {
  import opened Decimals
  import opened Options
  import opened PostDecode
  import opened PostDecodePass

  // The bodies reached.

  /** A body, the field in it that is not user data, and the path of its fields. */
  datatype Place = Place(body: Body, skip: Option<string>, prefix: string)

  function PathOf(from: Place, fd: Info): string {
    from.prefix + fd.name
  }

  predicate Mentioned(p: Presence, from: Place, fd: Info) {
    PathOf(from, fd) in p.present
  }

  function FieldsIn(t: Types, from: Place): seq<Info> {
    InfosOf(t, from.body.message)
  }

  /** The field holds bodies, none of them well-known, and the document wrote them. */
  predicate Entered(t: Types, p: Presence, from: Place, fd: Info) {
    && from.skip != Some(fd.name)
    && fd.body.Some? && fd.body.value !in t.wellKnown
    && Mentioned(p, from, fd) && PathOf(from, fd) !in p.nulls && fd.name in from.body.fields
  }

  /** A value's own body, or those of its elements or entries, each under its path. */
  ghost predicate BodyOf(v: Value, path: string, to: Place) {
    match v
    case Scalar(_) => false
    case Message(b) => to == Place(b, None, path + ".")
    case Elements(items) =>
      exists i :: 0 <= i < |items| && items[i].Message? && to == Place(items[i].body, None, path + "[" + ToDec(i) + "].")
    case Entries(entries) =>
      exists i :: 0 <= i < |entries| && entries[i].value.Message?
                  && to == Place(entries[i].value.body, None, path + "[" + entries[i].key + "].")
  }

  ghost predicate StepTo(t: Types, p: Presence, from: Place, to: Place) {
    exists k :: 0 <= k < |FieldsIn(t, from)| && Through(t, p, from, FieldsIn(t, from)[k], to)
  }

  ghost predicate Through(t: Types, p: Presence, from: Place, fd: Info, to: Place) {
    Entered(t, p, from, fd) && BodyOf(from.body.fields[fd.name], PathOf(from, fd), to)
  }

  /** The body is this one, or one below it along entered fields. */
  ghost predicate Reached(t: Types, p: Presence, places: seq<Place>) {
    places != [] && forall i :: 0 <= i < |places| - 1 ==> StepTo(t, p, places[i], places[i + 1])
  }

  // What the pass can fail at.

  /** Another member of the field's oneof was mentioned. */
  ghost predicate RivalMentioned(t: Types, p: Presence, from: Place, fd: Info) {
    exists k :: 0 <= k < |FieldsIn(t, from)| && Rivals(fd, FieldsIn(t, from)[k]) && Mentioned(p, from, FieldsIn(t, from)[k])
  }

  predicate Rivals(a: Info, b: Info) {
    a.oneof.Some? && a.oneof == b.oneof && a.name != b.name
  }

  /** The field is left to its default. */
  ghost predicate LeftToDefault(t: Types, p: Presence, from: Place, fd: Info) {
    && fd.default.Some? && !fd.required && from.skip != Some(fd.name)
    && !Mentioned(p, from, fd) && !RivalMentioned(t, p, from, fd)
  }

  /** A required field is absent, or a default that should be set does not read. */
  ghost predicate Offends(t: Types, p: Presence, from: Place, fd: Info, missing: bool) {
    if missing then fd.required && from.skip != Some(fd.name) && !Mentioned(p, from, fd)
    else LeftToDefault(t, p, from, fd) && t.defaultOf(from.body.message, fd).None?
  }

  datatype Offence = Offence(path: string, missing: bool)

  /** All offences in the body and in the bodies below it: each field's own, then
      those in its bodies, before the next field's. */
  ghost function Offences(t: Types, p: Presence, from: Place): seq<Offence>
    decreases from.body, 1, 0
  {
    OffencesFrom(t, p, from, 0)
  }

  ghost function OffencesFrom(t: Types, p: Presence, from: Place, k: nat): seq<Offence>
    requires k <= |FieldsIn(t, from)|
    decreases from.body, 0, |FieldsIn(t, from)| - k
  {
    if k == |FieldsIn(t, from)| then []
    else FieldOffences(t, p, from, FieldsIn(t, from)[k]) + OffencesFrom(t, p, from, k + 1)
  }

  ghost function FieldOffences(t: Types, p: Presence, from: Place, fd: Info): seq<Offence>
    decreases from.body, 0, 0
  {
    if Offends(t, p, from, fd, true) then [Offence(PathOf(from, fd), true)]
    else if Offends(t, p, from, fd, false) then [Offence(PathOf(from, fd), false)]
    else if Entered(t, p, from, fd) then ValueOffences(t, p, from.body.fields[fd.name], PathOf(from, fd))
    else []
  }

  ghost function ValueOffences(t: Types, p: Presence, v: Value, path: string): seq<Offence>
    decreases v, 2, 0
  {
    match v
    case Scalar(_) => []
    case Message(b) => Offences(t, p, Place(b, None, path + "."))
    case Elements(items) => ItemOffences(t, p, items, path, 0)
    case Entries(entries) => EntryOffences(t, p, entries, path)
  }

  ghost function OneOffences(t: Types, p: Presence, v: Value, prefix: string): seq<Offence>
    decreases v, 1, 0
  {
    if v.Message? then Offences(t, p, Place(v.body, None, prefix)) else []
  }

  ghost function ItemOffences(t: Types, p: Presence, items: seq<Value>, path: string, i: nat): seq<Offence>
    decreases items, 1, 0
  {
    if items == [] then []
    else OneOffences(t, p, items[0], path + "[" + ToDec(i) + "].") + ItemOffences(t, p, items[1..], path, i + 1)
  }

  ghost function EntryOffences(t: Types, p: Presence, entries: seq<MapItem>, path: string): seq<Offence>
    decreases entries, 1, 0
  {
    if entries == [] then []
    else OneOffences(t, p, entries[0].value, path + "[" + entries[0].key + "].") + EntryOffences(t, p, entries[1..], path)
  }

  // What the pass makes of a body.

  ghost predicate SameField(a: Body, b: Body, n: string) {
    (n in a.fields <==> n in b.fields) && (n in a.fields ==> b.fields[n] == a.fields[n])
  }

  /** Among the first i fields another member of the k-th field's oneof was set to
      its default, after the k-th field was, if it was. */
  ghost predicate Cleared(t: Types, p: Presence, from: Place, k: nat, i: nat)
    requires k < |FieldsIn(t, from)|
  {
    exists j :: 0 <= j < i && j < |FieldsIn(t, from)| && Overrides(t, p, from, k, j, i)
  }

  ghost predicate Overrides(t: Types, p: Presence, from: Place, k: nat, j: nat, i: nat)
    requires k < |FieldsIn(t, from)| && j < |FieldsIn(t, from)|
  {
    && Rivals(FieldsIn(t, from)[k], FieldsIn(t, from)[j]) && LeftToDefault(t, p, from, FieldsIn(t, from)[j])
    && (k < i && LeftToDefault(t, p, from, FieldsIn(t, from)[k]) ==> k < j)
  }

  /** The k-th field after the first i have had their defaults: cleared, its own
      default, its bodies filled in their turn, or as it was. */
  ghost predicate FieldFilled(t: Types, p: Presence, from: Place, now: Body, k: nat, i: nat)
    requires k < |FieldsIn(t, from)|
    decreases from.body, 0
  {
    var fd := FieldsIn(t, from)[k];
    if Cleared(t, p, from, k, i) then fd.name !in now.fields
    else if k < i && LeftToDefault(t, p, from, fd) then
      fd.name in now.fields && t.defaultOf(from.body.message, fd) == Some(now.fields[fd.name])
    else if k < i && Entered(t, p, from, fd) then
      fd.name in now.fields && ValueFilled(t, p, from.body.fields[fd.name], now.fields[fd.name], PathOf(from, fd))
    else SameField(from.body, now, fd.name)
  }

  ghost predicate FilledTo(t: Types, p: Presence, from: Place, now: Body, i: nat)
    decreases from.body, 1
  {
    && now.message == from.body.message
    && (forall k :: 0 <= k < |FieldsIn(t, from)| ==> FieldFilled(t, p, from, now, k, i))
    && forall n :: (forall k :: 0 <= k < |FieldsIn(t, from)| ==> FieldsIn(t, from)[k].name != n) ==> SameField(from.body, now, n)
  }

  ghost predicate Filled(t: Types, p: Presence, from: Place, now: Body)
    decreases from.body, 2
  {
    FilledTo(t, p, from, now, |FieldsIn(t, from)|)
  }

  ghost predicate ValueFilled(t: Types, p: Presence, v: Value, now: Value, path: string)
    decreases v, 3
  {
    match v
    case Scalar(_) => now == v
    case Message(b) => now.Message? && Filled(t, p, Place(b, None, path + "."), now.body)
    case Elements(items) =>
      && now.Elements? && |now.items| == |items|
      && forall i :: 0 <= i < |items| ==> OneFilled(t, p, items[i], now.items[i], path + "[" + ToDec(i) + "].")
    case Entries(entries) =>
      && now.Entries? && |now.entries| == |entries|
      && forall i :: 0 <= i < |entries| ==>
           && now.entries[i].key == entries[i].key
           && OneFilled(t, p, entries[i].value, now.entries[i].value, path + "[" + entries[i].key + "].")
  }

  ghost predicate OneFilled(t: Types, p: Presence, v: Value, now: Value, prefix: string)
    decreases v, 3
  {
    if v.Message? then now.Message? && Filled(t, p, Place(v.body, None, prefix), now.body) else now == v
  }

  // The pass against it.

  /** A result of the pass beside the offences and what is to become of the value. */
  ghost predicate Agrees<T>(r: Outcome<T>, offences: seq<Offence>) {
    match r
    case Done(_) => offences == []
    case Failed(path, missing) => offences != [] && offences[0] == Offence(path, missing)
  }

  lemma {:induction false} ChosenIsRival(t: Types, p: Presence, from: Place, fd: Info)
    ensures OneofChosen(t, from.body.message, fd, p, from.prefix) <==> RivalMentioned(t, p, from, fd)
  {
    var fs := FieldsIn(t, from);
    if RivalMentioned(t, p, from, fd) {
      var k :| 0 <= k < |fs| && Rivals(fd, fs[k]) && Mentioned(p, from, fs[k]);
      assert fs[k].name in Siblings(t, from.body.message, fd);
    }
    if OneofChosen(t, from.body.message, fd, p, from.prefix) {
      var n :| n in Siblings(t, from.body.message, fd) && from.prefix + n in p.present;
      var m :| m in fs && fd.oneof.Some? && m.oneof == fd.oneof && m.name != fd.name && m.name == n;
      var k :| 0 <= k < |fs| && fs[k] == m;
      assert Rivals(fd, fs[k]);
    }
  }

  /** A field's default is set when it is left to it, and nothing else of a body changes
      than its oneof. */
  lemma {:induction false} PassAgrees(t: Types, p: Presence, from: Place)
    requires WellFormed(t)
    ensures var r := Pass(t, from.body, p, from.skip, from.prefix, false);
            Agrees(r, Offences(t, p, from)) && (r.Done? ==> Filled(t, p, from, r.value))
    decreases from.body, 1, 0
  {
    hide Fields, FieldPass, OffencesFrom, FilledTo, WellFormed, InfosOf;
    assert FieldsIn(t, from)[0..] == FieldsIn(t, from);
    StartsFilled(t, p, from);
    FieldsAgree(t, p, from, from.body, 0);
  }

  lemma {:induction false} StartsFilled(t: Types, p: Presence, from: Place)
    ensures FilledTo(t, p, from, from.body, 0)
  {
    hide LeftToDefault, Entered, ValueFilled;
  }

  lemma {:induction false} FieldsAgree(t: Types, p: Presence, from: Place, b: Body, i: nat)
    requires WellFormed(t) && i <= |FieldsIn(t, from)| && FilledTo(t, p, from, b, i)
    ensures var r := Fields(t, from.body, b, FieldsIn(t, from)[i..], p, from.skip, from.prefix, false);
            Agrees(r, OffencesFrom(t, p, from, i)) && (r.Done? ==> Filled(t, p, from, r.value))
    decreases from.body, 0, |FieldsIn(t, from)| - i
  {
    var fs := FieldsIn(t, from);
    hide FieldPass, FieldOffences, FilledTo, WellFormed, FieldsIn;
    if i < |fs| {
      assert fs[i..][0] == fs[i] && fs[i..][1..] == fs[i + 1..];
      TurnAgrees(t, p, from, b, i);
      var r := FieldPass(t, from.body, b, fs[i], p, from.skip, from.prefix, false);
      if r.Done? {
        FieldsAgree(t, p, from, r.value, i + 1);
      }
    }
  }

  lemma {:induction false} TurnAgrees(t: Types, p: Presence, from: Place, b: Body, i: nat)
    requires WellFormed(t) && i < |FieldsIn(t, from)| && FilledTo(t, p, from, b, i)
    ensures var fd := FieldsIn(t, from)[i];
            var r := FieldPass(t, from.body, b, fd, p, from.skip, from.prefix, false);
            Agrees(r, FieldOffences(t, p, from, fd)) && (r.Done? ==> FilledTo(t, p, from, r.value, i + 1))
    decreases from.body, 0, 0
  {
    var fd := FieldsIn(t, from)[i];
    ChosenIsRival(t, p, from, fd);
    if LeftToDefault(t, p, from, fd) {
      if t.defaultOf(from.body.message, fd).Some? {
        DefaultFilled(t, p, from, b, i, t.defaultOf(from.body.message, fd).value);
      }
      hide RivalMentioned, FilledTo, OneofChosen, ValueOffences, FieldsIn, WellFormed;
      assert b.message == from.body.message by { FilledMessage(t, p, from, b, i); }
    } else if Entered(t, p, from, fd) {
      ValueAgrees(t, p, from.body.fields[fd.name], PathOf(from, fd));
      EnteredHeld(t, p, from, b, i);
      hide RivalMentioned, FilledTo, OneofChosen, Bodies, ValueOffences, FieldsIn, WellFormed;
      var r := Bodies(t, from.body.fields[fd.name], p, PathOf(from, fd), false);
      if r.Done? {
        EnteredFilled(t, p, from, b, i, r.value);
      }
    } else {
      KeptFilled(t, p, from, b, i);
      FilledMessage(t, p, from, b, i);
      hide FilledTo, RivalMentioned, OneofChosen, Bodies, FieldsIn, WellFormed;
    }
  }

  lemma {:induction false} FilledMessage(t: Types, p: Presence, from: Place, b: Body, i: nat)
    requires FilledTo(t, p, from, b, i)
    ensures b.message == from.body.message
  {}

  /** Only a field's turn to its default changes which are cleared. */
  lemma {:induction false} ClearedNext(t: Types, p: Presence, from: Place, k: nat, i: nat)
    requires i < |FieldsIn(t, from)| && k < |FieldsIn(t, from)|
    ensures Cleared(t, p, from, k, i + 1)
        <==> if !LeftToDefault(t, p, from, FieldsIn(t, from)[i]) then Cleared(t, p, from, k, i)
             else k != i && (Cleared(t, p, from, k, i) || Rivals(FieldsIn(t, from)[k], FieldsIn(t, from)[i]))
  {
    hide LeftToDefault;
    var fs := FieldsIn(t, from);
    if Cleared(t, p, from, k, i + 1) {
      var j :| 0 <= j < i + 1 && j < |fs| && Overrides(t, p, from, k, j, i + 1);
      if j < i {
        assert Overrides(t, p, from, k, j, i);
      }
    }
    if Cleared(t, p, from, k, i) && !(LeftToDefault(t, p, from, fs[i]) && k == i) {
      var j :| 0 <= j < i && j < |fs| && Overrides(t, p, from, k, j, i);
      assert Overrides(t, p, from, k, j, i + 1);
    }
    if LeftToDefault(t, p, from, fs[i]) && Rivals(fs[k], fs[i]) {
      assert k != i ==> Overrides(t, p, from, k, i, i + 1);
    }
  }

  lemma {:induction false} KeptFilled(t: Types, p: Presence, from: Place, b: Body, i: nat)
    requires i < |FieldsIn(t, from)| && FilledTo(t, p, from, b, i)
    requires !LeftToDefault(t, p, from, FieldsIn(t, from)[i]) && !Entered(t, p, from, FieldsIn(t, from)[i])
    ensures FilledTo(t, p, from, b, i + 1)
  {
    var next := i + 1;
    forall k | 0 <= k < |FieldsIn(t, from)| ensures FieldFilled(t, p, from, b, k, next) {
      assert FieldFilled(t, p, from, b, k, i);
      ClearedNext(t, p, from, k, i);
      hide Cleared, LeftToDefault, Entered, ValueFilled;
    }
  }

  lemma {:induction false} DefaultFilled(t: Types, p: Presence, from: Place, b: Body, i: nat, v: Value)
    requires WellFormed(t) && i < |FieldsIn(t, from)| && FilledTo(t, p, from, b, i)
    requires LeftToDefault(t, p, from, FieldsIn(t, from)[i])
    requires t.defaultOf(from.body.message, FieldsIn(t, from)[i]) == Some(v)
    ensures FilledTo(t, p, from, SetField(t, b, FieldsIn(t, from)[i], v), i + 1)
  {
    var fs := FieldsIn(t, from);
    DistinctNames(t, from.body.message);
    FilledMessage(t, p, from, b, i);
    var now, next := SetField(t, b, fs[i], v), i + 1;
    forall k | 0 <= k < |fs| ensures FieldFilled(t, p, from, now, k, next) {
      assert FieldFilled(t, p, from, b, k, i);
      ClearedNext(t, p, from, k, i);
      SiblingsAre(t, from, fs[i], k);
      assert k != i ==> fs[k].name != fs[i].name;
      hide Cleared, Siblings, LeftToDefault, Entered, ValueFilled, FieldFilled;
      if k != i && !Rivals(fs[k], fs[i]) {
        FieldStays(t, p, from, b, now, k, i);
      } else if k != i {
        ClearedGone(t, p, from, now, k, next);
      } else {
        DefaultHeld(t, p, from, now, i, v);
      }
    }
    forall n | forall k :: 0 <= k < |fs| ==> fs[k].name != n ensures SameField(from.body, now, n) {
      assert SameField(from.body, b, n);
      assert forall m :: m in fs ==> m.name != n;
      assert n != fs[i].name && n !in Siblings(t, b.message, fs[i]);
    }
  }

  lemma {:induction false} FieldStays(t: Types, p: Presence, from: Place, b: Body, now: Body, k: nat, i: nat)
    requires k < |FieldsIn(t, from)| && k != i && FieldFilled(t, p, from, b, k, i)
    requires SameField(b, now, FieldsIn(t, from)[k].name) && (Cleared(t, p, from, k, i + 1) <==> Cleared(t, p, from, k, i))
    ensures FieldFilled(t, p, from, now, k, i + 1)
  {
    hide Cleared, LeftToDefault, Entered, ValueFilled;
  }

  lemma {:induction false} ClearedGone(t: Types, p: Presence, from: Place, now: Body, k: nat, i: nat)
    requires k < |FieldsIn(t, from)| && Cleared(t, p, from, k, i) && FieldsIn(t, from)[k].name !in now.fields
    ensures FieldFilled(t, p, from, now, k, i)
  {
    hide Cleared, LeftToDefault, Entered, ValueFilled;
  }

  lemma {:induction false} DefaultHeld(t: Types, p: Presence, from: Place, now: Body, i: nat, v: Value)
    requires i < |FieldsIn(t, from)| && !Cleared(t, p, from, i, i + 1) && LeftToDefault(t, p, from, FieldsIn(t, from)[i])
    requires var fd := FieldsIn(t, from)[i];
             t.defaultOf(from.body.message, fd) == Some(v) && fd.name in now.fields && now.fields[fd.name] == v
    ensures FieldFilled(t, p, from, now, i, i + 1)
  {
    hide Cleared, LeftToDefault, Entered, ValueFilled;
  }

  lemma {:induction false} SiblingsAre(t: Types, from: Place, fd: Info, k: nat)
    requires WellFormed(t) && k < |FieldsIn(t, from)|
    ensures FieldsIn(t, from)[k].name in Siblings(t, from.body.message, fd) <==> Rivals(FieldsIn(t, from)[k], fd)
  {
    var fs := FieldsIn(t, from);
    DistinctNames(t, from.body.message);
    assert fs[k] in fs;
  }

  /** A mentioned field still holds what the document wrote when its turn comes. */
  lemma {:induction false} EnteredHeld(t: Types, p: Presence, from: Place, b: Body, i: nat)
    requires i < |FieldsIn(t, from)| && FilledTo(t, p, from, b, i) && Entered(t, p, from, FieldsIn(t, from)[i])
    ensures var fd := FieldsIn(t, from)[i];
            fd.name in b.fields && b.fields[fd.name] == from.body.fields[fd.name] && !Cleared(t, p, from, i, i)
  {
    NotClearedMentioned(t, p, from, i, i);
    assert FieldFilled(t, p, from, b, i, i);
    hide Cleared, ValueFilled;
  }

  lemma {:induction false} NotClearedMentioned(t: Types, p: Presence, from: Place, k: nat, i: nat)
    requires k < |FieldsIn(t, from)| && Mentioned(p, from, FieldsIn(t, from)[k])
    ensures !Cleared(t, p, from, k, i)
  {
    var fs := FieldsIn(t, from);
    assert forall j :: 0 <= j < |fs| && Rivals(fs[k], fs[j]) ==> Rivals(fs[j], fs[k]) && RivalMentioned(t, p, from, fs[j]);
  }

  lemma {:induction false} EnteredFilled(t: Types, p: Presence, from: Place, b: Body, i: nat, v: Value)
    requires WellFormed(t) && i < |FieldsIn(t, from)| && FilledTo(t, p, from, b, i) && Entered(t, p, from, FieldsIn(t, from)[i])
    requires ValueFilled(t, p, from.body.fields[FieldsIn(t, from)[i].name], v, PathOf(from, FieldsIn(t, from)[i]))
    ensures FilledTo(t, p, from, b.(fields := b.fields[FieldsIn(t, from)[i].name := v]), i + 1)
  {
    var fs := FieldsIn(t, from);
    DistinctNames(t, from.body.message);
    FilledMessage(t, p, from, b, i);
    var now, next := b.(fields := b.fields[fs[i].name := v]), i + 1;
    NotClearedMentioned(t, p, from, i, next);
    assert !LeftToDefault(t, p, from, fs[i]);
    forall k | 0 <= k < |fs| ensures FieldFilled(t, p, from, now, k, next) {
      assert FieldFilled(t, p, from, b, k, i);
      ClearedNext(t, p, from, k, i);
      assert k != i ==> fs[k].name != fs[i].name;
      if k != i {
        hide Cleared, LeftToDefault, Entered, ValueFilled, FieldFilled;
        FieldStays(t, p, from, b, now, k, i);
      } else {
        hide Cleared, LeftToDefault, Entered, ValueFilled;
      }
    }
    forall n | forall k :: 0 <= k < |fs| ==> fs[k].name != n ensures SameField(from.body, now, n) {
      assert SameField(from.body, b, n);
      assert n != fs[i].name;
    }
  }

  lemma {:induction false} ValueAgrees(t: Types, p: Presence, v: Value, path: string)
    requires WellFormed(t)
    ensures var r := Bodies(t, v, p, path, false);
            Agrees(r, ValueOffences(t, p, v, path)) && (r.Done? ==> ValueFilled(t, p, v, r.value, path))
    decreases v, 2, 0
  {
    hide Pass, Offences, Filled, Each, EachEntry, WellFormed, ToDec;
    match v
    case Scalar(_) =>
    case Message(b) => PassAgrees(t, p, Place(b, None, path + "."));
    case Elements(items) => ItemsAgree(t, p, items, path, 0);
    case Entries(entries) => EntriesAgree(t, p, entries, path);
  }

  lemma {:induction false} OneAgrees(t: Types, p: Presence, v: Value, prefix: string)
    requires WellFormed(t)
    ensures var r := OneBody(t, v, p, prefix, false);
            Agrees(r, OneOffences(t, p, v, prefix)) && (r.Done? ==> OneFilled(t, p, v, r.value, prefix))
    decreases v, 1, 0
  {
    hide Pass, Offences, Filled, WellFormed;
    if v.Message? {
      PassAgrees(t, p, Place(v.body, None, prefix));
    }
  }

  lemma {:induction false} ItemsAgree(t: Types, p: Presence, items: seq<Value>, path: string, i: nat)
    requires WellFormed(t)
    ensures var r := Each(t, items, p, path, i, false);
            && Agrees(r, ItemOffences(t, p, items, path, i))
            && (r.Done? ==> |r.value| == |items|)
            && (r.Done? ==> forall k :: 0 <= k < |items| ==> OneFilled(t, p, items[k], r.value[k], path + "[" + ToDec(i + k) + "]."))
    decreases items, 1, 0
  {
    hide OneBody, OneOffences, OneFilled, WellFormed, ToDec;
    if items != [] {
      OneAgrees(t, p, items[0], path + "[" + ToDec(i) + "].");
      ItemsAgree(t, p, items[1..], path, i + 1);
      assert forall k :: 0 < k < |items| ==> items[k] == items[1..][k - 1] && i + k == i + 1 + (k - 1);
    }
  }

  lemma {:induction false} EntriesAgree(t: Types, p: Presence, entries: seq<MapItem>, path: string)
    requires WellFormed(t)
    ensures var r := EachEntry(t, entries, p, path, false);
            && Agrees(r, EntryOffences(t, p, entries, path))
            && (r.Done? ==> |r.value| == |entries|)
            && (r.Done? ==> forall k :: 0 <= k < |entries| ==>
                  && r.value[k].key == entries[k].key
                  && OneFilled(t, p, entries[k].value, r.value[k].value, path + "[" + entries[k].key + "]."))
    decreases entries, 1, 0
  {
    hide OneBody, OneOffences, OneFilled, WellFormed;
    if entries != [] {
      OneAgrees(t, p, entries[0].value, path + "[" + entries[0].key + "].");
      EntriesAgree(t, p, entries[1..], path);
      assert forall k :: 0 < k < |entries| ==> entries[k] == entries[1..][k - 1];
    }
  }

  // The effect is one.

  lemma {:induction false} FilledOnce(t: Types, p: Presence, from: Place, a: Body, b: Body)
    requires Filled(t, p, from, a) && Filled(t, p, from, b)
    ensures a == b
    decreases from.body, 1
  {
    forall n ensures SameField(a, b, n) {
      FieldOnce(t, p, from, a, b, n);
    }
    SameFields(a, b);
  }

  lemma {:induction false} SameFields(a: Body, b: Body)
    requires a.message == b.message && forall n :: SameField(a, b, n)
    ensures a == b
  {
    assert forall n :: SameField(a, b, n) ==> (n in a.fields <==> n in b.fields);
    assert a.fields.Keys == b.fields.Keys;
    assert forall n :: n in a.fields ==> SameField(a, b, n);
    assert a.fields == b.fields;
  }

  lemma {:induction false} FieldOnce(t: Types, p: Presence, from: Place, a: Body, b: Body, n: string)
    requires Filled(t, p, from, a) && Filled(t, p, from, b)
    ensures SameField(a, b, n)
    decreases from.body, 0
  {
    var fs := FieldsIn(t, from);
    if k :| 0 <= k < |fs| && fs[k].name == n {
      assert FieldFilled(t, p, from, a, k, |fs|) && FieldFilled(t, p, from, b, k, |fs|);
      if Entered(t, p, from, fs[k]) && n in a.fields && n in b.fields && !LeftToDefault(t, p, from, fs[k])
         && !Cleared(t, p, from, k, |fs|) {
        ValueOnce(t, p, from.body.fields[n], a.fields[n], b.fields[n], PathOf(from, fs[k]));
      }
      hide Cleared, LeftToDefault, ValueFilled, Entered;
    } else {
      assert SameField(from.body, a, n) && SameField(from.body, b, n);
    }
  }

  lemma {:induction false} ValueOnce(t: Types, p: Presence, v: Value, a: Value, b: Value, path: string)
    requires ValueFilled(t, p, v, a, path) && ValueFilled(t, p, v, b, path)
    ensures a == b
    decreases v, 3
  {
    hide Filled;
    match v
    case Scalar(_) =>
    case Message(c) => FilledOnce(t, p, Place(c, None, path + "."), a.body, b.body);
    case Elements(items) =>
      forall i | 0 <= i < |items| ensures a.items[i] == b.items[i] {
        OneOnce(t, p, items[i], a.items[i], b.items[i], path + "[" + ToDec(i) + "].");
      }
      assert a.items == b.items;
    case Entries(entries) =>
      forall i | 0 <= i < |entries| ensures a.entries[i] == b.entries[i] {
        OneOnce(t, p, entries[i].value, a.entries[i].value, b.entries[i].value, path + "[" + entries[i].key + "].");
      }
      assert a.entries == b.entries;
  }

  lemma {:induction false} OneOnce(t: Types, p: Presence, v: Value, a: Value, b: Value, prefix: string)
    requires OneFilled(t, p, v, a, prefix) && OneFilled(t, p, v, b, prefix)
    ensures a == b
    decreases v, 3
  {
    hide Filled;
    if v.Message? {
      FilledOnce(t, p, Place(v.body, None, prefix), a.body, b.body);
    }
  }

  /** The pass succeeds exactly without offences, with the one body filled so, and
      fails exactly at the first offence. */
  lemma {:induction false} PassExactly(t: Types, p: Presence, from: Place)
    requires WellFormed(t)
    ensures var r := Pass(t, from.body, p, from.skip, from.prefix, false);
            && (forall now :: r == Done(now) <==> Offences(t, p, from) == [] && Filled(t, p, from, now))
            && (forall path, missing :: r == Failed(path, missing)
                                        <==> Offences(t, p, from) != [] && Offences(t, p, from)[0] == Offence(path, missing))
  {
    hide Pass, Offences, Filled, WellFormed;
    PassAgrees(t, p, from);
    var r := Pass(t, from.body, p, from.skip, from.prefix, false);
    forall now | Offences(t, p, from) == [] && Filled(t, p, from, now) ensures r == Done(now) {
      FilledOnce(t, p, from, r.value, now);
    }
  }

  /** So does the pass that skips what the plan lets it. */
  lemma {:induction false} PrunedExactly(t: Types, p: Presence, from: Place)
    requires WellFormed(t) && Typed(t, from.body)
    ensures var r := Pass(t, from.body, p, from.skip, from.prefix, true);
            && (forall now :: r == Done(now) <==> Offences(t, p, from) == [] && Filled(t, p, from, now))
            && (forall path, missing :: r == Failed(path, missing)
                                        <==> Offences(t, p, from) != [] && Offences(t, p, from)[0] == Offence(path, missing))
  {
    hide Pass, Offences, Filled, WellFormed, Typed;
    PrunedPass(t, from.body, p, from.skip, from.prefix);
    PassExactly(t, p, from);
  }

  // The offences are those of the bodies reached.

  /** A body reached offends so. */
  ghost predicate Guilty(t: Types, p: Presence, from: Place, o: Offence) {
    exists places: seq<Place>, k: nat :: GuiltyAt(t, p, from, places, k, o)
  }

  ghost predicate GuiltyAt(t: Types, p: Presence, from: Place, places: seq<Place>, k: nat, o: Offence) {
    && Reached(t, p, places) && places[0] == from
    && var last := places[|places| - 1];
       && k < |FieldsIn(t, last)|
       && Offends(t, p, last, FieldsIn(t, last)[k], o.missing) && o.path == PathOf(last, FieldsIn(t, last)[k])
  }

  lemma {:induction false} GuiltyBelow(t: Types, p: Presence, from: Place, to: Place, o: Offence)
    requires StepTo(t, p, from, to) && Guilty(t, p, to, o)
    ensures Guilty(t, p, from, o)
  {
    hide Offends, StepTo;
    var places, k: nat :| GuiltyAt(t, p, to, places, k, o);
    var longer := [from] + places;
    assert longer[|longer| - 1] == places[|places| - 1];
    assert forall i :: 0 < i < |longer| ==> longer[i] == places[i - 1];
    assert Reached(t, p, longer) by {
      forall i | 0 <= i < |longer| - 1 ensures StepTo(t, p, longer[i], longer[i + 1]) {
        if i > 0 {
          assert StepTo(t, p, places[i - 1], places[i - 1 + 1]);
        }
      }
    }
    assert GuiltyAt(t, p, from, longer, k, o);
  }

  lemma {:induction false} OffencesGuilty(t: Types, p: Presence, from: Place, o: Offence)
    requires o in Offences(t, p, from)
    ensures Guilty(t, p, from, o)
    decreases from.body, 1, 0
  {
    FromGuilty(t, p, from, 0, o);
  }

  lemma {:induction false} FromGuilty(t: Types, p: Presence, from: Place, i: nat, o: Offence)
    requires i <= |FieldsIn(t, from)| && o in OffencesFrom(t, p, from, i)
    ensures Guilty(t, p, from, o)
    decreases from.body, 0, |FieldsIn(t, from)| - i
  {
    hide Offends, ValueOffences, Guilty;
    var fd := FieldsIn(t, from)[i];
    if o in FieldOffences(t, p, from, fd) {
      if Offends(t, p, from, fd, o.missing) && o.path == PathOf(from, fd) {
        GuiltyHere(t, p, from, i, o);
      } else {
        ValueGuilty(t, p, from, i, from.body.fields[fd.name], o);
      }
    } else {
      FromGuilty(t, p, from, i + 1, o);
    }
  }

  lemma {:induction false} GuiltyHere(t: Types, p: Presence, from: Place, i: nat, o: Offence)
    requires i < |FieldsIn(t, from)| && Offends(t, p, from, FieldsIn(t, from)[i], o.missing)
    requires o.path == PathOf(from, FieldsIn(t, from)[i])
    ensures Guilty(t, p, from, o)
  {
    hide Offends, StepTo;
    assert GuiltyAt(t, p, from, [from], i, o);
  }

  lemma {:induction false} ValueGuilty(t: Types, p: Presence, from: Place, k: nat, v: Value, o: Offence)
    requires k < |FieldsIn(t, from)| && Entered(t, p, from, FieldsIn(t, from)[k])
    requires v == from.body.fields[FieldsIn(t, from)[k].name]
    requires o in ValueOffences(t, p, v, PathOf(from, FieldsIn(t, from)[k]))
    ensures Guilty(t, p, from, o)
    decreases v, 2, 0
  {
    var path := PathOf(from, FieldsIn(t, from)[k]);
    var to := ValueSource(t, p, v, path, o);
    hide Guilty, Entered, BodyOf;
    assert Through(t, p, from, FieldsIn(t, from)[k], to);
    GuiltyBelow(t, p, from, to, o);
  }

  lemma {:induction false} ValueSource(t: Types, p: Presence, v: Value, path: string, o: Offence) returns (to: Place)
    requires o in ValueOffences(t, p, v, path)
    ensures BodyOf(v, path, to) && Guilty(t, p, to, o)
    decreases v, 1, 0
  {
    hide Guilty, Offences, ToDec;
    match v
    case Message(b) =>
      to := Place(b, None, path + ".");
      OffencesGuilty(t, p, to, o);
    case Elements(items) =>
      var i := ItemSource(t, p, items, path, 0, o);
      to := Place(items[i].body, None, path + "[" + ToDec(0 + i) + "].");
      OffencesGuilty(t, p, to, o);
    case Entries(entries) =>
      var i := EntrySource(t, p, entries, path, o);
      to := Place(entries[i].value.body, None, path + "[" + entries[i].key + "].");
      OffencesGuilty(t, p, to, o);
  }

  lemma {:induction false} ItemSource(t: Types, p: Presence, items: seq<Value>, path: string, j: nat, o: Offence) returns (i: nat)
    requires o in ItemOffences(t, p, items, path, j)
    ensures i < |items| && items[i].Message?
    ensures o in Offences(t, p, Place(items[i].body, None, path + "[" + ToDec(j + i) + "]."))
    decreases |items|
  {
    hide Offences, ToDec;
    if o in OneOffences(t, p, items[0], path + "[" + ToDec(j) + "].") {
      i := 0;
    } else {
      i := ItemSource(t, p, items[1..], path, j + 1, o);
      i := i + 1;
    }
  }

  lemma {:induction false} EntrySource(t: Types, p: Presence, entries: seq<MapItem>, path: string, o: Offence) returns (i: nat)
    requires o in EntryOffences(t, p, entries, path)
    ensures i < |entries| && entries[i].value.Message?
    ensures o in Offences(t, p, Place(entries[i].value.body, None, path + "[" + entries[i].key + "]."))
    decreases |entries|
  {
    hide Offences;
    if o in OneOffences(t, p, entries[0].value, path + "[" + entries[0].key + "].") {
      i := 0;
    } else {
      i := EntrySource(t, p, entries[1..], path, o);
      i := i + 1;
    }
  }

  lemma {:induction false} GuiltyOffences(t: Types, p: Presence, from: Place, places: seq<Place>, k: nat, o: Offence)
    requires GuiltyAt(t, p, from, places, k, o)
    ensures o in Offences(t, p, from)
    decreases |places|
  {
    if |places| == 1 {
      FieldListed(t, p, from, 0, k, o);
    } else {
      hide Offends;
      var rest := places[1..];
      assert forall i :: 0 <= i < |rest| ==> rest[i] == places[i + 1];
      assert rest[|rest| - 1] == places[|places| - 1];
      assert Reached(t, p, rest) by {
        forall i | 0 <= i < |rest| - 1 ensures StepTo(t, p, rest[i], rest[i + 1]) {
          assert StepTo(t, p, places[i + 1], places[i + 1 + 1]);
        }
      }
      GuiltyOffences(t, p, rest[0], rest, k, o);
      assert StepTo(t, p, places[0], places[0 + 1]);
      StepListed(t, p, from, rest[0], o);
    }
  }

  lemma {:induction false} FieldListed(t: Types, p: Presence, from: Place, i: nat, k: nat, o: Offence)
    requires i <= k < |FieldsIn(t, from)| && o in FieldOffences(t, p, from, FieldsIn(t, from)[k])
    ensures o in OffencesFrom(t, p, from, i)
    decreases k - i
  {
    hide FieldOffences;
    if i < k {
      FieldListed(t, p, from, i + 1, k, o);
    }
  }

  lemma {:induction false} StepListed(t: Types, p: Presence, from: Place, to: Place, o: Offence)
    requires StepTo(t, p, from, to) && o in Offences(t, p, to)
    ensures o in Offences(t, p, from)
  {
    hide Offences;
    var k :| 0 <= k < |FieldsIn(t, from)| && Through(t, p, from, FieldsIn(t, from)[k], to);
    var fd := FieldsIn(t, from)[k];
    assert Entered(t, p, from, fd);
    ValueListed(t, p, from.body.fields[fd.name], PathOf(from, fd), to, o);
    EnteredListed(t, p, from, fd);
    assert o in FieldOffences(t, p, from, fd);
    FieldListed(t, p, from, 0, k, o);
    OffencesAre(t, p, from);
  }

  lemma {:induction false} EnteredListed(t: Types, p: Presence, from: Place, fd: Info)
    requires Entered(t, p, from, fd)
    ensures FieldOffences(t, p, from, fd) == ValueOffences(t, p, from.body.fields[fd.name], PathOf(from, fd))
  {
    hide ValueOffences, RivalMentioned;
  }

  lemma {:induction false} OffencesAre(t: Types, p: Presence, from: Place)
    ensures Offences(t, p, from) == OffencesFrom(t, p, from, 0)
  {}

  lemma {:induction false} ValueListed(t: Types, p: Presence, v: Value, path: string, to: Place, o: Offence)
    requires BodyOf(v, path, to) && o in Offences(t, p, to)
    ensures o in ValueOffences(t, p, v, path)
  {
    hide Offences, ToDec;
    match v
    case Message(b) =>
    case Elements(items) =>
      var i :| 0 <= i < |items| && items[i].Message? && to == Place(items[i].body, None, path + "[" + ToDec(i) + "].");
      ItemListed(t, p, items, path, 0, i, o);
    case Entries(entries) =>
      var i :| 0 <= i < |entries| && entries[i].value.Message?
               && to == Place(entries[i].value.body, None, path + "[" + entries[i].key + "].");
      EntryListed(t, p, entries, path, i, o);
  }

  lemma {:induction false} ItemListed(t: Types, p: Presence, items: seq<Value>, path: string, j: nat, i: nat, o: Offence)
    requires i < |items| && items[i].Message?
    requires o in Offences(t, p, Place(items[i].body, None, path + "[" + ToDec(j + i) + "]."))
    ensures o in ItemOffences(t, p, items, path, j)
    decreases i
  {
    hide Offences, ToDec;
    if i > 0 {
      ItemListed(t, p, items[1..], path, j + 1, i - 1, o);
    }
  }

  lemma {:induction false} EntryListed(t: Types, p: Presence, entries: seq<MapItem>, path: string, i: nat, o: Offence)
    requires i < |entries| && entries[i].value.Message?
    requires o in Offences(t, p, Place(entries[i].value.body, None, path + "[" + entries[i].key + "]."))
    ensures o in EntryOffences(t, p, entries, path)
    decreases i
  {
    hide Offences;
    if i > 0 {
      EntryListed(t, p, entries[1..], path, i - 1, o);
    }
  }

  /** The listed offences are exactly those at bodies reached along entered fields. */
  lemma {:induction false} OffencesExactly(t: Types, p: Presence, from: Place, o: Offence)
    ensures o in Offences(t, p, from) <==> Guilty(t, p, from, o)
  {
    hide Offences, GuiltyAt;
    if Guilty(t, p, from, o) {
      var places, k: nat :| GuiltyAt(t, p, from, places, k, o);
      GuiltyOffences(t, p, from, places, k, o);
    }
    if o in Offences(t, p, from) {
      OffencesGuilty(t, p, from, o);
    }
  }

  /** The pass succeeds exactly when no body reached has a required field absent or a
      default to set that does not read. */
  lemma {:induction false} DoneExactly(t: Types, p: Presence, from: Place)
    requires WellFormed(t)
    ensures Pass(t, from.body, p, from.skip, from.prefix, false).Done? <==> forall o :: !Guilty(t, p, from, o)
  {
    hide Offences, Guilty, Pass, Filled, WellFormed;
    PassAgrees(t, p, from);
    var r := Offences(t, p, from);
    if r != [] {
      OffencesExactly(t, p, from, r[0]);
    }
    forall o | Guilty(t, p, from, o) ensures o in r {
      OffencesExactly(t, p, from, o);
    }
  }
}
