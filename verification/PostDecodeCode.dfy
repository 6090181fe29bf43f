/** The pass as it runs, with the plan asked for each field, and what it leaves of
    the document's own values. */
module PostDecodeCode {
  import opened Decimals
  import opened Options
  import opened PostDecode
  import opened PostDecodePass

  // What the document supplied.

  /** A field's turn in the pass leaves every other mentioned field as it is. */
  lemma OthersKept(t: Types, wrote: Body, b: Body, i: nat, k: nat, p: Presence, skip: Option<string>, prefix: string, pruned: bool)
    requires WellFormed(t) && i < |InfosOf(t, b.message)| && k < |InfosOf(t, b.message)| && i != k
    requires prefix + InfosOf(t, b.message)[k].name in p.present
    requires FieldPass(t, wrote, b, InfosOf(t, b.message)[i], p, skip, prefix, pruned).Done?
    ensures var n, r := InfosOf(t, b.message)[k].name, FieldPass(t, wrote, b, InfosOf(t, b.message)[i], p, skip, prefix, pruned).value;
            r.message == b.message && (n in r.fields <==> n in b.fields) && (n in b.fields ==> r.fields[n] == b.fields[n])
  {
    hide Bodies, Enters;
    DistinctNames(t, b.message);
    hide WellFormed;
    var n := InfosOf(t, b.message)[k].name;
    assert n != InfosOf(t, b.message)[i].name;
    if n in Siblings(t, b.message, InfosOf(t, b.message)[i]) {
      assert OneofChosen(t, b.message, InfosOf(t, b.message)[i], p, prefix);
    }
  }

  /** After the turns from i on, a mentioned field whose turn is past holds what it
      held. */
  lemma {:induction false} PastKept(t: Types, wrote: Body, b: Body, i: nat, k: nat, p: Presence, skip: Option<string>, prefix: string, pruned: bool)
    requires WellFormed(t) && k < i <= |InfosOf(t, b.message)| && prefix + InfosOf(t, b.message)[k].name in p.present
    requires Fields(t, wrote, b, InfosOf(t, b.message)[i..], p, skip, prefix, pruned).Done?
    ensures var n, r := InfosOf(t, b.message)[k].name, Fields(t, wrote, b, InfosOf(t, b.message)[i..], p, skip, prefix, pruned).value;
            (n in r.fields <==> n in b.fields) && (n in b.fields ==> r.fields[n] == b.fields[n])
    decreases |InfosOf(t, b.message)| - i
  {
    hide FieldPass, InfosOf, WellFormed;
    var infos := InfosOf(t, b.message);
    if i < |infos| {
      assert infos[i..][0] == infos[i] && infos[i..][1..] == infos[i + 1..];
      OthersKept(t, wrote, b, i, k, p, skip, prefix, pruned);
      var b' := FieldPass(t, wrote, b, infos[i], p, skip, prefix, pruned).value;
      PastKept(t, wrote, b', i + 1, k, p, skip, prefix, pruned);
    }
  }

  /** What the pass makes of a mentioned field: the same value, or the value with
      the pass over its bodies. */
  ghost predicate KeptValue(t: Types, before: Body, after: Body, fd: Info, p: Presence, prefix: string, pruned: bool) {
    && (fd.name in after.fields <==> fd.name in before.fields)
    && (fd.name in before.fields ==>
          after.fields[fd.name] == before.fields[fd.name]
          || Bodies(t, before.fields[fd.name], p, prefix + fd.name, pruned) == Done(after.fields[fd.name]))
  }

  lemma OwnTurn(t: Types, wrote: Body, b: Body, fd: Info, p: Presence, skip: Option<string>, prefix: string, pruned: bool)
    requires prefix + fd.name in p.present && FieldPass(t, wrote, b, fd, p, skip, prefix, pruned).Done?
    requires (fd.name in b.fields <==> fd.name in wrote.fields) && (fd.name in b.fields ==> b.fields[fd.name] == wrote.fields[fd.name])
    ensures var r := FieldPass(t, wrote, b, fd, p, skip, prefix, pruned).value;
            r.message == b.message && KeptValue(t, wrote, r, fd, p, prefix, pruned)
  {
    hide Bodies, Enters;
  }

  lemma {:induction false} SuppliedFields(t: Types, wrote: Body, b: Body, i: nat, k: nat, p: Presence, skip: Option<string>, prefix: string, pruned: bool)
    requires WellFormed(t) && b.message == wrote.message && i <= k < |InfosOf(t, b.message)|
    requires var n := InfosOf(t, b.message)[k].name;
             && prefix + n in p.present
             && (n in b.fields <==> n in wrote.fields) && (n in b.fields ==> b.fields[n] == wrote.fields[n])
    requires Fields(t, wrote, b, InfosOf(t, b.message)[i..], p, skip, prefix, pruned).Done?
    ensures KeptValue(t, wrote, Fields(t, wrote, b, InfosOf(t, b.message)[i..], p, skip, prefix, pruned).value,
                      InfosOf(t, b.message)[k], p, prefix, pruned)
    decreases k - i
  {
    hide FieldPass, InfosOf, WellFormed, Bodies;
    var infos := InfosOf(t, b.message);
    assert infos[i..][0] == infos[i] && infos[i..][1..] == infos[i + 1..];
    var b' := FieldPass(t, wrote, b, infos[i], p, skip, prefix, pruned).value;
    if i < k {
      OthersKept(t, wrote, b, i, k, p, skip, prefix, pruned);
      SuppliedFields(t, wrote, b', i + 1, k, p, skip, prefix, pruned);
    } else {
      OwnTurn(t, wrote, b, infos[k], p, skip, prefix, pruned);
      PastKept(t, wrote, b', i + 1, k, p, skip, prefix, pruned);
    }
  }

  /** No default overwrites or clears a value the document supplied, its own
      field's or a oneof sibling's: every mentioned field keeps its value, its
      bodies passed over in their turn. */
  lemma SuppliedKept(t: Types, b: Body, p: Presence, skip: Option<string>, prefix: string, pruned: bool, k: nat)
    requires WellFormed(t) && k < |InfosOf(t, b.message)| && prefix + InfosOf(t, b.message)[k].name in p.present
    requires Pass(t, b, p, skip, prefix, pruned).Done?
    ensures KeptValue(t, b, Pass(t, b, p, skip, prefix, pruned).value, InfosOf(t, b.message)[k], p, prefix, pruned)
  {
    hide Fields, InfosOf, WellFormed, Bodies;
    assert InfosOf(t, b.message)[0..] == InfosOf(t, b.message);
    SuppliedFields(t, b, b, 0, k, p, skip, prefix, pruned);
  }

  // The loops.

  method PostDecodeBody(t: Types, wrote: Body, p: Presence, skip: Option<string>, prefix: string) returns (out: Outcome<Body>)
    requires WellFormed(t)
    ensures out == Pass(t, wrote, p, skip, prefix, true)
    decreases wrote, 1
  {
    hide FieldPass, WellFormed;
    var infos := InfosOf(t, wrote.message);
    var b := wrote;
    var i := 0;
    assert infos[0..] == infos;
    while i < |infos|
      invariant i <= |infos|
      invariant Fields(t, wrote, b, infos[i..], p, skip, prefix, true) == Pass(t, wrote, p, skip, prefix, true)
    {
      assert infos[i..][0] == infos[i] && infos[i..][1..] == infos[i + 1..];
      InfoClosed(t, wrote.message, i);
      var r := PostDecodeField(t, wrote, b, infos[i], p, skip, prefix);
      if r.Failed? {
        return Failed(r.path, r.missing);
      }
      b := r.value;
      i := i + 1;
    }
    out := Done(b);
  }

  lemma InfoClosed(t: Types, message: string, i: nat)
    requires WellFormed(t) && i < |InfosOf(t, message)|
    ensures InfosOf(t, message)[i].body.Some? ==> InfosOf(t, message)[i].body.value in t.messages
  {}

  method PostDecodeField(t: Types, wrote: Body, b: Body, fd: Info, p: Presence, skip: Option<string>, prefix: string)
    returns (out: Outcome<Body>)
    requires WellFormed(t) && (fd.body.Some? ==> fd.body.value in t.messages)
    ensures out == FieldPass(t, wrote, b, fd, p, skip, prefix, true)
    decreases wrote, 0
  {
    hide Bodies, WellFormed, Reaches;
    var visit := PlanVisit(t, fd);
    if !fd.required && fd.default.None? && !visit {
      return Done(b);
    }
    if skip == Some(fd.name) {
      return Done(b);
    }
    var path := prefix + fd.name;
    if path !in p.present {
      if fd.required {
        return Failed(path, true);
      }
      if fd.default.Some? && !OneofChosen(t, b.message, fd, p, prefix) {
        var v := t.defaultOf(b.message, fd);
        return if v.None? then Failed(path, false) else Done(SetField(t, b, fd, v.value));
      }
      return Done(b);
    }
    if visit && path !in p.nulls && fd.name in b.fields && fd.name in wrote.fields {
      var r := PostDecodeBodies(t, wrote.fields[fd.name], p, path);
      return if r.Failed? then Failed(r.path, r.missing) else Done(b.(fields := b.fields[fd.name := r.value]));
    }
    out := Done(b);
  }

  method PostDecodeBodies(t: Types, v: Value, p: Presence, path: string) returns (out: Outcome<Value>)
    requires WellFormed(t)
    ensures out == Bodies(t, v, p, path, true)
    decreases v, 2
  {
    hide Pass, OneBody, WellFormed, ToDec;
    match v {
      case Scalar(_) => return Done(v);
      case Message(b) =>
        var r := PostDecodeBody(t, b, p, None, path + ".");
        return if r.Failed? then Failed(r.path, r.missing) else Done(Message(r.value));
      case Elements(items) =>
        var r := PostDecodeEach(t, items, p, path);
        return if r.Failed? then Failed(r.path, r.missing) else Done(Elements(r.value));
      case Entries(entries) =>
        var r := PostDecodeEntries(t, entries, p, path);
        return if r.Failed? then Failed(r.path, r.missing) else Done(Entries(r.value));
    }
  }

  method PostDecodeOne(t: Types, v: Value, p: Presence, prefix: string) returns (out: Outcome<Value>)
    requires WellFormed(t)
    ensures out == OneBody(t, v, p, prefix, true)
    decreases v, 1
  {
    hide Pass, WellFormed;
    if !v.Message? {
      return Done(v);
    }
    var r := PostDecodeBody(t, v.body, p, None, prefix);
    out := if r.Failed? then Failed(r.path, r.missing) else Done(Message(r.value));
  }

  /** The rest of the elements, with those before them in front. */
  ghost function After<T>(done: seq<T>, rest: Outcome<seq<T>>): Outcome<seq<T>> {
    match rest
    case Failed(path, missing) => Failed(path, missing)
    case Done(more) => Done(done + more)
  }

  method PostDecodeEach(t: Types, items: seq<Value>, p: Presence, path: string) returns (out: Outcome<seq<Value>>)
    requires WellFormed(t)
    ensures out == Each(t, items, p, path, 0, true)
    decreases items, 1
  {
    hide OneBody, WellFormed, ToDec;
    var done: seq<Value> := [];
    var i := 0;
    assert items[0..] == items;
    AfterNothing(done, Each(t, items, p, path, 0, true));
    while i < |items|
      invariant i <= |items|
      invariant After(done, Each(t, items[i..], p, path, i, true)) == Each(t, items, p, path, 0, true)
    {
      assert items[i..][0] == items[i] && items[i..][1..] == items[i + 1..];
      var r := PostDecodeOne(t, items[i], p, path + "[" + ToDec(i) + "].");
      if r.Failed? {
        return Failed(r.path, r.missing);
      }
      AfterOne(done, r.value, Each(t, items[i + 1..], p, path, i + 1, true));
      done := done + [r.value];
      i := i + 1;
    }
    AfterNothing(done, Each(t, items[i..], p, path, i, true));
    out := Done(done);
  }

  lemma AfterNothing<T>(done: seq<T>, rest: Outcome<seq<T>>)
    ensures After([], rest) == rest && After(done, Done([])) == Done(done)
  {
    if rest.Done? {
      assert [] + rest.value == rest.value;
    }
    assert done + [] == done;
  }

  lemma AfterOne<T>(done: seq<T>, v: T, rest: Outcome<seq<T>>)
    ensures rest.Done? ==> done + ([v] + rest.value) == (done + [v]) + rest.value
  {}

  method PostDecodeEntries(t: Types, entries: seq<MapItem>, p: Presence, path: string) returns (out: Outcome<seq<MapItem>>)
    requires WellFormed(t)
    ensures out == EachEntry(t, entries, p, path, true)
    decreases entries, 1
  {
    hide OneBody, WellFormed;
    var done: seq<MapItem> := [];
    var i := 0;
    assert entries[0..] == entries;
    AfterNothing(done, EachEntry(t, entries, p, path, true));
    while i < |entries|
      invariant i <= |entries|
      invariant After(done, EachEntry(t, entries[i..], p, path, true)) == EachEntry(t, entries, p, path, true)
    {
      assert entries[i..][0] == entries[i] && entries[i..][1..] == entries[i + 1..];
      var r := PostDecodeOne(t, entries[i].value, p, path + "[" + entries[i].key + "].");
      if r.Failed? {
        return Failed(r.path, r.missing);
      }
      AfterOne(done, MapItem(entries[i].key, r.value), EachEntry(t, entries[i + 1..], p, path, true));
      done := done + [MapItem(entries[i].key, r.value)];
      i := i + 1;
    }
    AfterNothing(done, EachEntry(t, entries[i..], p, path, true));
    out := Done(done);
  }
}
