/** The canonicalizer as it runs: loops that rewrite the entries of a body one by
    one, equal to the canonical form. */
module KeyedCode {
  import opened Options
  import opened PxfDocument
  import opened KeyedForm

  // The number of entries and values, for termination.

  function Size(es: seq<Entry>): nat
    decreases es
  {
    if es == [] then 0 else EntrySize(es[0]) + Size(es[1..])
  }

  function EntrySize(e: Entry): (n: nat)
    ensures n > 0
    decreases e
  {
    match e
    case Assignment(_, _, v) => 1 + ValueSize(v)
    case MapEntry(_, _, v) => 1 + ValueSize(v)
    case Block(_, _, es) => 2 + Size(es)
    case TypeEntry(_) => 1
  }

  function ValueSize(v: Value): (n: nat)
    ensures n > 0
    decreases v
  {
    match v
    case List(vs) => 1 + Sizes(vs)
    case Braces(es) => 1 + Size(es)
    case _ => 1
  }

  function Sizes(vs: seq<Value>): nat
    decreases vs
  {
    if vs == [] then 0 else ValueSize(vs[0]) + Sizes(vs[1..])
  }

  lemma {:induction false} EntryWithin(es: seq<Entry>, i: nat)
    requires i < |es|
    ensures EntrySize(es[i]) <= Size(es)
    decreases |es|
  {
    if i > 0 {
      EntryWithin(es[1..], i - 1);
    }
  }

  lemma {:induction false} ValueWithin(vs: seq<Value>, i: nat)
    requires i < |vs|
    ensures ValueSize(vs[i]) <= Sizes(vs)
    decreases |vs|
  {
    if i > 0 {
      ValueWithin(vs[1..], i - 1);
    }
  }

  /** The entries that are kept. */
  function Kept(es: seq<Entry>, d: Dropped): seq<Entry> {
    if es == [] then [] else (if IsDropped(es[0], d) then [] else [es[0]]) + Kept(es[1..], d)
  }

  lemma {:induction false} KeptSize(es: seq<Entry>, d: Dropped)
    ensures Size(Kept(es, d)) <= Size(es)
    decreases |es|
  {
    if es != [] {
      KeptSize(es[1..], d);
      var rest := Kept(es[1..], d);
      if IsDropped(es[0], d) {
        assert Kept(es, d) == rest;
      } else {
        assert ([es[0]] + rest)[1..] == rest;
      }
    }
  }

  /** Dropping first and rewriting then is rewriting what is kept. */
  lemma {:induction false} KeptCanon(s: Schema, message: string, es: seq<Entry>, d: Dropped)
    ensures CanonEntries(s, message, Kept(es, d), Nothing) == CanonEntries(s, message, es, d)
    decreases |es|
  {
    hide CanonEntry, IsDropped;
    if es != [] {
      KeptCanon(s, message, es[1..], d);
      NothingDropped(es[0]);
      var rest := Kept(es[1..], d);
      if IsDropped(es[0], d) {
        assert Kept(es, d) == rest;
      } else {
        assert Kept(es, d) == [es[0]] + rest && ([es[0]] + rest)[1..] == rest;
      }
    }
  }

  lemma NothingDropped(e: Entry)
    ensures !IsDropped(e, Nothing)
  {}

  /** drop_key_assignments. */
  method DropKeyAssignments(es: seq<Entry>, keyName: string, entryName: string) returns (out: seq<Entry>)
    ensures out == Kept(es, Key(keyName, entryName))
  {
    hide IsDropped;
    out := [];
    var i := 0;
    assert es[0..] == es;
    while i < |es|
      invariant i <= |es| && out + Kept(es[i..], Key(keyName, entryName)) == Kept(es, Key(keyName, entryName))
    {
      HeadAt(es, i);
      if !IsDropped(es[i], Key(keyName, entryName)) {
        out := out + [es[i]];
      }
      i := i + 1;
    }
  }

  /** explicit_key_of. */
  method ExplicitKeyOf(es: seq<Entry>, keyName: string) returns (found: Option<string>)
    ensures found == ExplicitKey(es, keyName, None)
  {
    found := None;
    var i := 0;
    assert es[0..] == es;
    while i < |es|
      invariant i <= |es| && ExplicitKey(es[i..], keyName, found) == ExplicitKey(es, keyName, None)
    {
      HeadAt(es, i);
      var e := es[i];
      if e.Assignment? && e.key == keyName {
        if !e.value.Lit? || !e.value.literal.Str? {
          return None;
        }
        if e.quoted || found.Some? {
          return None;
        }
        found := Some(e.value.literal.text);
      }
      i := i + 1;
    }
  }

  lemma UpdateAt<T>(s: seq<T>, i: nat, x: T)
    requires i < |s|
    ensures s[i := x][..i + 1] == s[..i] + [x] && s[i := x][i + 1..] == s[i + 1..]
  {}

  lemma HeadAt<T>(s: seq<T>, i: nat)
    requires i < |s|
    ensures s[i..] != [] && s[i..][0] == s[i] && s[i..][1..] == s[i + 1..]
  {}

  /** canon_entries: every entry of a body in place. */
  method CanonBody(s: Schema, message: string, es: seq<Entry>) returns (out: seq<Entry>)
    ensures out == CanonEntries(s, message, es, Nothing)
    decreases Size(es), 1
  {
    hide CanonEntry, EntrySize;
    out := es;
    var i := 0;
    ghost var whole := CanonEntries(s, message, es, Nothing);
    assert es[0..] == es;
    while i < |es|
      invariant i <= |es| == |out| && out[i..] == es[i..]
      invariant out[..i] + CanonEntries(s, message, es[i..], Nothing) == whole
    {
      HeadAt(es, i);
      NothingDropped(es[i]);
      EntryWithin(es, i);
      HeadAt(out, i);
      var rewritten := CanonOne(s, message, es[i]);
      UpdateAt(out, i, rewritten);
      out := out[i := rewritten];
      i := i + 1;
    }
    assert out[..i] == out;
  }

  method CanonOne(s: Schema, message: string, e: Entry) returns (out: Entry)
    ensures out == CanonEntry(s, message, e)
    decreases EntrySize(e), 0
  {
    hide CanonEntries, CanonKeyed, CanonAssignment, KeyField, Size;
    out := e;
    match e {
      case Assignment(key, false, v) =>
        var fd := FieldNamed(s, message, key);
        if fd.Some? {
          out := CanonValue(s, fd.value, key, v);
        }
      case Block(name, false, es) =>
        var field := FieldNamed(s, message, name);
        if field.Some? {
          var fd := field.value;
          KeyedIsMessage(s, fd);
          var key := KeyField(s, fd);
          if key.Some? {
            var entries := CanonKeyedBody(s, fd, key.value, es);
            out := Block(name, false, entries);
          } else if fd.kind.MessageKind? && fd.shape.Singular? {
            var entries := CanonBody(s, fd.kind.name, es);
            out := Block(name, false, entries);
          }
        }
      case _ =>
    }
  }

  lemma KeyedIsMessage(s: Schema, fd: Field)
    ensures KeyField(s, fd).Some? ==> fd.kind.MessageKind? && fd.shape.Repeated?
  {}

  /** canon_assignment. */
  method CanonValue(s: Schema, fd: Field, key: string, v: Value) returns (out: Entry)
    ensures out == CanonAssignment(s, fd, key, v)
    decreases ValueSize(v), 5
  {
    hide CanonEntries, CanonKeyed, CanonMap, CanonElements, KeyField, Eligible, NamedBlocks, Size, Sizes;
    out := Assignment(key, false, v);
    if !fd.kind.MessageKind? {
      return;
    }
    if fd.shape.MapOf? {
      if v.Braces? {
        var entries := CanonMapBody(s, fd.kind.name, v.entries);
        out := Assignment(key, false, Braces(entries));
      }
    } else if fd.shape.Repeated? {
      var keyField := KeyField(s, fd);
      if v.List? {
        out := CanonList(s, fd, key, v.elements);
      } else if v.Braces? && keyField.Some? {
        var entries := CanonKeyedBody(s, fd, keyField.value, v.entries);
        out := Block(key, false, entries);
      }
    } else if v.Braces? {
      var entries := CanonBody(s, fd.kind.name, v.entries);
      out := Assignment(key, false, Braces(entries));
    }
  }

  method CanonMapBody(s: Schema, message: string, es: seq<Entry>) returns (out: seq<Entry>)
    ensures out == CanonMap(s, message, es)
    decreases Size(es), 2
  {
    hide CanonEntries;
    out := [];
    var i := 0;
    assert es[0..] == es;
    while i < |es|
      invariant i <= |es| && out + CanonMap(s, message, es[i..]) == CanonMap(s, message, es)
    {
      HeadAt(es, i);
      EntryWithin(es, i);
      var e := es[i];
      if e.MapEntry? && e.value.Braces? {
        var entries := CanonBody(s, message, e.value.entries);
        e := MapEntry(e.key, e.quoted, Braces(entries));
      }
      out := out + [e];
      i := i + 1;
    }
  }

  /** A list of messages: an eligible one of a keyed field becomes named blocks,
      any other has its elements' bodies rewritten. */
  method CanonList(s: Schema, fd: Field, key: string, vs: seq<Value>) returns (out: Entry)
    requires fd.kind.MessageKind? && fd.shape.Repeated?
    ensures out == CanonAssignment(s, fd, key, List(vs))
    decreases Sizes(vs), 4
  {
    hide CanonEntries, CanonKeyed, CanonElements, KeyField, NamedBlocks, Size, Eligible;
    var keyField := KeyField(s, fd);
    if keyField.Some? {
      var eligible, keys := Keys(vs, keyField.value.name);
      if eligible {
        var entries := CanonNamedBlocks(s, fd, keyField.value, vs, keys);
        return Block(key, false, entries);
      }
    }
    var elements := CanonElementsLoop(s, fd.kind.name, vs);
    out := Assignment(key, false, List(elements));
  }

  /** The explicit keys of the elements, when every one of them has its own. */
  ghost predicate KeysOf(vs: seq<Value>, keyName: string, keys: seq<string>) {
    |keys| == |vs| && forall i :: 0 <= i < |vs| ==> vs[i].Braces? && ExplicitKey(vs[i].entries, keyName, None) == Some(keys[i])
  }

  method Keys(vs: seq<Value>, keyName: string) returns (eligible: bool, keys: seq<string>)
    ensures eligible == Eligible(vs, keyName, {})
    ensures eligible ==> KeysOf(vs, keyName, keys)
  {
    hide ExplicitKey;
    keys := [];
    var seen: set<string> := {};
    var i := 0;
    assert vs[0..] == vs;
    while i < |vs|
      invariant i <= |vs| && KeysOf(vs[..i], keyName, keys)
      invariant Eligible(vs[i..], keyName, seen) == Eligible(vs, keyName, {})
    {
      HeadAt(vs, i);
      if !vs[i].Braces? {
        return false, keys;
      }
      var key := ExplicitKeyOf(vs[i].entries, keyName);
      if key.None? || key.value == "" || key.value in seen {
        return false, keys;
      }
      seen := seen + {key.value};
      keys := keys + [key.value];
      i := i + 1;
    }
    assert vs[..i] == vs;
    eligible := true;
  }

  method CanonElementsLoop(s: Schema, message: string, vs: seq<Value>) returns (out: seq<Value>)
    ensures out == CanonElements(s, message, vs)
    decreases Sizes(vs), 2
  {
    hide CanonEntries, Size;
    out := [];
    var i := 0;
    assert vs[0..] == vs;
    while i < |vs|
      invariant i <= |vs| && out + CanonElements(s, message, vs[i..]) == CanonElements(s, message, vs)
    {
      HeadAt(vs, i);
      ValueWithin(vs, i);
      var v := vs[i];
      if v.Braces? {
        var entries := CanonBody(s, message, v.entries);
        v := Braces(entries);
      }
      out := out + [v];
      i := i + 1;
    }
  }

  /** A body without its repeated keys, rewritten. */
  method CanonKeptBody(s: Schema, message: string, es: seq<Entry>, keyName: string, name: string) returns (out: seq<Entry>)
    ensures out == CanonEntries(s, message, es, Key(keyName, name))
    decreases Size(es), 2
  {
    hide CanonEntries, Kept, Size;
    var kept := DropKeyAssignments(es, keyName, name);
    KeptSize(es, Key(keyName, name));
    KeptCanon(s, message, es, Key(keyName, name));
    out := CanonBody(s, message, kept);
  }

  method CanonNamedBlocks(s: Schema, fd: Field, key: Field, vs: seq<Value>, keys: seq<string>) returns (out: seq<Entry>)
    requires fd.kind.MessageKind? && Eligible(vs, key.name, {}) && KeysOf(vs, key.name, keys)
    ensures out == NamedBlocks(s, fd, key, vs, {})
    decreases Sizes(vs), 3
  {
    hide CanonEntries, ExplicitKey, IdentSafe, Size;
    out := [];
    ghost var seen: set<string> := {};
    var i := 0;
    assert vs[0..] == vs;
    while i < |vs|
      invariant i <= |vs| && Eligible(vs[i..], key.name, seen)
      invariant out + NamedBlocks(s, fd, key, vs[i..], seen) == NamedBlocks(s, fd, key, vs, {})
    {
      HeadAt(vs, i);
      ValueWithin(vs, i);
      var entries := CanonKeptBody(s, fd.kind.name, vs[i].entries, key.name, keys[i]);
      out := out + [Block(keys[i], !IdentSafe(keys[i]), entries)];
      seen := seen + {keys[i]};
      i := i + 1;
    }
  }

  /** canon_keyed_entries. */
  method CanonKeyedBody(s: Schema, fd: Field, key: Field, es: seq<Entry>) returns (out: seq<Entry>)
    requires fd.kind.MessageKind?
    ensures out == CanonKeyed(s, fd, key, es)
    decreases Size(es), 3
  {
    hide CanonEntries, IdentSafe;
    out := es;
    var i := 0;
    ghost var whole := CanonKeyed(s, fd, key, es);
    assert es[0..] == es;
    while i < |es|
      invariant i <= |es| == |out| && out[i..] == es[i..]
      invariant out[..i] + CanonKeyed(s, fd, key, es[i..]) == whole
    {
      HeadAt(es, i);
      EntryWithin(es, i);
      HeadAt(out, i);
      var e := es[i];
      if e.Assignment? && e.value.Braces? {
        e := Block(e.key, e.quoted, e.value.entries);
      }
      if e.Block? {
        var entries := CanonKeptBody(s, fd.kind.name, e.entries, key.name, e.name);
        e := Block(e.name, e.quoted && !IdentSafe(e.name), entries);
      }
      UpdateAt(out, i, e);
      out := out[i := e];
      i := i + 1;
    }
    assert out[..i] == out;
  }

  /** A parsed document, rewritten in place. */
  class Document {
    var entries: seq<Entry>

    constructor (es: seq<Entry>)
      ensures entries == es
    {
      entries := es;
    }

    method CanonicalizeKeyed(s: Schema, message: string)
      modifies this
      ensures entries == Canonical(s, message, old(entries))
    {
      entries := CanonBody(s, message, entries);
    }
  }
}
