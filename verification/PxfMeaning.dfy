/** What a document means: a body beside the message it decodes to. An entry gives
    its field a value of its own, whatever came before, and the body puts these
    together field by field. */
module PxfMeaning {
  import opened Options
  import opened PxfDocument
  import opened PxfDecoder

  // Entries.

  /** An assignment or a block. */
  predicate Names(e: Entry) {
    e.Assignment? || e.Block?
  }

  function NameOf(e: Entry): string
    requires Names(e)
  {
    if e.Block? then e.name else e.key
  }

  predicate Nulls(e: Entry) {
    e.Assignment? && e.value.Null?
  }

  /** The field an entry is for. */
  function Target(s: Schema, message: string, e: Entry): Option<Field> {
    if Names(e) then FieldNamed(s, message, NameOf(e)) else None
  }

  /** The entry takes its field, or the oneof it is in, for itself. */
  predicate Takes(e: Entry, fd: Field) {
    e.Assignment? || fd.shape.Singular?
  }

  /** Two entries that cannot stand in one body: they give one singular field two
      values, or a oneof two members. */
  predicate Clash(s: Schema, message: string, e: Entry, f: Entry) {
    && Target(s, message, e).Some? && Target(s, message, f).Some?
    && var a, b := Target(s, message, e).value, Target(s, message, f).value;
       && Takes(e, a) && Takes(f, b)
       && ((a.shape.Singular? && b.shape.Singular? && a.name == b.name) || (a.oneof.Some? && a.oneof == b.oneof))
  }

  /** In the body of a keyed element a string given to the key is not empty. Under a
      name it is the name, and neither a null nor another member of its oneof takes
      the key away. */
  predicate Allowed(ke: Keyed, message: string, fd: Field, e: Entry) {
    ke.Keyed? ==>
      && (fd.name == ke.key.name && e.Assignment? && e.value.Lit? && e.value.literal.Str? ==>
            e.value.literal.text != "" && (ke.named ==> e.value.literal.text == ke.entryName))
      && (ke.named && fd.name == ke.key.name ==> !Nulls(e))
      && (ke.named && fd.name != ke.key.name && message == ke.owner && Takes(e, fd) && RealOneof(fd).Some? ==>
            RealOneof(fd) != RealOneof(ke.key))
  }

  // Nesting.

  function Max(a: nat, b: nat): nat {
    if a < b then b else a
  }

  /** The braces and brackets inside one another. */
  function Depth(v: Value): nat
    decreases v, 0
  {
    match v
    case Lit(_) => 0
    case Null => 0
    case List(vs) => 1 + DeepestValue(vs)
    case Braces(es) => 1 + DeepestEntry(es)
  }

  function DeepestValue(vs: seq<Value>): nat
    decreases vs, 1
  {
    if vs == [] then 0 else Max(Depth(vs[0]), DeepestValue(vs[1..]))
  }

  function EntryDepth(e: Entry): nat
    decreases e, 0
  {
    match e
    case Assignment(_, _, v) => Depth(v)
    case MapEntry(_, _, v) => Depth(v)
    case Block(_, _, es) => 1 + DeepestEntry(es)
    case TypeEntry(_) => 0
  }

  function DeepestEntry(es: seq<Entry>): nat
    decreases es, 1
  {
    if es == [] then 0 else Max(EntryDepth(es[0]), DeepestEntry(es[1..]))
  }

  // What is written.

  /** The checks an element of a list is under. */
  function ListElement(c: Config, fd: Field): Keyed {
    if KeyField(c.schema, fd).Some? then Keyed(fd.kind.name, KeyField(c.schema, fd).value, "", false) else NotKeyed
  }

  /** One value of a kind: a literal's, or the message a body means. */
  ghost predicate Single(c: Config, kind: Kind, v: Value, ke: Keyed, room: nat, x: Val)
    decreases v, 3
  {
    match v
    case Lit(l) =>
      (match kind
       case MessageKind(name) => x.VMsg? && c.schema.sugar(name, l) == Some(x.msg)
       case StringKind => l.Str? && x == VString(l.text)
       case ScalarKind(_) => x.VScalar? && c.schema.scalar(kind, l) == Some(x.bits))
    case Braces(es) => kind.MessageKind? && x.VMsg? && Inside(c, kind.name, es, ke, EMPTY, room, x.msg)
    case _ => false
  }

  /** The message that entries in braces mean. An Any that opens with a type entry
      holds the message the rest means. */
  ghost predicate Inside(c: Config, message: string, es: seq<Entry>, ke: Keyed, start: Msg, room: nat, m: Msg)
    decreases es, 3
  {
    && room > 0
    && if es != [] && es[0].TypeEntry? && message == ANY then
         && c.schema.resolve(es[0].url).Some?
         && "value" in m.fields && m.fields["value"].VPacked?
         && Inside(c, c.schema.resolve(es[0].url).value, es[1..], ke, EMPTY, room, m.fields["value"].msg)
         && m == start.(fields := start.fields["type_url" := VString(es[0].url)]["value" := m.fields["value"]])
       else Body(c, message, es, ke, start, room - 1, m)
  }

  /** The message that entries mean: each is read on its own, and they fit together. */
  ghost predicate Body(c: Config, message: string, es: seq<Entry>, ke: Keyed, start: Msg, room: nat, m: Msg)
    decreases es, 2
  {
    exists xs: seq<Val> :: AllRead(c, message, es, ke, room, xs) && Together(c, message, es, xs, start, m)
  }

  ghost predicate AllRead(c: Config, message: string, es: seq<Entry>, ke: Keyed, room: nat, xs: seq<Val>)
    decreases es, 1
  {
    |xs| == |es| && forall i :: 0 <= i < |es| ==> Reads(c, message, es[i], ke, room, xs[i])
  }

  /** The entry may stand in the body, and gives its field this value. An unknown
      field may stand where these are dropped, within the depth left. */
  ghost predicate Reads(c: Config, message: string, e: Entry, ke: Keyed, room: nat, x: Val)
    decreases e, 1
  {
    match e
    case TypeEntry(_) => false
    case MapEntry(_, _, _) => false
    case Assignment(name, quoted, v) =>
      && !quoted
      && (match FieldNamed(c.schema, message, name)
          case None => c.discardUnknown && Depth(v) <= room
          case Some(fd) =>
            && Allowed(ke, message, fd, e)
            && if v.Null? then fd.nullable && fd.shape.Singular? else Written(c, fd, v, room, x))
    case Block(name, quoted, es) =>
      && !quoted
      && (match FieldNamed(c.schema, message, name)
          case None => c.discardUnknown && EntryDepth(e) <= room
          case Some(fd) => !fd.shape.MapOf? && Allowed(ke, message, fd, e) && Braced(c, fd, es, room, x))
  }

  /** The value assigned to a field. */
  ghost predicate Written(c: Config, fd: Field, v: Value, room: nat, x: Val)
    decreases v, 5
  {
    match v
    case Null => false
    case Lit(_) => fd.shape.Singular? && Single(c, fd.kind, v, NotKeyed, room, x)
    case List(vs) =>
      && fd.shape.Repeated? && room > 0 && x.VList? && |x.list| == |vs|
      && forall i :: 0 <= i < |vs| ==> Single(c, fd.kind, vs[i], ListElement(c, fd), room - 1, x.list[i])
    case Braces(es) => Braced(c, fd, es, room, x)
  }

  /** The value that braces give a field: a message, named elements or a map. */
  ghost predicate Braced(c: Config, fd: Field, es: seq<Entry>, room: nat, x: Val)
    decreases es, 4
  {
    && room > 0
    && match fd.shape
       case Singular => fd.kind.MessageKind? && x.VMsg? && Inside(c, fd.kind.name, es, NotKeyed, EMPTY, room, x.msg)
       case Repeated => KeyField(c.schema, fd).Some? && x.VList? && NamedElements(c, fd, es, room - 1, x.list)
       case MapOf => x.VMap? && Pairs(c, fd, es, room - 1, x.table)
  }

  /** Elements under distinct names, each with its name as its key. */
  ghost predicate NamedElements(c: Config, fd: Field, es: seq<Entry>, room: nat, list: seq<Val>)
    requires KeyField(c.schema, fd).Some?
    decreases es, 3
  {
    && |list| == |es|
    && (forall i :: 0 <= i < |es| ==> NamedElement(c, fd, es[i], room, list[i]))
    && forall i, j :: 0 <= i < j < |es| ==> NameOf(es[i]) != NameOf(es[j])
  }

  ghost predicate NamedElement(c: Config, fd: Field, e: Entry, room: nat, x: Val)
    requires KeyField(c.schema, fd).Some?
    ensures NamedElement(c, fd, e, room, x) ==> Names(e)
    decreases e, 1
  {
    && Names(e) && (e.Assignment? ==> e.value.Braces?)
    && NameOf(e) != "" && x.VMsg?
    && var key := KeyField(c.schema, fd).value;
       var start := Msg(map[key.name := VString(NameOf(e))], {key.name}, {});
       var ke := Keyed(fd.kind.name, key, NameOf(e), true);
       if e.Block? then Inside(c, fd.kind.name, e.entries, ke, start, room, x.msg)
       else Inside(c, fd.kind.name, e.value.entries, ke, start, room, x.msg)
  }

  function KeyOf(c: Config, fd: Field, e: Entry): Option<nat> {
    if e.MapEntry? then c.schema.mapKey(fd.keyKind, e.key, e.quoted) else None
  }

  /** A map's entries, whose keys differ as values of the key type. */
  ghost predicate Pairs(c: Config, fd: Field, es: seq<Entry>, room: nat, table: map<nat, Val>)
    decreases es, 3
  {
    && (forall i :: 0 <= i < |es| ==> Pair(c, fd, es[i], room, table))
    && (forall i, j :: 0 <= i < j < |es| ==> KeyOf(c, fd, es[i]) != KeyOf(c, fd, es[j]))
    && forall k :: k in table ==> exists i :: 0 <= i < |es| && KeyOf(c, fd, es[i]) == Some(k)
  }

  ghost predicate Pair(c: Config, fd: Field, e: Entry, room: nat, table: map<nat, Val>)
    decreases e, 1
  {
    && e.MapEntry? && KeyOf(c, fd, e).Some? && KeyOf(c, fd, e).value in table
    && Single(c, fd.kind, e.value, NotKeyed, room, table[KeyOf(c, fd, e).value])
  }

  // The body put together.

  function HeldList(held: Option<Val>): seq<Val> {
    if held.Some? && held.value.VList? then held.value.list else []
  }

  function HeldMap(held: Option<Val>): map<nat, Val> {
    if held.Some? && held.value.VMap? then held.value.table else map[]
  }

  /** A field's value with one entry's more: lists are strung together, maps merge. */
  function Joined(shape: Shape, held: Option<Val>, x: Val): Val {
    if shape.Repeated? && x.VList? then VList(HeldList(held) + x.list)
    else if shape.MapOf? && x.VMap? then VMap(HeldMap(held) + x.table)
    else x
  }

  /** No list or map grows past the limit, and no key of a map is given twice. */
  predicate Joins(c: Config, shape: Shape, held: Option<Val>, x: Val) {
    && (shape.Repeated? && x.VList? && x.list != [] ==> |HeldList(held)| + |x.list| <= c.maxCount)
    && (shape.MapOf? && x.VMap? ==> HeldMap(held).Keys !! x.table.Keys)
    && (shape.MapOf? && x.VMap? && x.table != map[] ==> |HeldMap(held)| + |x.table| <= c.maxCount)
  }

  function FieldIn(m: Msg, n: string): Option<Val> {
    if n in m.fields then Some(m.fields[n]) else None
  }

  /** What a field holds after the first k entries. */
  function Held(s: Schema, message: string, es: seq<Entry>, xs: seq<Val>, start: Msg, n: string, k: nat): Option<Val>
    requires |xs| == |es| && k <= |es|
  {
    if k == 0 then FieldIn(start, n)
    else
      var fd := Target(s, message, es[k - 1]);
      var held := Held(s, message, es, xs, start, n, k - 1);
      if fd.Some? && fd.value.name == n && !Nulls(es[k - 1]) then Some(Joined(fd.value.shape, held, xs[k - 1])) else held
  }

  /** No two entries clash, nothing outgrows the limit, and the message holds what
      they give its fields, mentions theirs, and remembers the nulls. */
  ghost predicate Together(c: Config, message: string, es: seq<Entry>, xs: seq<Val>, start: Msg, m: Msg)
    requires |xs| == |es|
  {
    && (forall i, j :: 0 <= i < j < |es| ==> !Clash(c.schema, message, es[i], es[j]))
    && (forall i :: 0 <= i < |es| ==> JoinsAt(c, message, es, xs, start, i))
    && (forall n :: FieldIn(m, n) == Held(c.schema, message, es, xs, start, n, |es|))
    && (forall n :: n in m.present <==> n in start.present || exists i :: 0 <= i < |es| && Mentions(c.schema, message, es[i], n))
    && (forall n :: n in m.nulls <==> n in start.nulls || exists i :: 0 <= i < |es| && Mentions(c.schema, message, es[i], n) && Nulls(es[i]))
  }

  predicate Mentions(s: Schema, message: string, e: Entry, n: string) {
    Target(s, message, e).Some? && Target(s, message, e).value.name == n
  }

  predicate JoinsAt(c: Config, message: string, es: seq<Entry>, xs: seq<Val>, start: Msg, i: nat)
    requires |xs| == |es| && i < |es|
  {
    var fd := Target(c.schema, message, es[i]);
    fd.Some? && !Nulls(es[i]) ==>
      Joins(c, fd.value.shape, Held(c.schema, message, es, xs, start, fd.value.name, i), xs[i])
  }

  // One entry after another.

  /** The field and the oneof the entry takes are free. */
  predicate Free(s: Schema, message: string, e: Entry, st: State) {
    Target(s, message, e).Some? && Takes(e, Target(s, message, e).value) ==> Unbound(st, Target(s, message, e).value)
  }

  /** The state after an entry that gives this value. */
  function After(s: Schema, message: string, e: Entry, x: Val, st: State): State {
    match Target(s, message, e)
    case None => st
    case Some(fd) =>
      var st := if Takes(e, fd) then Bind(st, fd) else st;
      if Nulls(e) then st.(msg := MarkNull(st.msg, fd.name))
      else st.(msg := Put(Mark(st.msg, fd.name), fd.name, Joined(fd.shape, FieldIn(st.msg, fd.name), x)))
  }

  predicate JoinsNow(c: Config, message: string, e: Entry, x: Val, st: State) {
    Target(c.schema, message, e).Some? && !Nulls(e) ==>
      var fd := Target(c.schema, message, e).value;
      Joins(c, fd.shape, FieldIn(st.msg, fd.name), x)
  }

  /** The entries, read on their own, fit together after what is bound. */
  ghost predicate Onward(c: Config, message: string, es: seq<Entry>, xs: seq<Val>, st: State, m: Msg)
    requires |xs| == |es|
  {
    && (forall i :: 0 <= i < |es| ==> Free(c.schema, message, es[i], st))
    && Together(c, message, es, xs, st.msg, m)
  }

  lemma {:induction false} HeldOn(s: Schema, message: string, es: seq<Entry>, xs: seq<Val>, st: State, n: string, k: nat)
    requires |xs| == |es| && 0 < k <= |es|
    ensures Held(s, message, es, xs, st.msg, n, k)
         == Held(s, message, es[1..], xs[1..], After(s, message, es[0], xs[0], st).msg, n, k - 1)
    decreases k
  {
    hide Joined, Takes;
    if k > 1 {
      HeldOn(s, message, es, xs, st, n, k - 1);
      assert es[k - 1] == es[1..][k - 2] && xs[k - 1] == xs[1..][k - 2];
    } else {
      assert Held(s, message, es, xs, st.msg, n, 0) == FieldIn(st.msg, n);
    }
  }

  /** What the first entry takes is what its followers may not. */
  lemma {:induction false} FreeOn(s: Schema, message: string, e: Entry, x: Val, st: State, f: Entry)
    ensures Free(s, message, f, After(s, message, e, x, st)) <==> Free(s, message, f, st) && !Clash(s, message, e, f)
  {
    hide Joined, Target;
  }

  lemma {:induction false} TogetherNone(c: Config, message: string, start: Msg, m: Msg)
    ensures Together(c, message, [], [], start, m) <==> m == start
  {
    if Together(c, message, [], [], start, m) {
      forall n ensures FieldIn(m, n) == FieldIn(start, n) {
        assert Held(c.schema, message, [], [], start, n, 0) == FieldIn(start, n);
      }
      forall n ensures n in m.fields <==> n in start.fields {
        assert FieldIn(m, n) == FieldIn(start, n);
      }
      forall n | n in m.fields ensures m.fields[n] == start.fields[n] {
        assert FieldIn(m, n) == FieldIn(start, n);
      }
      assert m.fields == start.fields;
      assert m.present == start.present;
      assert m.nulls == start.nulls;
    }
  }

  lemma {:induction false} HeldAll(s: Schema, message: string, es: seq<Entry>, xs: seq<Val>, st: State, m: Msg)
    requires |xs| == |es| > 0
    ensures (forall n :: FieldIn(m, n) == Held(s, message, es, xs, st.msg, n, |es|))
       <==> (forall n :: FieldIn(m, n) == Held(s, message, es[1..], xs[1..], After(s, message, es[0], xs[0], st).msg, n, |es| - 1))
  {
    forall n
      ensures Held(s, message, es, xs, st.msg, n, |es|)
           == Held(s, message, es[1..], xs[1..], After(s, message, es[0], xs[0], st).msg, n, |es| - 1)
    {
      HeldOn(s, message, es, xs, st, n, |es|);
    }
    hide Held, After, FieldIn;
  }

  lemma {:induction false} JoinsOn(c: Config, message: string, es: seq<Entry>, xs: seq<Val>, st: State, i: nat)
    requires |xs| == |es| && i + 1 < |es|
    ensures JoinsAt(c, message, es, xs, st.msg, i + 1)
       <==> JoinsAt(c, message, es[1..], xs[1..], After(c.schema, message, es[0], xs[0], st).msg, i)
  {
    assert es[i + 1] == es[1..][i] && xs[i + 1] == xs[1..][i];
    var fd := Target(c.schema, message, es[i + 1]);
    if fd.Some? {
      HeldOn(c.schema, message, es, xs, st, fd.value.name, i + 1);
    }
    hide Held, After, Joins, Target;
  }

  lemma {:induction false} JoinsFirst(c: Config, message: string, es: seq<Entry>, xs: seq<Val>, st: State)
    requires |xs| == |es| > 0
    ensures JoinsAt(c, message, es, xs, st.msg, 0) <==> JoinsNow(c, message, es[0], xs[0], st)
  {
    hide Joins, Target;
  }

  lemma {:induction false} JoinsAll(c: Config, message: string, es: seq<Entry>, xs: seq<Val>, st: State)
    requires |xs| == |es| > 0
    ensures (forall i :: 0 <= i < |es| ==> JoinsAt(c, message, es, xs, st.msg, i))
       <==> && JoinsNow(c, message, es[0], xs[0], st)
            && forall i :: 0 <= i < |es| - 1 ==> JoinsAt(c, message, es[1..], xs[1..], After(c.schema, message, es[0], xs[0], st).msg, i)
  {
    hide *;
    var ys, msg := xs[1..], After(c.schema, message, es[0], xs[0], st).msg;
    JoinsFirst(c, message, es, xs, st);
    forall i | 0 < i < |es|
      ensures JoinsAt(c, message, es, xs, st.msg, i) <==> JoinsAt(c, message, es[1..], ys, msg, i - 1)
    {
      JoinsOn(c, message, es, xs, st, i - 1);
    }
    if forall i :: 0 <= i < |es| ==> JoinsAt(c, message, es, xs, st.msg, i) {
      forall i | 0 <= i < |es| - 1 ensures JoinsAt(c, message, es[1..], ys, msg, i) {
        assert JoinsAt(c, message, es, xs, st.msg, i + 1);
      }
    }
  }

  lemma {:induction false} MentionsAll(s: Schema, message: string, es: seq<Entry>, n: string)
    requires es != []
    ensures (exists i :: 0 <= i < |es| && Mentions(s, message, es[i], n))
       <==> Mentions(s, message, es[0], n) || exists i :: 0 <= i < |es[1..]| && Mentions(s, message, es[1..][i], n)
    ensures (exists i :: 0 <= i < |es| && Mentions(s, message, es[i], n) && Nulls(es[i]))
       <==> || (Mentions(s, message, es[0], n) && Nulls(es[0]))
            || exists i :: 0 <= i < |es[1..]| && Mentions(s, message, es[1..][i], n) && Nulls(es[1..][i])
  {
    hide Mentions, Nulls;
    if i :| 0 <= i < |es[1..]| && Mentions(s, message, es[1..][i], n) && Nulls(es[1..][i]) {
      assert es[i + 1] == es[1..][i];
    }
    if i :| 0 <= i < |es[1..]| && Mentions(s, message, es[1..][i], n) {
      assert es[i + 1] == es[1..][i];
    }
    if i :| 0 < i < |es| && Mentions(s, message, es[i], n) && Nulls(es[i]) {
      assert es[i] == es[1..][i - 1];
    }
    if i :| 0 < i < |es| && Mentions(s, message, es[i], n) {
      assert es[i] == es[1..][i - 1];
    }
  }

  lemma {:induction false} PresentAll(s: Schema, message: string, es: seq<Entry>, x: Val, st: State, n: string)
    requires es != []
    ensures var msg := After(s, message, es[0], x, st).msg;
            && (n in msg.present <==> n in st.msg.present || Mentions(s, message, es[0], n))
            && (n in msg.nulls <==> n in st.msg.nulls || (Mentions(s, message, es[0], n) && Nulls(es[0])))
  {
    hide Joined, Target;
  }

  lemma {:induction false} ClashAll(s: Schema, message: string, es: seq<Entry>)
    requires es != []
    ensures (forall i, j :: 0 <= i < j < |es| ==> !Clash(s, message, es[i], es[j]))
       <==> && (forall j :: 0 <= j < |es[1..]| ==> !Clash(s, message, es[0], es[1..][j]))
            && forall i, j :: 0 <= i < j < |es[1..]| ==> !Clash(s, message, es[1..][i], es[1..][j])
  {
    hide Clash;
    assert forall j :: 0 <= j < |es[1..]| ==> es[1..][j] == es[j + 1];
    if (forall j :: 0 <= j < |es[1..]| ==> !Clash(s, message, es[0], es[1..][j]))
       && forall i, j :: 0 <= i < j < |es[1..]| ==> !Clash(s, message, es[1..][i], es[1..][j]) {
      forall i, j | 0 <= i < j < |es| ensures !Clash(s, message, es[i], es[j]) {
        assert es[j] == es[1..][j - 1];
        if i > 0 {
          assert es[i] == es[1..][i - 1];
        }
      }
    }
  }

  lemma {:induction false} FreeAll(s: Schema, message: string, es: seq<Entry>, x: Val, st: State)
    requires es != []
    ensures (forall i :: 0 <= i < |es| ==> Free(s, message, es[i], st)) && (forall j :: 0 <= j < |es[1..]| ==> !Clash(s, message, es[0], es[1..][j]))
       <==> Free(s, message, es[0], st) && forall i :: 0 <= i < |es[1..]| ==> Free(s, message, es[1..][i], After(s, message, es[0], x, st))
  {
    forall j | 0 <= j < |es[1..]|
      ensures Free(s, message, es[1..][j], After(s, message, es[0], x, st)) <==> Free(s, message, es[j + 1], st) && !Clash(s, message, es[0], es[1..][j])
    {
      FreeOn(s, message, es[0], x, st, es[1..][j]);
    }
    hide Free, Clash, After;
    if Free(s, message, es[0], st) && forall i :: 0 <= i < |es[1..]| ==> Free(s, message, es[1..][i], After(s, message, es[0], x, st)) {
      forall i | 0 <= i < |es| ensures Free(s, message, es[i], st) {
        if i > 0 {
          assert Free(s, message, es[1..][i - 1], After(s, message, es[0], x, st));
        }
      }
    }
    if (forall i :: 0 <= i < |es| ==> Free(s, message, es[i], st)) && (forall j :: 0 <= j < |es[1..]| ==> !Clash(s, message, es[0], es[1..][j])) {
      forall i | 0 <= i < |es[1..]| ensures Free(s, message, es[1..][i], After(s, message, es[0], x, st)) {
        assert Free(s, message, es[i + 1], st);
      }
    }
  }

  predicate PresentAre(s: Schema, message: string, es: seq<Entry>, start: Msg, m: Msg, n: string) {
    && (n in m.present <==> n in start.present || exists i :: 0 <= i < |es| && Mentions(s, message, es[i], n))
    && (n in m.nulls <==> n in start.nulls || exists i :: 0 <= i < |es| && Mentions(s, message, es[i], n) && Nulls(es[i]))
  }

  lemma {:induction false} PresentOn(s: Schema, message: string, es: seq<Entry>, x: Val, st: State, m: Msg, n: string)
    requires es != []
    ensures PresentAre(s, message, es, st.msg, m, n)
       <==> PresentAre(s, message, es[1..], After(s, message, es[0], x, st).msg, m, n)
  {
    MentionsAll(s, message, es, n);
    PresentAll(s, message, es, x, st, n);
    hide After, Mentions, Nulls;
  }

  lemma {:induction false} OnwardIs(c: Config, message: string, es: seq<Entry>, xs: seq<Val>, st: State, m: Msg)
    requires |xs| == |es|
    ensures Onward(c, message, es, xs, st, m)
       <==> && (forall i :: 0 <= i < |es| ==> Free(c.schema, message, es[i], st))
            && (forall i, j :: 0 <= i < j < |es| ==> !Clash(c.schema, message, es[i], es[j]))
            && (forall i :: 0 <= i < |es| ==> JoinsAt(c, message, es, xs, st.msg, i))
            && (forall n :: FieldIn(m, n) == Held(c.schema, message, es, xs, st.msg, n, |es|))
            && forall n :: PresentAre(c.schema, message, es, st.msg, m, n)
  {
    hide Free, Clash, JoinsAt, FieldIn, Held, Mentions, Nulls;
    assert (forall n :: PresentAre(c.schema, message, es, st.msg, m, n)) ==>
      && (forall n :: n in m.present <==> n in st.msg.present || exists i :: 0 <= i < |es| && Mentions(c.schema, message, es[i], n))
      && (forall n :: n in m.nulls <==> n in st.msg.nulls || exists i :: 0 <= i < |es| && Mentions(c.schema, message, es[i], n) && Nulls(es[i]))
    by {
      if forall n :: PresentAre(c.schema, message, es, st.msg, m, n) {
        forall n ensures n in m.present <==> n in st.msg.present || exists i :: 0 <= i < |es| && Mentions(c.schema, message, es[i], n) {
          assert PresentAre(c.schema, message, es, st.msg, m, n);
        }
        forall n ensures n in m.nulls <==> n in st.msg.nulls || exists i :: 0 <= i < |es| && Mentions(c.schema, message, es[i], n) && Nulls(es[i]) {
          assert PresentAre(c.schema, message, es, st.msg, m, n);
        }
      }
    }
  }

  /** Entries fit together after what is bound exactly when the first does and the
      rest do after it. */
  lemma {:induction false} OnwardOn(c: Config, message: string, es: seq<Entry>, xs: seq<Val>, st: State, m: Msg)
    requires |xs| == |es| > 0
    ensures Onward(c, message, es, xs, st, m)
       <==> && Free(c.schema, message, es[0], st) && JoinsNow(c, message, es[0], xs[0], st)
            && Onward(c, message, es[1..], xs[1..], After(c.schema, message, es[0], xs[0], st), m)
  {
    var st' := After(c.schema, message, es[0], xs[0], st);
    OnwardIs(c, message, es, xs, st, m);
    OnwardIs(c, message, es[1..], xs[1..], st', m);
    FreeAll(c.schema, message, es, xs[0], st);
    ClashAll(c.schema, message, es);
    JoinsAll(c, message, es, xs, st);
    HeldAll(c.schema, message, es, xs, st, m);
    forall n ensures PresentAre(c.schema, message, es, st.msg, m, n) <==> PresentAre(c.schema, message, es[1..], st'.msg, m, n) {
      PresentOn(c.schema, message, es, xs[0], st, m, n);
    }
    hide Onward, Free, Clash, JoinsAt, JoinsNow, FieldIn, Held, PresentAre, After;
  }
}
