/** The decoder reads of a document exactly what it means. */
module DecodedMeaning {
  import opened Options
  import opened PxfDocument
  import opened PxfDecoder
  import opened PxfMeaning

  // Dropped values.

  lemma {:induction false} FitsExactly(v: Value, room: nat)
    ensures ValueFits(v, room) <==> Depth(v) <= room
    decreases v, 0
  {
    match v
    case Lit(_) =>
    case Null =>
    case List(vs) => if room > 0 { ValuesFit(vs, room - 1); }
    case Braces(es) => if room > 0 { EntriesFit(es, room - 1); }
  }

  lemma {:induction false} ValuesFit(vs: seq<Value>, room: nat)
    ensures (forall i :: 0 <= i < |vs| ==> ValueFits(vs[i], room)) <==> DeepestValue(vs) <= room
    decreases vs, 1
  {
    if vs != [] {
      FitsExactly(vs[0], room);
      ValuesFit(vs[1..], room);
      assert forall i :: 1 <= i < |vs| ==> vs[i] == vs[1..][i - 1];
    }
  }

  lemma {:induction false} EntryFitsExactly(e: Entry, room: nat)
    ensures EntryFits(e, room) <==> EntryDepth(e) <= room
    decreases e, 0
  {
    match e
    case Assignment(_, _, v) => FitsExactly(v, room);
    case MapEntry(_, _, v) => FitsExactly(v, room);
    case Block(_, _, es) => if room > 0 { EntriesFit(es, room - 1); }
    case TypeEntry(_) =>
  }

  lemma {:induction false} EntriesFit(es: seq<Entry>, room: nat)
    ensures (forall i :: 0 <= i < |es| ==> EntryFits(es[i], room)) <==> DeepestEntry(es) <= room
    decreases es, 1
  {
    if es != [] {
      EntryFitsExactly(es[0], room);
      EntriesFit(es[1..], room);
      assert forall i :: 1 <= i < |es| ==> es[i] == es[1..][i - 1];
    }
  }

  // Single values and bodies.

  lemma {:induction false} SingleExactly(c: Config, kind: Kind, v: Value, ke: Keyed, room: nat, x: Val)
    ensures OneValue(c, kind, v, ke, room) == Some(x) <==> Single(c, kind, v, ke, room, x)
    decreases v, 3
  {
    if v.Braces? && kind.MessageKind? && x.VMsg? {
      InsideExactly(c, kind.name, v.entries, ke, EMPTY, room, x.msg);
    }
    hide InBraces, Inside;
  }

  lemma {:induction false} InsideExactly(c: Config, message: string, es: seq<Entry>, ke: Keyed, start: Msg, room: nat, m: Msg)
    ensures InBraces(c, message, es, start, ke, room) == Some(m) <==> Inside(c, message, es, ke, start, room, m)
    decreases es, 3
  {
    if room > 0 && es != [] && es[0].TypeEntry? && message == ANY {
      var payload := c.schema.resolve(es[0].url);
      if payload.Some? {
        var inner := InBraces(c, payload.value, es[1..], EMPTY, ke, room);
        if inner.Some? {
          InsideExactly(c, payload.value, es[1..], ke, EMPTY, room, inner.value);
        }
        if "value" in m.fields && m.fields["value"].VPacked? {
          InsideExactly(c, payload.value, es[1..], ke, EMPTY, room, m.fields["value"].msg);
        }
      }
    } else if room > 0 {
      BodyExactly(c, message, es, ke, start, room - 1, m);
    }
    hide Fields, Body;
  }

  lemma {:induction false} BodyExactly(c: Config, message: string, es: seq<Entry>, ke: Keyed, start: Msg, room: nat, m: Msg)
    ensures Fields(c, message, es, Start(start), ke, room) == Some(m) <==> Body(c, message, es, ke, start, room, m)
    decreases es, 2
  {
    FieldsExactly(c, message, es, ke, Start(start), room, m);
    forall xs: seq<Val> | |xs| == |es|
      ensures Onward(c, message, es, xs, Start(start), m) <==> Together(c, message, es, xs, start, m)
    {
      FromStart(c, message, es, xs, start, m);
    }
    forall xs: seq<Val> | AllRead(c, message, es, ke, room, xs) ensures |xs| == |es| {
      hide Reads;
    }
    hide Fields, AllRead, Together, Onward;
  }

  lemma {:induction false} FromStart(c: Config, message: string, es: seq<Entry>, xs: seq<Val>, start: Msg, m: Msg)
    requires |xs| == |es|
    ensures Onward(c, message, es, xs, Start(start), m) <==> Together(c, message, es, xs, start, m)
  {
    forall i | 0 <= i < |es| ensures Free(c.schema, message, es[i], Start(start)) {
      hide Target, Takes;
    }
    hide Together, Free;
  }

  lemma {:induction false} FieldsExactly(c: Config, message: string, es: seq<Entry>, ke: Keyed, st: State, room: nat, m: Msg)
    ensures Fields(c, message, es, st, ke, room) == Some(m)
       <==> exists xs: seq<Val> :: AllRead(c, message, es, ke, room, xs) && Onward(c, message, es, xs, st, m)
    decreases es, 1
  {
    if es == [] {
      TogetherNone(c, message, st.msg, m);
      assert m == st.msg ==> AllRead(c, message, es, ke, room, []) && Onward(c, message, es, [], st, m);
      assert forall xs: seq<Val> | |xs| == 0 :: xs == [];
    } else {
      hide Step, Onward, AllRead, After;
      if Fields(c, message, es, st, ke, room) == Some(m) {
        var st' := Step(c, message, es[0], st, ke, room).value;
        StepExactly(c, message, es[0], st, ke, room, st');
        var x :| Stepped(c, message, es[0], st, ke, room, x, st');
        FieldsExactly(c, message, es[1..], ke, st', room, m);
        hide Fields;
        var xs: seq<Val> :| AllRead(c, message, es[1..], ke, room, xs) && Onward(c, message, es[1..], xs, st', m);
        AllReadOn(c, message, es, ke, room, [x] + xs);
        assert ([x] + xs)[1..] == xs;
        OnwardOn(c, message, es, [x] + xs, st, m);
      }
      if xs: seq<Val> :| AllRead(c, message, es, ke, room, xs) && Onward(c, message, es, xs, st, m) {
        AllReadOn(c, message, es, ke, room, xs);
        OnwardOn(c, message, es, xs, st, m);
        var st' := After(c.schema, message, es[0], xs[0], st);
        assert Stepped(c, message, es[0], st, ke, room, xs[0], st');
        StepExactly(c, message, es[0], st, ke, room, st');
        FieldsExactly(c, message, es[1..], ke, st', room, m);
      }
    }
  }

  lemma {:induction false} AllReadOn(c: Config, message: string, es: seq<Entry>, ke: Keyed, room: nat, xs: seq<Val>)
    requires es != []
    ensures AllRead(c, message, es, ke, room, xs) ==> |xs| == |es|
    ensures |xs| == |es| ==>
      (AllRead(c, message, es, ke, room, xs) <==> Reads(c, message, es[0], ke, room, xs[0]) && AllRead(c, message, es[1..], ke, room, xs[1..]))
  {
    hide Reads;
    if |xs| == |es| {
      assert forall i :: 0 <= i < |es[1..]| ==> es[1..][i] == es[i + 1] && xs[1..][i] == xs[i + 1];
      assert forall i :: 0 < i < |es| ==> es[i] == es[1..][i - 1] && xs[i] == xs[1..][i - 1];
    }
  }

  /** One entry read after what is bound. */
  ghost predicate Stepped(c: Config, message: string, e: Entry, st: State, ke: Keyed, room: nat, x: Val, st': State) {
    && Reads(c, message, e, ke, room, x) && Free(c.schema, message, e, st) && JoinsNow(c, message, e, x, st)
    && st' == After(c.schema, message, e, x, st)
  }

  /** The entry's value joins what the field holds. */
  ghost predicate Joining(c: Config, fd: Field, held: Option<Val>, x: Val, y: Val) {
    Joins(c, fd.shape, held, x) && y == Joined(fd.shape, held, x)
  }

  lemma {:induction false} StepExactly(c: Config, message: string, e: Entry, st: State, ke: Keyed, room: nat, st': State)
    ensures Step(c, message, e, st, ke, room) == Some(st') <==> exists x :: Stepped(c, message, e, st, ke, room, x, st')
    decreases e, 6
  {
    if Names(e) {
      var fd := FieldNamed(c.schema, message, NameOf(e));
      if fd.None? {
        if e.Block? {
          FitsExactly(Braces(e.entries), room);
        } else {
          FitsExactly(e.value, room);
        }
        Dropped(c, message, e, st, ke, room, VString(""));
        hide Step, Stepped;
        assert Step(c, message, e, st, ke, room) == Some(st') ==> Stepped(c, message, e, st, ke, room, VString(""), st');
        forall x | Stepped(c, message, e, st, ke, room, x, st') ensures Step(c, message, e, st, ke, room) == Some(st') {
          Dropped(c, message, e, st, ke, room, x);
        }
      } else if e.Assignment? {
        AssignExactly(c, message, e, fd.value, st, ke, room, st');
      } else {
        BlockExactly(c, message, e, fd.value, st, ke, room, st');
      }
    } else {
      hide After, Free, JoinsNow;
    }
  }

  lemma {:induction false} Dropped(c: Config, message: string, e: Entry, st: State, ke: Keyed, room: nat, x: Val)
    requires Names(e) && FieldNamed(c.schema, message, NameOf(e)).None?
    requires e.Block? ==> (ValueFits(Braces(e.entries), room) <==> Depth(Braces(e.entries)) <= room)
    requires e.Assignment? ==> (ValueFits(e.value, room) <==> Depth(e.value) <= room)
    ensures forall st' :: Step(c, message, e, st, ke, room) == Some(st') <==> Stepped(c, message, e, st, ke, room, x, st')
  {
    assert e.Block? ==> EntryDepth(e) == Depth(Braces(e.entries));
    hide Depth, ValueFits, EntryDepth;
  }

  lemma {:induction false} AssignExactly(c: Config, message: string, e: Entry, fd: Field, st: State, ke: Keyed, room: nat, st': State)
    requires e.Assignment? && FieldNamed(c.schema, message, e.key) == Some(fd)
    ensures Step(c, message, e, st, ke, room) == Some(st') <==> exists x :: Stepped(c, message, e, st, ke, room, x, st')
    decreases e, 5
  {
    if e.value.Null? {
      Nulled(c, message, e, fd, st, ke, room, VString(""));
      hide Step, Stepped;
      assert Step(c, message, e, st, ke, room) == Some(st') ==> Stepped(c, message, e, st, ke, room, VString(""), st');
      forall x | Stepped(c, message, e, st, ke, room, x, st') ensures Step(c, message, e, st, ke, room) == Some(st') {
        Nulled(c, message, e, fd, st, ke, room, x);
      }
    } else {
      forall y ensures FieldValue(c, fd, e.value, st.msg, room) == Some(y)
        <==> exists x :: Written(c, fd, e.value, room, x) && Joining(c, fd, FieldIn(st.msg, fd.name), x, y)
      {
        FieldValueExactly(c, fd, e.value, st.msg, room, y);
      }
      AssignStep(c, message, e, fd, st, ke, room, st');
      forall x ensures Stepped(c, message, e, st, ke, room, x, st')
        <==> && Open(e, fd, message, ke, st) && Written(c, fd, e.value, room, x)
             && Gives(c, e, fd, st, x, st')
      {
        AssignRead(c, message, e, fd, st, ke, room, x, st');
      }
      hide *;
      if Step(c, message, e, st, ke, room) == Some(st') {
        var y := FieldValue(c, fd, e.value, st.msg, room).value;
        var x :| Written(c, fd, e.value, room, x) && Joining(c, fd, FieldIn(st.msg, fd.name), x, y);
        GivenIs(c, e, fd, st, x, y, st');
      }
      forall x | Stepped(c, message, e, st, ke, room, x, st') ensures Step(c, message, e, st, ke, room) == Some(st') {
        var y := GivesIs(c, e, fd, st, x, st');
        assert FieldValue(c, fd, e.value, st.msg, room) == Some(y);
      }
    }
  }

  /** The state once the field holds a value. */
  function Given(e: Entry, fd: Field, st: State, y: Val): State {
    (if Takes(e, fd) then Bind(st, fd) else st).(msg := Put(Mark(st.msg, fd.name), fd.name, y))
  }

  /** The entry may stand, its field free. */
  predicate Open(e: Entry, fd: Field, message: string, ke: Keyed, st: State)
    requires Names(e)
  {
    !e.quoted && Allowed(ke, message, fd, e) && (Takes(e, fd) ==> Unbound(st, fd))
  }

  predicate Gives(c: Config, e: Entry, fd: Field, st: State, x: Val, st': State) {
    Joins(c, fd.shape, FieldIn(st.msg, fd.name), x) && st' == Given(e, fd, st, Joined(fd.shape, FieldIn(st.msg, fd.name), x))
  }

  lemma {:induction false} GivenIs(c: Config, e: Entry, fd: Field, st: State, x: Val, y: Val, st': State)
    requires Joining(c, fd, FieldIn(st.msg, fd.name), x, y)
    ensures Gives(c, e, fd, st, x, st') <==> st' == Given(e, fd, st, y)
  {
    hide Joins, Joined;
  }

  lemma {:induction false} GivesIs(c: Config, e: Entry, fd: Field, st: State, x: Val, st': State) returns (y: Val)
    requires Gives(c, e, fd, st, x, st')
    ensures Joining(c, fd, FieldIn(st.msg, fd.name), x, y) && st' == Given(e, fd, st, y)
  {
    hide Joins, Joined;
    y := Joined(fd.shape, FieldIn(st.msg, fd.name), x);
  }

  lemma {:induction false} AssignStep(c: Config, message: string, e: Entry, fd: Field, st: State, ke: Keyed, room: nat, st': State)
    requires e.Assignment? && FieldNamed(c.schema, message, e.key) == Some(fd) && !e.value.Null?
    ensures Step(c, message, e, st, ke, room) == Some(st') <==>
              && Open(e, fd, message, ke, st) && FieldValue(c, fd, e.value, st.msg, room).Some?
              && st' == Given(e, fd, st, FieldValue(c, fd, e.value, st.msg, room).value)
  {
    hide FieldValue, Unbound;
    assert Bind(st, fd).msg == st.msg;
  }

  lemma {:induction false} AssignRead(c: Config, message: string, e: Entry, fd: Field, st: State, ke: Keyed, room: nat, x: Val, st': State)
    requires e.Assignment? && FieldNamed(c.schema, message, e.key) == Some(fd) && !e.value.Null?
    ensures Stepped(c, message, e, st, ke, room, x, st')
       <==> Open(e, fd, message, ke, st) && Written(c, fd, e.value, room, x) && Gives(c, e, fd, st, x, st')
  {
    hide Written, Joins, Joined, Unbound, Allowed;
    assert Bind(st, fd).msg == st.msg;
  }

  lemma {:induction false} Nulled(c: Config, message: string, e: Entry, fd: Field, st: State, ke: Keyed, room: nat, x: Val)
    requires e.Assignment? && FieldNamed(c.schema, message, e.key) == Some(fd) && e.value.Null?
    ensures forall st' :: Step(c, message, e, st, ke, room) == Some(st') <==> Stepped(c, message, e, st, ke, room, x, st')
  {
    hide Written;
    assert Target(c.schema, message, e) == Some(fd);
    assert Bind(st, fd).msg == st.msg;
    assert BindingAllowed(ke, message, fd, true) <==> Allowed(ke, message, fd, e);
    hide BindingAllowed, Allowed;
    var st'' := After(c.schema, message, e, x, st);
    assert st'' == Bind(st, fd).(msg := MarkNull(st.msg, fd.name));
    assert Free(c.schema, message, e, st) <==> Unbound(st, fd);
    hide After, Free, Unbound;
  }

  lemma {:induction false} BlockExactly(c: Config, message: string, e: Entry, fd: Field, st: State, ke: Keyed, room: nat, st': State)
    requires e.Block? && FieldNamed(c.schema, message, e.name) == Some(fd)
    ensures Step(c, message, e, st, ke, room) == Some(st') <==> exists x :: Stepped(c, message, e, st, ke, room, x, st')
    decreases e, 5
  {
    var value := BracedValue(c, fd, e.entries, st.msg, room);
    forall y ensures value == Some(y)
      <==> exists x :: Braced(c, fd, e.entries, room, x) && Joining(c, fd, FieldIn(st.msg, fd.name), x, y)
    {
      BracedExactly(c, fd, e.entries, st.msg, room, y);
    }
    BlockStep(c, message, e, fd, st, ke, room, st');
    forall x ensures Stepped(c, message, e, st, ke, room, x, st')
      <==> && Open(e, fd, message, ke, st) && !fd.shape.MapOf? && Braced(c, fd, e.entries, room, x)
           && Gives(c, e, fd, st, x, st')
    {
      BlockRead(c, message, e, fd, st, ke, room, x, st');
    }
    hide *;
    if Step(c, message, e, st, ke, room) == Some(st') {
      var x :| Braced(c, fd, e.entries, room, x) && Joining(c, fd, FieldIn(st.msg, fd.name), x, value.value);
      GivenIs(c, e, fd, st, x, value.value, st');
    }
    forall x | Stepped(c, message, e, st, ke, room, x, st') ensures Step(c, message, e, st, ke, room) == Some(st') {
      var y := GivesIs(c, e, fd, st, x, st');
      assert value == Some(y);
    }
  }

  lemma {:induction false} BlockStep(c: Config, message: string, e: Entry, fd: Field, st: State, ke: Keyed, room: nat, st': State)
    requires e.Block? && FieldNamed(c.schema, message, e.name) == Some(fd)
    ensures Step(c, message, e, st, ke, room) == Some(st') <==>
              && Open(e, fd, message, ke, st) && !fd.shape.MapOf? && BracedValue(c, fd, e.entries, st.msg, room).Some?
              && st' == Given(e, fd, st, BracedValue(c, fd, e.entries, st.msg, room).value)
  {
    hide KeyedBlock, InBraces, Unbound;
    assert Bind(st, fd).msg == st.msg;
  }

  lemma {:induction false} BlockRead(c: Config, message: string, e: Entry, fd: Field, st: State, ke: Keyed, room: nat, x: Val, st': State)
    requires e.Block? && FieldNamed(c.schema, message, e.name) == Some(fd)
    ensures Stepped(c, message, e, st, ke, room, x, st')
       <==> && Open(e, fd, message, ke, st) && !fd.shape.MapOf? && Braced(c, fd, e.entries, room, x)
            && Gives(c, e, fd, st, x, st')
  {
    hide Braced, Joins, Joined, Unbound, Allowed;
    assert Bind(st, fd).msg == st.msg;
  }

  /** What the decoder reads braces given to a field as. */
  function BracedValue(c: Config, fd: Field, es: seq<Entry>, m: Msg, room: nat): Option<Val> {
    match fd.shape
    case Singular =>
      if !fd.kind.MessageKind? then None
      else (match InBraces(c, fd.kind.name, es, EMPTY, NotKeyed, room) case None => None case Some(sub) => Some(VMsg(sub)))
    case Repeated =>
      if KeyField(c.schema, fd).None? then None else KeyedBlock(c, fd, KeyField(c.schema, fd).value, es, m, room)
    case MapOf =>
      if room == 0 then None
      else (match MapBody(c, fd, es, ExistingMap(m, fd.name), room - 1) case None => None case Some(table) => Some(VMap(table)))
  }

  lemma {:induction false} BracesGiven(c: Config, fd: Field, es: seq<Entry>, m: Msg, room: nat)
    ensures FieldValue(c, fd, Braces(es), m, room) == BracedValue(c, fd, es, m, room)
  {
    hide InBraces, KeyedBlock, MapBody;
  }

  lemma {:induction false} FieldValueExactly(c: Config, fd: Field, v: Value, m: Msg, room: nat, y: Val)
    ensures FieldValue(c, fd, v, m, room) == Some(y)
       <==> exists x :: Written(c, fd, v, room, x) && Joining(c, fd, FieldIn(m, fd.name), x, y)
    decreases v, 6
  {
    match v
    case Null =>
    case Lit(_) =>
      SingleExactly(c, fd.kind, v, NotKeyed, room, y);
      hide OneValue, Single;
      assert Single(c, fd.kind, v, NotKeyed, room, y) && fd.shape.Singular? ==> Written(c, fd, v, room, y) && Joining(c, fd, FieldIn(m, fd.name), y, y);
    case Braces(es) =>
      BracedExactly(c, fd, es, m, room, y);
      BracesGiven(c, fd, es, m, room);
      hide FieldValue, Braced, Joining, BracedValue;
    case List(vs) =>
      if fd.shape.Repeated? && room > 0 {
        ListExactly(c, fd, vs, m, room, y);
      }
      hide Elements, Joining;
  }

  lemma {:induction false} ListExactly(c: Config, fd: Field, vs: seq<Value>, m: Msg, room: nat, y: Val)
    requires fd.shape.Repeated? && room > 0
    ensures FieldValue(c, fd, List(vs), m, room) == Some(y)
       <==> exists x :: Written(c, fd, List(vs), room, x) && Joining(c, fd, FieldIn(m, fd.name), x, y)
    decreases vs, 1
  {
    hide *;
    var acc := ExistingList(m, fd.name);
    ListValue(c, fd, vs, m, room, y);
    if y.VList? {
      ElementsExactly(c, fd, vs, acc, room - 1, y.list);
    }
    if FieldValue(c, fd, List(vs), m, room) == Some(y) {
      var x := VList(y.list[|acc|..]);
      assert Appends(c, acc, x.list, y.list) by { AppendsRest(c, acc, |vs|, y.list); }
      ListIs(c, fd, vs, room, x);
      ListJoins(c, fd, m, x.list, y);
      assert Written(c, fd, List(vs), room, x) && Joining(c, fd, FieldIn(m, fd.name), x, y);
    }
    forall x | Written(c, fd, List(vs), room, x) && Joining(c, fd, FieldIn(m, fd.name), x, y)
      ensures FieldValue(c, fd, List(vs), m, room) == Some(y)
    {
      ListIs(c, fd, vs, room, x);
      ListJoins(c, fd, m, x.list, y);
      AppendsIs(c, acc, x.list, y.list);
    }
  }

  lemma {:induction false} ListValue(c: Config, fd: Field, vs: seq<Value>, m: Msg, room: nat, y: Val)
    requires fd.shape.Repeated? && room > 0
    ensures FieldValue(c, fd, List(vs), m, room) == Some(y)
       <==> y.VList? && Elements(c, fd, vs, ExistingList(m, fd.name), room - 1) == Some(y.list)
  {
    hide Elements, ExistingList;
  }

  lemma {:induction false} ListIs(c: Config, fd: Field, vs: seq<Value>, room: nat, x: Val)
    requires fd.shape.Repeated? && room > 0
    ensures Written(c, fd, List(vs), room, x) <==>
              && x.VList? && |x.list| == |vs|
              && forall i :: 0 <= i < |vs| ==> Single(c, fd.kind, vs[i], ListElement(c, fd), room - 1, x.list[i])
  {
    hide Single;
  }

  /** The list with more at its end, the limit kept. */
  predicate Appends(c: Config, held: seq<Val>, list: seq<Val>, whole: seq<Val>) {
    whole == held + list && (list != [] ==> |whole| <= c.maxCount)
  }

  lemma {:induction false} AppendsRest(c: Config, held: seq<Val>, n: nat, whole: seq<Val>)
    requires |whole| == |held| + n && held <= whole && (n > 0 ==> |whole| <= c.maxCount)
    ensures Appends(c, held, whole[|held|..], whole)
  {}

  lemma {:induction false} AppendsIs(c: Config, held: seq<Val>, list: seq<Val>, whole: seq<Val>)
    requires Appends(c, held, list, whole)
    ensures |whole| == |held| + |list| && held <= whole && whole[|held|..] == list
    ensures |list| > 0 ==> |whole| <= c.maxCount
    ensures forall i :: 0 <= i < |list| ==> whole[|held| + i] == list[i]
  {}

  lemma {:induction false} ListJoins(c: Config, fd: Field, m: Msg, list: seq<Val>, y: Val)
    requires fd.shape.Repeated?
    ensures Joining(c, fd, FieldIn(m, fd.name), VList(list), y) <==> y.VList? && Appends(c, ExistingList(m, fd.name), list, y.list)
  {
    assert HeldList(FieldIn(m, fd.name)) == ExistingList(m, fd.name);
    hide HeldList, ExistingList, FieldIn;
  }

  lemma {:induction false} BracedExactly(c: Config, fd: Field, es: seq<Entry>, m: Msg, room: nat, y: Val)
    ensures BracedValue(c, fd, es, m, room) == Some(y)
       <==> exists x :: Braced(c, fd, es, room, x) && Joining(c, fd, FieldIn(m, fd.name), x, y)
    decreases es, 5
  {
    match fd.shape
    case Singular =>
      if fd.kind.MessageKind? && y.VMsg? {
        InsideExactly(c, fd.kind.name, es, NotKeyed, EMPTY, room, y.msg);
      }
      InsideRoom(c, fd.kind, es, room, y);
      hide InBraces, Inside;
      assert Braced(c, fd, es, room, y) ==> Joining(c, fd, FieldIn(m, fd.name), y, y);
    case Repeated =>
      if KeyField(c.schema, fd).Some? && room > 0 {
        NamedListExactly(c, fd, es, m, room, y);
      }
      hide KeyedBlock, NamedElements, KeyField;
    case MapOf =>
      if room > 0 {
        TableExactly(c, fd, es, m, room, y);
      }
      hide MapBody, Pairs;
  }

  lemma {:induction false} TableExactly(c: Config, fd: Field, es: seq<Entry>, m: Msg, room: nat, y: Val)
    requires fd.shape.MapOf? && room > 0
    ensures BracedValue(c, fd, es, m, room) == Some(y)
       <==> exists x :: Braced(c, fd, es, room, x) && Joining(c, fd, FieldIn(m, fd.name), x, y)
    decreases es, 4
  {
    hide *;
    var held := ExistingMap(m, fd.name);
    TableValue(c, fd, es, m, room, y);
    BracedTable(c, fd, es, room);
    if y.VMap? {
      MapExactly(c, fd, es, held, room - 1, y.table);
    }
    if BracedValue(c, fd, es, m, room) == Some(y) {
      var table :| Pairs(c, fd, es, room - 1, table) && Merging(c, held, table, y.table);
      var x := VMap(table);
      assert x.table == table;
      TableJoins(c, fd, m, table, y);
      assert Braced(c, fd, es, room, x) && Joining(c, fd, FieldIn(m, fd.name), x, y);
    }
    forall x | Braced(c, fd, es, room, x) && Joining(c, fd, FieldIn(m, fd.name), x, y)
      ensures BracedValue(c, fd, es, m, room) == Some(y)
    {
      TableJoins(c, fd, m, x.table, y);
    }
  }

  lemma {:induction false} TableValue(c: Config, fd: Field, es: seq<Entry>, m: Msg, room: nat, y: Val)
    requires fd.shape.MapOf? && room > 0
    ensures BracedValue(c, fd, es, m, room) == Some(y) <==> y.VMap? && MapBody(c, fd, es, ExistingMap(m, fd.name), room - 1) == Some(y.table)
  {
    hide MapBody, ExistingMap;
  }

  lemma {:induction false} BracedTable(c: Config, fd: Field, es: seq<Entry>, room: nat)
    requires fd.shape.MapOf? && room > 0
    ensures forall x :: Braced(c, fd, es, room, x) <==> x.VMap? && Pairs(c, fd, es, room - 1, x.table)
  {
    hide Pairs;
  }

  lemma {:induction false} TableJoins(c: Config, fd: Field, m: Msg, table: map<nat, Val>, y: Val)
    requires fd.shape.MapOf?
    ensures Joining(c, fd, FieldIn(m, fd.name), VMap(table), y) <==> y.VMap? && Merging(c, ExistingMap(m, fd.name), table, y.table)
  {
    assert HeldMap(FieldIn(m, fd.name)) == ExistingMap(m, fd.name);
    hide HeldMap, ExistingMap, FieldIn;
  }

  lemma {:induction false} InsideRoom(c: Config, kind: Kind, es: seq<Entry>, room: nat, y: Val)
    ensures kind.MessageKind? && y.VMsg? && Inside(c, kind.name, es, NotKeyed, EMPTY, room, y.msg) ==> room > 0
  {}

  /** The merged map, no key given twice and the limit kept. */
  predicate Merging(c: Config, held: map<nat, Val>, table: map<nat, Val>, merged: map<nat, Val>) {
    && held.Keys !! table.Keys && merged == held + table
    && (table != map[] ==> |held| + |table| <= c.maxCount)
  }

  lemma {:induction false} NamedListExactly(c: Config, fd: Field, es: seq<Entry>, m: Msg, room: nat, y: Val)
    requires fd.shape.Repeated? && room > 0 && KeyField(c.schema, fd).Some?
    ensures BracedValue(c, fd, es, m, room) == Some(y)
       <==> exists x :: Braced(c, fd, es, room, x) && Joining(c, fd, FieldIn(m, fd.name), x, y)
    decreases es, 4
  {
    hide *;
    var acc, key := ExistingList(m, fd.name), KeyField(c.schema, fd).value;
    NamedValue(c, fd, es, m, room, y);
    if y.VList? {
      NamedExactly(c, fd, key, es, acc, {}, room - 1, y.list);
    }
    if BracedValue(c, fd, es, m, room) == Some(y) {
      ListedIs(c, fd, es, acc, room - 1, y.list);
      var x := VList(y.list[|acc|..]);
      assert Appends(c, acc, x.list, y.list) by { AppendsRest(c, acc, |es|, y.list); }
      NamedIs(c, fd, es, room, x);
      ListJoins(c, fd, m, x.list, y);
      assert Braced(c, fd, es, room, x) && Joining(c, fd, FieldIn(m, fd.name), x, y);
    }
    forall x | Braced(c, fd, es, room, x) && Joining(c, fd, FieldIn(m, fd.name), x, y)
      ensures BracedValue(c, fd, es, m, room) == Some(y)
    {
      NamedIs(c, fd, es, room, x);
      ListJoins(c, fd, m, x.list, y);
      ElementCount(c, fd, es, room - 1, x.list);
      AppendsIs(c, acc, x.list, y.list);
      ListedIs(c, fd, es, acc, room - 1, y.list);
    }
  }

  lemma {:induction false} ListedIs(c: Config, fd: Field, es: seq<Entry>, acc: seq<Val>, room: nat, list: seq<Val>)
    requires KeyField(c.schema, fd).Some?
    ensures Listed(c, fd, es, acc, {}, room, list)
       <==> |list| == |acc| + |es| && acc <= list && (es != [] ==> |list| <= c.maxCount) && NamedElements(c, fd, es, room, list[|acc|..])
  {
    hide NamedElement, KeyField;
  }

  lemma {:induction false} NamedValue(c: Config, fd: Field, es: seq<Entry>, m: Msg, room: nat, y: Val)
    requires fd.shape.Repeated? && room > 0 && KeyField(c.schema, fd).Some?
    ensures BracedValue(c, fd, es, m, room) == Some(y)
       <==> y.VList? && Named(c, fd, KeyField(c.schema, fd).value, es, ExistingList(m, fd.name), {}, room - 1) == Some(y.list)
  {
    hide Named, ExistingList, KeyField;
  }

  lemma {:induction false} NamedIs(c: Config, fd: Field, es: seq<Entry>, room: nat, x: Val)
    requires fd.shape.Repeated? && room > 0 && KeyField(c.schema, fd).Some?
    ensures Braced(c, fd, es, room, x) <==> x.VList? && NamedElements(c, fd, es, room - 1, x.list)
  {
    hide NamedElements, KeyField;
  }

  lemma {:induction false} ElementCount(c: Config, fd: Field, es: seq<Entry>, room: nat, list: seq<Val>)
    requires KeyField(c.schema, fd).Some? && NamedElements(c, fd, es, room, list)
    ensures |list| == |es|
  {}

  lemma {:induction false} NamedExactly(c: Config, fd: Field, key: Field, es: seq<Entry>, acc: seq<Val>, seen: set<string>, room: nat, list: seq<Val>)
    requires KeyField(c.schema, fd) == Some(key)
    ensures Named(c, fd, key, es, acc, seen, room) == Some(list) <==> Listed(c, fd, es, acc, seen, room, list)
    decreases es, 3
  {
    assert fd.kind.MessageKind?;
    hide *;
    hide KeyField, InBraces, NamedStart, NameOf, Spells, BodyOf;
    if es == [] {
      NamedNone(c, fd, key, acc, seen, room, list);
    } else if !Spells(es[0]) || NameOf(es[0]) == "" || NameOf(es[0]) in seen || |acc| >= c.maxCount {
      NamedStops(c, fd, key, es, acc, seen, room, list);
    } else {
      var e, name := es[0], NameOf(es[0]);
      var sub := InBraces(c, fd.kind.name, BodyOf(e), NamedStart(key, name), Keyed(fd.kind.name, key, name, true), room);
      NamedStep(c, fd, key, es, acc, seen, room);
      forall x ensures NamedElement(c, fd, e, room, x) <==> x.VMsg? && sub == Some(x.msg) {
        NamedElementExactly(c, fd, key, e, room, x);
      }
      if sub.Some? {
        NamedExactly(c, fd, key, es[1..], acc + [VMsg(sub.value)], seen + {name}, room, list);
      }
      ListedOn(c, fd, es, acc, seen, room, list, sub);
    }
  }

  /** The list goes on with the named elements, no name among those seen. */
  ghost predicate Listed(c: Config, fd: Field, es: seq<Entry>, acc: seq<Val>, seen: set<string>, room: nat, list: seq<Val>)
    requires KeyField(c.schema, fd).Some?
  {
    && |list| == |acc| + |es| && acc <= list && (es != [] ==> |list| <= c.maxCount)
    && NamedElements(c, fd, es, room, list[|acc|..])
    && forall i :: 0 <= i < |es| ==> NameOf(es[i]) !in seen
  }

  lemma {:induction false} ListedOn(c: Config, fd: Field, es: seq<Entry>, acc: seq<Val>, seen: set<string>, room: nat, list: seq<Val>, sub: Option<Msg>)
    requires KeyField(c.schema, fd).Some? && es != [] && Spells(es[0]) && NameOf(es[0]) !in seen && |acc| < c.maxCount
    requires forall x :: NamedElement(c, fd, es[0], room, x) <==> x.VMsg? && sub == Some(x.msg)
    ensures Listed(c, fd, es, acc, seen, room, list)
       <==> sub.Some? && Listed(c, fd, es[1..], acc + [VMsg(sub.value)], seen + {NameOf(es[0])}, room, list)
  {
    hide NamedElement, NamedElements, KeyField, Spells;
    if |list| == |acc| + |es| {
      NamedElementsOn(c, fd, es, room, list, |acc|);
    }
    if sub.Some? {
      assert acc + [VMsg(sub.value)] <= list <==> |list| > |acc| && acc <= list && list[|acc|] == VMsg(sub.value);
      assert |acc + [VMsg(sub.value)]| == |acc| + 1;
      assert forall i :: 0 < i < |es| ==> es[i] == es[1..][i - 1];
    }
  }

  lemma {:induction false} NamedNone(c: Config, fd: Field, key: Field, acc: seq<Val>, seen: set<string>, room: nat, list: seq<Val>)
    requires KeyField(c.schema, fd) == Some(key)
    ensures Named(c, fd, key, [], acc, seen, room) == Some(list) <==> Listed(c, fd, [], acc, seen, room, list)
  {
    hide KeyField;
    assert acc <= list && |list| == |acc| ==> list == acc;
  }

  /** An entry no element can be, one named again, or one past the limit. */
  lemma {:induction false} NamedStops(c: Config, fd: Field, key: Field, es: seq<Entry>, acc: seq<Val>, seen: set<string>, room: nat, list: seq<Val>)
    requires KeyField(c.schema, fd) == Some(key) && es != []
    requires !Spells(es[0]) || NameOf(es[0]) == "" || NameOf(es[0]) in seen || |acc| >= c.maxCount
    ensures Named(c, fd, key, es, acc, seen, room).None?
    ensures !Listed(c, fd, es, acc, seen, room, list)
  {
    hide Inside, InBraces, KeyField;
    if |list| == |acc| + |es| && NamedElements(c, fd, es, room, list[|acc|..]) {
      assert NamedElement(c, fd, es[0], room, list[|acc|..][0]);
      hide NamedElements;
    }
  }

  /** Spelled as a named element. */
  predicate Spells(e: Entry)
    ensures Spells(e) ==> Names(e)
  {
    Names(e) && (e.Assignment? ==> e.value.Braces?)
  }

  /** The entries a named element is written with. */
  function BodyOf(e: Entry): seq<Entry>
    requires Spells(e)
  {
    if e.Block? then e.entries else e.value.entries
  }

  lemma {:induction false} NamedStep(c: Config, fd: Field, key: Field, es: seq<Entry>, acc: seq<Val>, seen: set<string>, room: nat)
    requires KeyField(c.schema, fd) == Some(key) && es != [] && Spells(es[0])
    requires NameOf(es[0]) != "" && NameOf(es[0]) !in seen && |acc| < c.maxCount
    ensures Named(c, fd, key, es, acc, seen, room)
         == match InBraces(c, fd.kind.name, BodyOf(es[0]), NamedStart(key, NameOf(es[0])), Keyed(fd.kind.name, key, NameOf(es[0]), true), room)
            case None => None
            case Some(sub) => Named(c, fd, key, es[1..], acc + [VMsg(sub)], seen + {NameOf(es[0])}, room)
  {
    hide InBraces, KeyField;
  }

  lemma {:induction false} NamedElementExactly(c: Config, fd: Field, key: Field, e: Entry, room: nat, x: Val)
    requires KeyField(c.schema, fd) == Some(key) && Spells(e) && NameOf(e) != ""
    ensures NamedElement(c, fd, e, room, x) <==>
              x.VMsg? && InBraces(c, fd.kind.name, BodyOf(e), NamedStart(key, NameOf(e)), Keyed(fd.kind.name, key, NameOf(e), true), room) == Some(x.msg)
    decreases e, 1
  {
    var start, ke := NamedStart(key, NameOf(e)), Keyed(fd.kind.name, key, NameOf(e), true);
    assert start == Msg(map[key.name := VString(NameOf(e))], {key.name}, {});
    if x.VMsg? {
      if e.Block? {
        InsideExactly(c, fd.kind.name, e.entries, ke, start, room, x.msg);
      } else {
        InsideExactly(c, fd.kind.name, e.value.entries, ke, start, room, x.msg);
      }
    }
    hide Inside, InBraces, KeyField;
  }

  /** Names of a keyed block's entries: the first against the rest. */
  lemma {:induction false} NamedElementsOn(c: Config, fd: Field, es: seq<Entry>, room: nat, list: seq<Val>, n: nat)
    requires KeyField(c.schema, fd).Some? && es != [] && |list| == n + |es|
    ensures NamedElements(c, fd, es, room, list[n..]) <==>
              && NamedElement(c, fd, es[0], room, list[n]) && NamedElements(c, fd, es[1..], room, list[n + 1..])
              && forall i :: 0 <= i < |es| - 1 ==> NameOf(es[1..][i]) != NameOf(es[0])
  {
    hide NamedElement;
  }

  lemma {:induction false} MapExactly(c: Config, fd: Field, es: seq<Entry>, acc: map<nat, Val>, room: nat, merged: map<nat, Val>)
    ensures MapBody(c, fd, es, acc, room) == Some(merged)
       <==> exists table :: Pairs(c, fd, es, room, table) && Merging(c, acc, table, merged)
    decreases es, 3
  {
    KeyIsEntry(c, fd, es);
    hide *;
    hide KeyOf;
    if es == [] {
      MapEmpty(c, fd, acc, room, merged);
    } else if KeyOf(c, fd, es[0]).None? || |acc| >= c.maxCount || KeyOf(c, fd, es[0]).value in acc {
      MapStops(c, fd, es, acc, room, merged);
    } else {
      var k, value := KeyOf(c, fd, es[0]).value, OneValue(c, fd.kind, es[0].value, NotKeyed, room);
      forall x ensures value == Some(x) <==> Single(c, fd.kind, es[0].value, NotKeyed, room, x) {
        SingleExactly(c, fd.kind, es[0].value, NotKeyed, room, x);
      }
      MapStep(c, fd, es, acc, room);
      if value.Some? {
        MapExactly(c, fd, es[1..], acc[k := value.value], room, merged);
      }
      if MapBody(c, fd, es, acc, room) == Some(merged) {
        var rest :| Pairs(c, fd, es[1..], room, rest) && Merging(c, acc[k := value.value], rest, merged);
        KeysApart(c, acc, rest, k, value.value, merged);
        PairsAdd(c, fd, es, room, k, value.value, rest);
        MergingAdd(c, acc, rest, k, value.value, merged);
      }
      forall table | Pairs(c, fd, es, room, table) && Merging(c, acc, table, merged) ensures MapBody(c, fd, es, acc, room) == Some(merged) {
        PairsDrop(c, fd, es, room, k, table);
        var rest := table - {k};
        assert table == rest[k := table[k]];
        MergingAdd(c, acc, rest, k, table[k], merged);
      }
    }
  }

  lemma {:induction false} KeyIsEntry(c: Config, fd: Field, es: seq<Entry>)
    ensures es != [] && KeyOf(c, fd, es[0]).Some? ==> es[0].MapEntry?
  {}

  lemma {:induction false} MapEmpty(c: Config, fd: Field, acc: map<nat, Val>, room: nat, merged: map<nat, Val>)
    ensures MapBody(c, fd, [], acc, room) == Some(merged)
       <==> exists table :: Pairs(c, fd, [], room, table) && Merging(c, acc, table, merged)
  {
    var none: map<nat, Val> := map[];
    assert Pairs(c, fd, [], room, none);
    assert acc + none == acc;
    forall table | Pairs(c, fd, [], room, table) ensures table == none {
      assert forall k :: k !in table;
    }
    hide Pairs;
  }

  /** An entry that is none of the map's, or one past its limit, or a key again. */
  lemma {:induction false} MapStops(c: Config, fd: Field, es: seq<Entry>, acc: map<nat, Val>, room: nat, merged: map<nat, Val>)
    requires es != []
    requires KeyOf(c, fd, es[0]).None? || |acc| >= c.maxCount || KeyOf(c, fd, es[0]).value in acc
    ensures MapBody(c, fd, es, acc, room).None?
    ensures forall table :: !(Pairs(c, fd, es, room, table) && Merging(c, acc, table, merged))
  {
    hide OneValue, Single;
    forall table | Pairs(c, fd, es, room, table) ensures !Merging(c, acc, table, merged) {
      assert Pair(c, fd, es[0], room, table);
      var k := KeyOf(c, fd, es[0]).value;
      assert k in table && k in table.Keys && |table.Keys| > 0;
      hide Pairs, Pair, KeyOf;
    }
  }

  lemma {:induction false} KeysApart(c: Config, acc: map<nat, Val>, rest: map<nat, Val>, k: nat, x: Val, merged: map<nat, Val>)
    requires Merging(c, acc[k := x], rest, merged)
    ensures k !in rest
  {
    assert k in acc[k := x].Keys;
  }

  lemma {:induction false} MapStep(c: Config, fd: Field, es: seq<Entry>, acc: map<nat, Val>, room: nat)
    requires es != [] && KeyOf(c, fd, es[0]).Some? && |acc| < c.maxCount && KeyOf(c, fd, es[0]).value !in acc
    ensures MapBody(c, fd, es, acc, room)
         == match OneValue(c, fd.kind, es[0].value, NotKeyed, room)
            case None => None
            case Some(x) => MapBody(c, fd, es[1..], acc[KeyOf(c, fd, es[0]).value := x], room)
  {
    hide OneValue;
  }

  /** One key more in the entries is one more in the merged map. */
  lemma {:induction false} MergingAdd(c: Config, acc: map<nat, Val>, rest: map<nat, Val>, k: nat, x: Val, merged: map<nat, Val>)
    requires k !in acc && k !in rest && |acc| < c.maxCount
    ensures Merging(c, acc, rest[k := x], merged) <==> Merging(c, acc[k := x], rest, merged)
  {
    Reordered(acc, rest, k, x);
    KeysMoved(acc, rest, k, x);
    OneMore(acc, k, x);
    OneMore(rest, k, x);
    MergingIs(c, acc, rest[k := x], merged);
    MergingIs(c, acc[k := x], rest, merged);
    hide *;
  }

  lemma {:induction false} MergingIs(c: Config, acc: map<nat, Val>, table: map<nat, Val>, merged: map<nat, Val>)
    ensures Merging(c, acc, table, merged)
       <==> acc.Keys !! table.Keys && merged == acc + table && (|table| > 0 ==> |acc| + |table| <= c.maxCount)
  {
    assert table != map[] ==> exists k :: k in table.Keys;
  }

  lemma {:induction false} Reordered(acc: map<nat, Val>, rest: map<nat, Val>, k: nat, x: Val)
    requires k !in rest
    ensures acc + rest[k := x] == acc[k := x] + rest
  {}

  lemma {:induction false} KeysMoved(acc: map<nat, Val>, rest: map<nat, Val>, k: nat, x: Val)
    requires k !in acc && k !in rest
    ensures acc.Keys !! rest[k := x].Keys <==> acc[k := x].Keys !! rest.Keys
  {
    assert rest[k := x].Keys == rest.Keys + {k};
    assert acc[k := x].Keys == acc.Keys + {k};
  }

  lemma {:induction false} OneMore(table: map<nat, Val>, k: nat, x: Val)
    requires k !in table
    ensures |table[k := x]| == |table| + 1
  {
    assert table[k := x].Keys == table.Keys + {k};
    assert |table[k := x].Keys| == |table.Keys| + 1;
  }

  lemma {:induction false} PairsAdd(c: Config, fd: Field, es: seq<Entry>, room: nat, k: nat, x: Val, rest: map<nat, Val>)
    requires es != [] && KeyOf(c, fd, es[0]) == Some(k) && Single(c, fd.kind, es[0].value, NotKeyed, room, x)
    requires Pairs(c, fd, es[1..], room, rest) && k !in rest
    ensures Pairs(c, fd, es, room, rest[k := x])
  {
    var table := rest[k := x];
    hide Single;
    assert forall i :: 0 < i < |es| ==> es[i] == es[1..][i - 1];
    forall i | 0 <= i < |es| ensures Pair(c, fd, es[i], room, table) {
      if i > 0 {
        assert Pair(c, fd, es[1..][i - 1], room, rest);
      }
    }
    forall i, j | 0 <= i < j < |es| ensures KeyOf(c, fd, es[i]) != KeyOf(c, fd, es[j]) {
      assert Pair(c, fd, es[1..][j - 1], room, rest);
    }
    forall key | key in table ensures exists i :: 0 <= i < |es| && KeyOf(c, fd, es[i]) == Some(key) {
      if key != k {
        var i :| 0 <= i < |es[1..]| && KeyOf(c, fd, es[1..][i]) == Some(key);
        assert es[i + 1] == es[1..][i];
      }
    }
  }

  lemma {:induction false} PairsDrop(c: Config, fd: Field, es: seq<Entry>, room: nat, k: nat, table: map<nat, Val>)
    requires es != [] && KeyOf(c, fd, es[0]) == Some(k) && Pairs(c, fd, es, room, table)
    ensures k in table && Single(c, fd.kind, es[0].value, NotKeyed, room, table[k]) && Pairs(c, fd, es[1..], room, table - {k})
  {
    hide Single;
    var rest := table - {k};
    assert Pair(c, fd, es[0], room, table);
    assert forall i :: 0 <= i < |es[1..]| ==> es[1..][i] == es[i + 1];
    forall i | 0 <= i < |es[1..]| ensures Pair(c, fd, es[1..][i], room, rest) {
      assert Pair(c, fd, es[i + 1], room, table);
    }
    forall key | key in rest ensures exists i :: 0 <= i < |es[1..]| && KeyOf(c, fd, es[1..][i]) == Some(key) {
      var i :| 0 <= i < |es| && KeyOf(c, fd, es[i]) == Some(key);
      assert es[i] == es[1..][i - 1];
    }
  }

  lemma {:induction false} ElementsExactly(c: Config, fd: Field, vs: seq<Value>, acc: seq<Val>, room: nat, list: seq<Val>)
    requires fd.shape.Repeated?
    ensures Elements(c, fd, vs, acc, room) == Some(list) <==>
              && |list| == |acc| + |vs| && acc <= list && (vs != [] ==> |list| <= c.maxCount)
              && forall i :: 0 <= i < |vs| ==> Single(c, fd.kind, vs[i], ListElement(c, fd), room, list[|acc| + i])
    decreases vs, 0
  {
    hide OneValue, Single;
    if vs == [] {
      assert acc <= list && |list| == |acc| ==> list == acc;
    } else if |acc| < c.maxCount {
      var x := OneValue(c, fd.kind, vs[0], ListElement(c, fd), room);
      forall y ensures x == Some(y) <==> Single(c, fd.kind, vs[0], ListElement(c, fd), room, y) {
        SingleExactly(c, fd.kind, vs[0], ListElement(c, fd), room, y);
      }
      ElementsStep(c, fd, vs, acc, room);
      hide Elements;
      if x.Some? {
        ElementsExactly(c, fd, vs[1..], acc + [x.value], room, list);
        assert acc + [x.value] <= list <==> |list| > |acc| && acc <= list && list[|acc|] == x.value;
        assert forall i :: 0 < i < |vs| ==> vs[i] == vs[1..][i - 1];
      }
    }
  }

  lemma {:induction false} ElementsStep(c: Config, fd: Field, vs: seq<Value>, acc: seq<Val>, room: nat)
    requires fd.shape.Repeated? && vs != [] && |acc| < c.maxCount
    ensures Elements(c, fd, vs, acc, room)
         == match OneValue(c, fd.kind, vs[0], ListElement(c, fd), room)
            case None => None
            case Some(x) => Elements(c, fd, vs[1..], acc + [x], room)
  {
    hide OneValue;
  }

  /** A document decodes to a message exactly when its entries mean it. */
  lemma {:induction false} DecodesExactly(c: Config, message: string, es: seq<Entry>, maxDepth: nat, m: Msg)
    ensures Decode(c, message, es, maxDepth) == Some(m) <==> Body(c, message, es, NotKeyed, EMPTY, maxDepth, m)
  {
    BodyExactly(c, message, es, NotKeyed, EMPTY, maxDepth, m);
  }
}
