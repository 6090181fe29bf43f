/** Decoding a document against a schema, entry by entry. Every failure is None:
    which of its checks fails is not part of the result. */
module PxfDecoder {
  import opened Options
  import opened PxfDocument

  datatype Config = Config(schema: Schema, discardUnknown: bool, maxCount: nat)

  /** The checks the body of one element of a keyed field is under. */
  datatype Keyed = NotKeyed | Keyed(owner: string, key: Field, entryName: string, named: bool)

  /** One message body being read: the message so far, the singular fields bound
      and the oneofs chosen in it. */
  datatype State = State(msg: Msg, bound: set<string>, oneofs: set<string>)

  function Start(m: Msg): State {
    State(m, {}, {})
  }

  function Mark(m: Msg, name: string): Msg {
    m.(present := m.present + {name})
  }

  function MarkNull(m: Msg, name: string): Msg {
    m.(present := m.present + {name}, nulls := m.nulls + {name})
  }

  function Put(m: Msg, name: string, v: Val): Msg {
    m.(fields := m.fields[name := v])
  }

  function ExistingList(m: Msg, name: string): seq<Val> {
    if name in m.fields && m.fields[name].VList? then m.fields[name].list else []
  }

  function ExistingMap(m: Msg, name: string): map<nat, Val> {
    if name in m.fields && m.fields[name].VMap? then m.fields[name].table else map[]
  }

  // The checks.

  /** A named entry's body may not undo its name: no null on the key field, no
      other member of its oneof. */
  predicate BindingAllowed(ke: Keyed, message: string, fd: Field, isNull: bool) {
    ke.Keyed? && ke.named ==>
      if fd.name == ke.key.name then !isNull
      else !(RealOneof(fd).Some? && RealOneof(fd) == RealOneof(ke.key) && message == ke.owner)
  }

  /** An explicit key is not empty, and agrees with the entry name. */
  predicate ExplicitKeyAllowed(ke: Keyed, fd: Field, v: Value) {
    ke.Keyed? && fd.name == ke.key.name && v.Lit? && v.literal.Str? ==>
      v.literal.text != "" && (ke.named ==> v.literal.text == ke.entryName)
  }

  /** A singular field is bound once in a body, and one member of a oneof. */
  predicate Unbound(st: State, fd: Field) {
    && (fd.shape.Singular? ==> fd.name !in st.bound)
    && (fd.oneof.Some? ==> fd.oneof.value !in st.oneofs)
  }

  function Bind(st: State, fd: Field): State {
    st.(bound := if fd.shape.Singular? then st.bound + {fd.name} else st.bound,
        oneofs := if fd.oneof.Some? then st.oneofs + {fd.oneof.value} else st.oneofs)
  }

  /** Braces and brackets of a dropped value, within the depth left. */
  predicate ValueFits(v: Value, room: nat)
    decreases v
  {
    match v
    case Lit(_) => true
    case Null => true
    case List(vs) => room > 0 && forall i :: 0 <= i < |vs| ==> ValueFits(vs[i], room - 1)
    case Braces(es) => room > 0 && forall i :: 0 <= i < |es| ==> EntryFits(es[i], room - 1)
  }

  predicate EntryFits(e: Entry, room: nat)
    decreases e
  {
    match e
    case Assignment(_, _, v) => ValueFits(v, room)
    case MapEntry(_, _, v) => ValueFits(v, room)
    case Block(_, _, es) => room > 0 && forall i :: 0 <= i < |es| ==> EntryFits(es[i], room - 1)
    case TypeEntry(_) => true
  }

  // Bodies.

  /** The entries between braces; one that opens with a type entry is the body of
      the message an Any names. The keyed checks reach that body too. */
  function InBraces(c: Config, message: string, es: seq<Entry>, m: Msg, ke: Keyed, room: nat): Option<Msg>
    decreases es, 3
  {
    if room == 0 then None
    else if es != [] && es[0].TypeEntry? && message == ANY then
      match c.schema.resolve(es[0].url)
      case None => None
      case Some(payload) =>
        match InBraces(c, payload, es[1..], EMPTY, ke, room)
        case None => None
        case Some(inner) => Some(Put(Put(m, "type_url", VString(es[0].url)), "value", VPacked(inner)))
    else Fields(c, message, es, Start(m), ke, room - 1)
  }

  function Fields(c: Config, message: string, es: seq<Entry>, st: State, ke: Keyed, room: nat): Option<Msg>
    decreases es, 2
  {
    if es == [] then Some(st.msg)
    else
      match Step(c, message, es[0], st, ke, room)
      case None => None
      case Some(st') => Fields(c, message, es[1..], st', ke, room)
  }

  function Step(c: Config, message: string, e: Entry, st: State, ke: Keyed, room: nat): Option<State>
    decreases e, 1
  {
    match e
    case TypeEntry(_) => None
    case MapEntry(_, _, _) => None
    case Assignment(key, quoted, v) =>
      if quoted then None
      else
        (match FieldNamed(c.schema, message, key)
         case None => if c.discardUnknown && ValueFits(v, room) then Some(st) else None
         case Some(fd) => Assign(c, message, fd, v, st, ke, room))
    case Block(name, quoted, es) =>
      if quoted then None
      else
        (match FieldNamed(c.schema, message, name)
         case None => if c.discardUnknown && ValueFits(Braces(es), room) then Some(st) else None
         case Some(fd) => BlockField(c, message, fd, es, st, ke, room))
  }

  function Assign(c: Config, message: string, fd: Field, v: Value, st: State, ke: Keyed, room: nat): Option<State>
    decreases v, 5
  {
    if !BindingAllowed(ke, message, fd, v.Null?) || !Unbound(st, fd) then None
    else if v.Null? then
      if fd.nullable && fd.shape.Singular? then Some(Bind(st, fd).(msg := MarkNull(st.msg, fd.name))) else None
    else if !ExplicitKeyAllowed(ke, fd, v) then None
    else
      match FieldValue(c, fd, v, st.msg, room)
      case None => None
      case Some(x) => Some(Bind(st, fd).(msg := Put(Mark(st.msg, fd.name), fd.name, x)))
  }

  function BlockField(c: Config, message: string, fd: Field, es: seq<Entry>, st: State, ke: Keyed, room: nat): Option<State>
    decreases es, 5
  {
    match fd.shape
    case MapOf => None
    case Repeated =>
      (match KeyField(c.schema, fd)
       case None => None
       case Some(key) =>
         match KeyedBlock(c, fd, key, es, st.msg, room)
         case None => None
         case Some(x) => Some(st.(msg := Put(Mark(st.msg, fd.name), fd.name, x))))
    case Singular =>
      if !fd.kind.MessageKind? || !BindingAllowed(ke, message, fd, false) || !Unbound(st, fd) then None
      else
        match InBraces(c, fd.kind.name, es, EMPTY, NotKeyed, room)
        case None => None
        case Some(sub) => Some(Bind(st, fd).(msg := Put(Mark(st.msg, fd.name), fd.name, VMsg(sub))))
  }

  // Values.

  function FieldValue(c: Config, fd: Field, v: Value, m: Msg, room: nat): Option<Val>
    decreases v, 4
  {
    match fd.shape
    case MapOf =>
      if v.Braces? && room > 0 then
        match MapBody(c, fd, v.entries, ExistingMap(m, fd.name), room - 1)
        case None => None
        case Some(table) => Some(VMap(table))
      else None
    case Repeated =>
      if v.Braces? && KeyField(c.schema, fd).Some? then
        KeyedBlock(c, fd, KeyField(c.schema, fd).value, v.entries, m, room)
      else if v.List? && room > 0 then
        match Elements(c, fd, v.elements, ExistingList(m, fd.name), room - 1)
        case None => None
        case Some(list) => Some(VList(list))
      else None
    case Singular => OneValue(c, fd.kind, v, NotKeyed, room)
  }

  /** A single value of a kind: a literal, or a body of a message. */
  function OneValue(c: Config, kind: Kind, v: Value, ke: Keyed, room: nat): Option<Val>
    decreases v, 3
  {
    if kind.MessageKind? then
      match v
      case Lit(l) => (match c.schema.sugar(kind.name, l) case None => None case Some(m) => Some(VMsg(m)))
      case Braces(es) => (match InBraces(c, kind.name, es, EMPTY, ke, room) case None => None case Some(m) => Some(VMsg(m)))
      case _ => None
    else
      match v
      case Lit(l) =>
        if kind.StringKind? then if l.Str? then Some(VString(l.text)) else None
        else (match c.schema.scalar(kind, l) case None => None case Some(x) => Some(VScalar(x)))
      case _ => None
  }

  /** The checks an element of a list is under. */
  function ElementKeyed(c: Config, fd: Field): Keyed {
    match KeyField(c.schema, fd)
    case None => NotKeyed
    case Some(key) => Keyed(fd.kind.name, key, "", false)
  }

  function Elements(c: Config, fd: Field, vs: seq<Value>, acc: seq<Val>, room: nat): Option<seq<Val>>
    requires fd.shape.Repeated?
    decreases vs
  {
    if vs == [] then Some(acc)
    else if |acc| >= c.maxCount then None
    else
      match OneValue(c, fd.kind, vs[0], ElementKeyed(c, fd), room)
      case None => None
      case Some(x) => Elements(c, fd, vs[1..], acc + [x], room)
  }

  /** The block form of a keyed field: named entries, appended to what it holds. */
  function KeyedBlock(c: Config, fd: Field, key: Field, es: seq<Entry>, m: Msg, room: nat): Option<Val>
    requires KeyField(c.schema, fd) == Some(key)
    decreases es, 4
  {
    if room == 0 then None
    else
      match Named(c, fd, key, es, ExistingList(m, fd.name), {}, room - 1)
      case None => None
      case Some(list) => Some(VList(list))
  }

  /** The name and the body of a keyed block's entry, in either spelling. */
  function EntryName(e: Entry): Option<string> {
    match e
    case Block(name, _, _) => Some(name)
    case Assignment(key, _, Braces(_)) => Some(key)
    case _ => None
  }

  function EntryBody(e: Entry): (es: seq<Entry>)
    requires EntryName(e).Some?
  {
    match e
    case Block(_, _, es) => es
    case Assignment(_, _, v) => v.entries
  }

  function NamedStart(key: Field, name: string): Msg {
    Put(Mark(EMPTY, key.name), key.name, VString(name))
  }

  function Named(c: Config, fd: Field, key: Field, es: seq<Entry>, acc: seq<Val>, seen: set<string>, room: nat): Option<seq<Val>>
    requires KeyField(c.schema, fd) == Some(key)
    decreases es, 3
  {
    if es == [] then Some(acc)
    else if EntryName(es[0]).None? then None
    else
      var name := EntryName(es[0]).value;
      if name == "" || name in seen || |acc| >= c.maxCount then None
      else
        match InBraces(c, fd.kind.name, EntryBody(es[0]), NamedStart(key, name), Keyed(fd.kind.name, key, name, true), room)
        case None => None
        case Some(sub) => Named(c, fd, key, es[1..], acc + [VMsg(sub)], seen + {name}, room)
  }

  function MapBody(c: Config, fd: Field, es: seq<Entry>, acc: map<nat, Val>, room: nat): Option<map<nat, Val>>
    decreases es, 3
  {
    if es == [] then Some(acc)
    else if !es[0].MapEntry? || |acc| >= c.maxCount then None
    else
      match c.schema.mapKey(fd.keyKind, es[0].key, es[0].quoted)
      case None => None
      case Some(k) =>
        if k in acc then None
        else
          match OneValue(c, fd.kind, es[0].value, NotKeyed, room)
          case None => None
          case Some(x) => MapBody(c, fd, es[1..], acc[k := x], room)
  }

  /** A whole document: the root body has no braces of its own. */
  function Decode(c: Config, message: string, es: seq<Entry>, maxDepth: nat): Option<Msg> {
    Fields(c, message, es, Start(EMPTY), NotKeyed, maxDepth)
  }
}
