/** PXF documents as trees, and the part of a protobuf schema their decoding
    reads. */
module PxfDocument {
  import opened Options

  // The document. Positions and comments are left out.

  /** A literal token: a string, or any other (number, bool, bytes, identifier,
      timestamp, duration). */
  datatype Literal = Str(text: string) | Other(token: nat)

  datatype Value =
    | Lit(literal: Literal)
    | Null
    | List(elements: seq<Value>)
    | Braces(entries: seq<Entry>)

  datatype Entry =
    | Assignment(key: string, quoted: bool, value: Value)
    | MapEntry(key: string, quoted: bool, value: Value)
    | Block(name: string, quoted: bool, entries: seq<Entry>)
    | TypeEntry(url: string)

  // The schema.

  datatype Kind = StringKind | ScalarKind(id: nat) | MessageKind(name: string)
  datatype Shape = Singular | Repeated | MapOf

  /** A field; the kind of a map field is its value's. */
  datatype Field = Field(
    name: string, kind: Kind, shape: Shape, oneof: Option<string>, synthetic: bool, nullable: bool, keyKind: nat, key: Option<string>)

  /** Message types by name, the types an Any may name, and how the literals of
      scalar fields, of message types with a literal form, and of map keys read. */
  datatype Schema = Schema(
    messages: map<string, map<string, Field>>,
    resolve: string -> Option<string>,
    scalar: (Kind, Literal) -> Option<nat>,
    sugar: (string, Literal) -> Option<Msg>,
    mapKey: (nat, string, bool) -> Option<nat>)

  /** A decoded message: what its fields hold, which were mentioned, and which were
      mentioned as null. */
  datatype Msg = Msg(fields: map<string, Val>, present: set<string>, nulls: set<string>)
  datatype Val =
    | VString(text: string)
    | VScalar(bits: nat)
    | VMsg(msg: Msg)
    | VList(list: seq<Val>)
    | VMap(table: map<nat, Val>)
    | VPacked(msg: Msg)

  const EMPTY: Msg := Msg(map[], {}, {})
  const ANY: string := "google.protobuf.Any"

  function FieldsOf(s: Schema, message: string): map<string, Field> {
    if message in s.messages then s.messages[message] else map[]
  }

  function FieldNamed(s: Schema, message: string, name: string): Option<Field> {
    if name in FieldsOf(s, message) then Some(FieldsOf(s, message)[name]) else None
  }

  /** The key field of a keyed repeated field: the singular string field of its
      element message that its annotation names. */
  function KeyField(s: Schema, fd: Field): (key: Option<Field>) {
    if !fd.shape.Repeated? || !fd.kind.MessageKind? || fd.key.None? || fd.key.value == "" then None
    else
      match FieldNamed(s, fd.kind.name, fd.key.value)
      case None => None
      case Some(key) => if key.shape.Singular? && key.kind.StringKind? then Some(key) else None
  }

  /** What protobuf guarantees of a schema: fields carry their own name, only
      singular fields are in oneofs, and an Any has no message fields. */
  ghost predicate WellFormed(s: Schema) {
    forall m, n :: m in s.messages && n in s.messages[m] ==>
      var fd := s.messages[m][n];
      && fd.name == n
      && (!fd.shape.Singular? ==> fd.oneof.None?)
      && (m == ANY ==> fd.shape.Singular? && !fd.kind.MessageKind?)
  }

  lemma FieldFacts(s: Schema, message: string, name: string)
    requires WellFormed(s) && FieldNamed(s, message, name).Some?
    ensures var fd := FieldNamed(s, message, name).value;
            && fd.name == name
            && (!fd.shape.Singular? ==> fd.oneof.None?)
            && (message == ANY ==> fd.shape.Singular? && !fd.kind.MessageKind?)
  {}

  /** The oneof of a field, unless it is the synthetic one of a proto3 optional. */
  function RealOneof(fd: Field): Option<string> {
    if fd.synthetic then None else fd.oneof
  }
}
