/** The message codec: what each message type's fields are, how a message is
    written as records, and how records are merged back. */
module Codec {
  import opened Bytes
  import opened Wire

  datatype Kind = Tree | BranchEntry | TagEntry | FieldError | AppError | MetadataEntry | Envelope

  /** What a field number holds: nothing known, a string, bytes, an int32, a list,
      a message, or a map whose entries are messages of the given kind. */
  datatype Field =
    | NoField
    | Text
    | Blob
    | Int32
    | TextList
    | Sub(kind: Kind)
    | SubList(kind: Kind)
    | Table(kind: Kind)

  function FieldOf(kind: Kind, num: nat): Field {
    match kind
    case Tree =>
      if num == 1 then Sub(Tree) else if num == 2 then Text
      else if num == 4 then Table(BranchEntry) else if num == 5 then Table(TagEntry) else NoField
    case BranchEntry => if num == 1 then Text else if num == 2 then Sub(Tree) else NoField
    case TagEntry => if num == 1 || num == 2 then Text else NoField
    case MetadataEntry => if num == 1 || num == 2 then Text else NoField
    case FieldError => if 1 <= num <= 3 then Text else if num == 4 then TextList else NoField
    case AppError =>
      if num == 1 || num == 2 then Text else if num == 3 then TextList
      else if num == 4 then SubList(FieldError) else if num == 5 then Table(MetadataEntry) else NoField
    case Envelope =>
      if num == 1 then Int32 else if num == 2 then Text else if num == 3 then Blob
      else if num == 4 then Sub(AppError) else NoField
  }

  predicate HasMessage(f: Field) {
    f.Sub? || f.SubList? || f.Table?
  }

  /** A message value: the fields that differ from their default. */
  datatype Msg = Msg(fields: map<nat, Val>)
  datatype Val =
    | VBytes(bytes: seq<Byte>)
    | VInt(number: int)
    | VMsg(msg: Msg)
    | VList(list: seq<Val>)
    | VTable(table: map<seq<Byte>, Val>)

  const EMPTY: Msg := Msg(map[])

  datatype Limits = Limits(maxSize: nat, maxDepth: nat, maxCount: nat)
  datatype Outcome<+T> = Ok(value: T) | Err(error: WireError)

  // Fields and their defaults.

  function BytesIn(m: Msg, num: nat): seq<Byte> {
    if num in m.fields && m.fields[num].VBytes? then m.fields[num].bytes else []
  }

  function ListIn(m: Msg, num: nat): seq<Val> {
    if num in m.fields && m.fields[num].VList? then m.fields[num].list else []
  }

  function TableIn(m: Msg, num: nat): map<seq<Byte>, Val> {
    if num in m.fields && m.fields[num].VTable? then m.fields[num].table else map[]
  }

  function PutBytes(m: Msg, num: nat, b: seq<Byte>): Msg {
    if b == [] then Msg(m.fields - {num}) else Msg(m.fields[num := VBytes(b)])
  }

  function PutInt(m: Msg, num: nat, v: int): Msg {
    if v == 0 then Msg(m.fields - {num}) else Msg(m.fields[num := VInt(v)])
  }

  /** push_element. */
  function Append(m: Msg, num: nat, v: Val, maxCount: nat): Outcome<Msg> {
    if |ListIn(m, num)| >= maxCount then Err(RepeatedCountExceeded)
    else Ok(Msg(m.fields[num := VList(ListIn(m, num) + [v])]))
  }

  /** The key and the value of a decoded map entry, absent ones at their default. */
  function EntryKey(e: Msg): seq<Byte> {
    BytesIn(e, 1)
  }

  function EntryValue(kind: Kind, e: Msg): Val {
    if HasMessage(FieldOf(kind, 2)) then if 2 in e.fields then e.fields[2] else VMsg(EMPTY)
    else VBytes(BytesIn(e, 2))
  }

  /** A map's size is checked before a key it does not hold. */
  function Insert(m: Msg, num: nat, key: seq<Byte>, v: Val, maxCount: nat): Outcome<Msg> {
    var table := TableIn(m, num);
    if key !in table && |table| >= maxCount then Err(RepeatedCountExceeded)
    else Ok(Msg(m.fields[num := VTable(table[key := v])]))
  }

  /** Merge a decoded submessage into its field. */
  function Store(f: Field, m: Msg, num: nat, sub: Msg, maxCount: nat): Outcome<Msg>
    requires HasMessage(f)
  {
    match f
    case SubList(_) => Append(m, num, VMsg(sub), maxCount)
    case Table(kind) => Insert(m, num, EntryKey(sub), EntryValue(kind, sub), maxCount)
    case _ => Ok(Msg(m.fields[num := VMsg(sub)]))
  }

  /** A string into its field: the last one wins, or it joins a list. */
  function StoreText(f: Field, m: Msg, num: nat, b: seq<Byte>, maxCount: nat): Outcome<Msg> {
    if f.TextList? then Append(m, num, VBytes(b), maxCount) else Ok(PutBytes(m, num, b))
  }

  /** `as i32`: the low 32 bits, signed. */
  function AsI32(v: nat): int {
    if v % U32_SIZE < U32_SIZE / 2 then v % U32_SIZE else v % U32_SIZE - U32_SIZE
  }

  /** An int32 as a varint: sign-extended to 64 bits. */
  function SignExtended(v: int): (u: nat)
    requires -(U32_SIZE as int) / 2 <= v < U32_SIZE / 2
    ensures u < U64_SIZE && AsI32(u) == v
  {
    if v < 0 then v + U64_SIZE else v
  }

  // Decoding.

  function Finish(o: Outcome<Msg>, next: nat): Read<Msg> {
    match o
    case Ok(m) => Got(m, next)
    case Err(e) => Fail(e)
  }

  /** Merge one field whose tag was read. The wire type matters only for numbers
      the message does not know. */
  function MergeField(kind: Kind, m: Msg, tag: Tag, data: seq<Byte>, pos: nat, depth: nat, limits: Limits): (r: Read<Msg>)
    requires pos <= |data|
    ensures r.Got? ==> pos < r.next <= |data|
    decreases |data| - pos, 1
  {
    var f := FieldOf(kind, tag.num);
    match f
    case NoField =>
      (match Skip(data, pos, tag.wire)
       case Fail(e) => Fail(e)
       case Got(_, next) => Got(m, next))
    case Blob =>
      (match ReadBytes(data, pos)
       case Fail(e) => Fail(e)
       case Got(b, next) => Got(PutBytes(m, tag.num, b), next))
    case Int32 =>
      (match ReadVarint(data, pos)
       case Fail(e) => Fail(e)
       case Got(v, next) => Got(PutInt(m, tag.num, AsI32(v)), next))
    case Text =>
      (match ReadString(data, pos)
       case Fail(e) => Fail(e)
       case Got(b, next) => Finish(StoreText(f, m, tag.num, b, limits.maxCount), next))
    case TextList =>
      (match ReadString(data, pos)
       case Fail(e) => Fail(e)
       case Got(b, next) => Finish(StoreText(f, m, tag.num, b, limits.maxCount), next))
    case _ =>
      (match ReadMessage(f.kind, data, pos, depth, limits)
       case Fail(e) => Fail(e)
       case Got(sub, next) => Finish(Store(f, m, tag.num, sub, limits.maxCount), next))
  }

  /** A length-delimited message: one descent, ending exactly at its length. */
  function ReadMessage(kind: Kind, data: seq<Byte>, pos: nat, depth: nat, limits: Limits): (r: Read<Msg>)
    requires pos <= |data|
    ensures r.Got? ==> pos < r.next <= |data|
    ensures r.Got? ==> ReadVarint(data, pos).Got? && r.next == ReadVarint(data, pos).next + ReadVarint(data, pos).value
    decreases |data| - pos, 0
  {
    match ReadVarint(data, pos)
    case Fail(e) => Fail(e)
    case Got(len, start) =>
      if start + len > |data| then Fail(NestedExceedsBuffer)
      else if depth >= limits.maxDepth then Fail(DepthExceeded)
      else ReadFields(kind, data, start, start + len, depth + 1, limits, EMPTY)
  }

  /** Fields up to the end of the message. */
  function ReadFields(kind: Kind, data: seq<Byte>, pos: nat, end: nat, depth: nat, limits: Limits, m: Msg): (r: Read<Msg>)
    requires pos <= |data| && end <= |data|
    ensures r.Got? ==> r.next == end && pos <= end
    decreases |data| - pos, 2
  {
    if pos >= end then if pos == end then Got(m, pos) else Fail(Overrun)
    else
      match ReadTag(data, pos)
      case Fail(e) => Fail(e)
      case Got(tag, at) =>
        match MergeField(kind, m, tag, data, at, depth, limits)
        case Fail(e) => Fail(e)
        case Got(m', next) => ReadFields(kind, data, next, end, depth, limits, m')
  }

  /** unmarshal_with. */
  function Unmarshal(kind: Kind, data: seq<Byte>, limits: Limits): Outcome<Msg> {
    if |data| > limits.maxSize then Err(MessageTooLarge)
    else
      match ReadFields(kind, data, 0, |data|, 0, limits, EMPTY)
      case Fail(e) => Err(e)
      case Got(m, _) => Ok(m)
  }

  // Records.

  /** One record of a message: a string or bytes, an int32, a submessage or map
      entry, or any bytes that read as a record of an unknown number. */
  datatype Item =
    | Leaf(num: nat, bytes: seq<Byte>)
    | Number(num: nat, value: int)
    | Node(num: nat, items: seq<Item>)
    | Opaque(raw: seq<Byte>)

  predicate UnknownRecord(kind: Kind, raw: seq<Byte>) {
    match ReadTag(raw, 0)
    case Fail(_) => false
    case Got(tag, at) =>
      FieldOf(kind, tag.num).NoField? && Skip(raw, at, tag.wire) == Got((), |raw|)
  }

  predicate WellFormedItem(kind: Kind, item: Item)
    decreases item
  {
    match item
    case Leaf(num, b) =>
      var f := FieldOf(kind, num);
      0 < num <= MAX_FIELD_NUMBER && (f.Blob? || ((f.Text? || f.TextList?) && ValidUtf8(b)))
    case Number(num, v) =>
      0 < num <= MAX_FIELD_NUMBER && FieldOf(kind, num).Int32? && -(U32_SIZE as int) / 2 <= v < U32_SIZE / 2
    case Node(num, items) =>
      0 < num <= MAX_FIELD_NUMBER && HasMessage(FieldOf(kind, num)) && WellFormed(FieldOf(kind, num).kind, items)
    case Opaque(raw) => UnknownRecord(kind, raw)
  }

  predicate WellFormed(kind: Kind, items: seq<Item>)
    decreases items
  {
    items != [] ==> WellFormedItem(kind, items[0]) && WellFormed(kind, items[1..])
  }

  function EncodeItem(kind: Kind, item: Item): seq<Byte>
    requires WellFormedItem(kind, item)
    decreases item
  {
    match item
    case Leaf(num, b) => TagBytes(num, LengthDelimited) + Framed(b)
    case Number(num, v) => TagBytes(num, Varint) + VarintBytes(SignExtended(v))
    case Node(num, items) => TagBytes(num, LengthDelimited) + Framed(Encode(FieldOf(kind, num).kind, items))
    case Opaque(raw) => raw
  }

  function Encode(kind: Kind, items: seq<Item>): seq<Byte>
    requires WellFormed(kind, items)
    decreases items
  {
    if items == [] then [] else EncodeItem(kind, items[0]) + Encode(kind, items[1..])
  }

  // What the records mean.

  /** Merging the records one by one, with room descents left. */
  function BuildItem(kind: Kind, item: Item, m: Msg, room: nat, maxCount: nat): Outcome<Msg>
    requires WellFormedItem(kind, item)
    decreases item
  {
    match item
    case Opaque(_) => Ok(m)
    case Number(num, v) => Ok(PutInt(m, num, v))
    case Leaf(num, b) => StoreText(FieldOf(kind, num), m, num, b, maxCount)
    case Node(num, items) =>
      var f := FieldOf(kind, num);
      if room == 0 then Err(DepthExceeded)
      else
        match Build(f.kind, items, EMPTY, room - 1, maxCount)
        case Err(e) => Err(e)
        case Ok(sub) => Store(f, m, num, sub, maxCount)
  }

  function Build(kind: Kind, items: seq<Item>, m: Msg, room: nat, maxCount: nat): Outcome<Msg>
    requires WellFormed(kind, items)
    decreases items
  {
    if items == [] then Ok(m)
    else
      match BuildItem(kind, items[0], m, room, maxCount)
      case Err(e) => Err(e)
      case Ok(m') => Build(kind, items[1..], m', room, maxCount)
  }
}
