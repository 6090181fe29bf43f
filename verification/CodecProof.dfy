/** Decoding what was encoded is merging the records. */
module CodecProof {
  import opened Bytes
  import opened Wire
  import opened Codec

  /** Reading the record at pos is merging it. */
  ghost predicate ReadsItem(kind: Kind, item: Item, data: seq<Byte>, pos: nat, depth: nat, limits: Limits, m: Msg)
    requires WellFormedItem(kind, item) && depth <= limits.maxDepth
  {
    var t := ReadTag(data, pos);
    && t.Got?
    && MergeField(kind, m, t.value, data, t.next, depth, limits)
       == Finish(BuildItem(kind, item, m, limits.maxDepth - depth, limits.maxCount), pos + |EncodeItem(kind, item)|)
  }

  /** Reading the message that starts at pos is merging its records. */
  ghost predicate ReadsItems(kind: Kind, items: seq<Item>, data: seq<Byte>, pos: nat, depth: nat, limits: Limits, m: Msg)
    requires WellFormed(kind, items) && depth <= limits.maxDepth
  {
    && pos + |Encode(kind, items)| <= |data|
    && ReadFields(kind, data, pos, pos + |Encode(kind, items)|, depth, limits, m)
       == Finish(Build(kind, items, m, limits.maxDepth - depth, limits.maxCount), pos + |Encode(kind, items)|)
  }

  /** Reading one record anywhere is merging it. */
  lemma {:induction false} ReadItem(kind: Kind, item: Item, data: seq<Byte>, pos: nat, depth: nat, limits: Limits, m: Msg)
    requires WellFormedItem(kind, item) && |data| < U64_SIZE && depth <= limits.maxDepth
    requires At(data, pos, EncodeItem(kind, item))
    ensures ReadsItem(kind, item, data, pos, depth, limits, m)
    decreases item
  {
    hide ReadsItem, ReadsItems, Encode, FieldOf, TagBytes, VarintBytes, UnknownRecord, ReadVarint, ReadTag, ReadBytes, ValidUtf8;
    match item
    case Leaf(num, b) => ReadLeaf(kind, num, b, data, pos, depth, limits, m);
    case Number(num, v) => ReadNumber(kind, num, v, data, pos, depth, limits, m);
    case Opaque(raw) => ReadOpaque(kind, raw, data, pos, depth, limits, m);
    case Node(num, items) =>
      var kind' := FieldOf(kind, num).kind;
      var start := BodyStart(num, Encode(kind', items), pos);
      NodeHeader(num, Encode(kind', items), data, pos);
      if depth < limits.maxDepth {
        ReadRecords(kind', items, data, start, depth + 1, limits, EMPTY);
      }
      ReadNode(kind, num, items, data, pos, depth, limits, m);
  }

  function BodyStart(num: nat, body: seq<Byte>, pos: nat): nat {
    pos + |TagBytes(num, LengthDelimited)| + |VarintBytes(|body|)|
  }

  /** A submessage, given that its body reads as its records merge. */
  lemma ReadNode(kind: Kind, num: nat, items: seq<Item>, data: seq<Byte>, pos: nat, depth: nat, limits: Limits, m: Msg)
    requires WellFormedItem(kind, Node(num, items)) && |data| < U64_SIZE && depth <= limits.maxDepth
    requires At(data, pos, EncodeItem(kind, Node(num, items)))
    requires depth < limits.maxDepth ==>
               var kind' := FieldOf(kind, num).kind;
               ReadsItems(kind', items, data, BodyStart(num, Encode(kind', items), pos), depth + 1, limits, EMPTY)
    ensures ReadsItem(kind, Node(num, items), data, pos, depth, limits, m)
  {
    hide ReadTag, ReadVarint, TagBytes, VarintBytes, ReadFields, Build, Encode, Store, WellFormed, FieldOf, ReadMessage;
    var body := Encode(FieldOf(kind, num).kind, items);
    var at := pos + |TagBytes(num, LengthDelimited)|;
    NodeHeader(num, body, data, pos);
    MessageAt(FieldOf(kind, num).kind, data, at, depth, limits);
  }

  lemma MessageAt(kind: Kind, data: seq<Byte>, at: nat, depth: nat, limits: Limits)
    requires at <= |data| && ReadVarint(data, at).Got?
    requires ReadVarint(data, at).next + ReadVarint(data, at).value <= |data|
    ensures var start, len := ReadVarint(data, at).next, ReadVarint(data, at).value;
            ReadMessage(kind, data, at, depth, limits)
            == if depth >= limits.maxDepth then Fail(DepthExceeded)
               else ReadFields(kind, data, start, start + len, depth + 1, limits, EMPTY)
  {
    hide ReadVarint, ReadFields;
  }

  lemma NodeHeader(num: nat, body: seq<Byte>, data: seq<Byte>, pos: nat)
    requires 0 < num <= MAX_FIELD_NUMBER && |data| < U64_SIZE
    requires At(data, pos, TagBytes(num, LengthDelimited) + Framed(body))
    ensures var at := pos + |TagBytes(num, LengthDelimited)|;
            var start := at + |VarintBytes(|body|)|;
            && ReadTag(data, pos) == Got(Tag(num, LengthDelimited), at)
            && ReadVarint(data, at) == Got(|body|, start)
            && At(data, start, body) && start + |body| == at + |Framed(body)|
            && ReadBytes(data, at) == Got(body, at + |Framed(body)|)
  {
    hide ReadTag, ReadVarint, VarintBytes, TagBytes, ReadBytes;
    AtSplit(data, pos, TagBytes(num, LengthDelimited), Framed(body));
    TagBack(data, pos, num, LengthDelimited);
    FramedBack(data, pos + |TagBytes(num, LengthDelimited)|, body);
  }

  lemma ReadLeaf(kind: Kind, num: nat, b: seq<Byte>, data: seq<Byte>, pos: nat, depth: nat, limits: Limits, m: Msg)
    requires WellFormedItem(kind, Leaf(num, b)) && |data| < U64_SIZE && depth <= limits.maxDepth
    requires At(data, pos, EncodeItem(kind, Leaf(num, b)))
    ensures ReadsItem(kind, Leaf(num, b), data, pos, depth, limits, m)
  {
    hide ReadTag, ReadVarint, ReadBytes, TagBytes, VarintBytes, ValidUtf8, FieldOf, PutBytes, Append, At, Framed;
    NodeHeader(num, b, data, pos);
    FramedLength(b);
  }

  lemma FramedLength(b: seq<Byte>)
    ensures |Framed(b)| == |VarintBytes(|b|)| + |b|
  {}

  lemma ReadNumber(kind: Kind, num: nat, v: int, data: seq<Byte>, pos: nat, depth: nat, limits: Limits, m: Msg)
    requires WellFormedItem(kind, Number(num, v)) && |data| < U64_SIZE && depth <= limits.maxDepth
    requires At(data, pos, EncodeItem(kind, Number(num, v)))
    ensures ReadsItem(kind, Number(num, v), data, pos, depth, limits, m)
  {
    hide ReadTag, ReadVarint, TagBytes, VarintBytes, FieldOf, AsI32, SignExtended;
    var tag := TagBytes(num, Varint);
    AtSplit(data, pos, tag, VarintBytes(SignExtended(v)));
    TagBack(data, pos, num, Varint);
    ReadVarintBack(data, pos + |tag|, SignExtended(v));
  }

  lemma ReadOpaque(kind: Kind, raw: seq<Byte>, data: seq<Byte>, pos: nat, depth: nat, limits: Limits, m: Msg)
    requires UnknownRecord(kind, raw) && At(data, pos, raw)
    requires depth <= limits.maxDepth
    ensures ReadsItem(kind, Opaque(raw), data, pos, depth, limits, m)
  {
    hide ReadTag, Skip, FieldOf;
    TagLocal(data, pos, raw);
    var t := ReadTag(raw, 0);
    SkipLocal(data, pos, raw, t.next, t.value.wire);
  }

  /** Reading a message's records is merging them in order. */
  lemma {:induction false} ReadRecords(kind: Kind, items: seq<Item>, data: seq<Byte>, pos: nat, depth: nat, limits: Limits, m: Msg)
    requires WellFormed(kind, items) && |data| < U64_SIZE && depth <= limits.maxDepth
    requires At(data, pos, Encode(kind, items))
    ensures ReadsItems(kind, items, data, pos, depth, limits, m)
    decreases items
  {
    hide ReadFields, MergeField, ReadTag, Build, BuildItem, EncodeItem, ReadsItem;
    if items != [] {
      AtSplit(data, pos, EncodeItem(kind, items[0]), Encode(kind, items[1..]));
      ReadItem(kind, items[0], data, pos, depth, limits, m);
      var built := BuildItem(kind, items[0], m, limits.maxDepth - depth, limits.maxCount);
      if built.Ok? {
        ReadRecords(kind, items[1..], data, pos + |EncodeItem(kind, items[0])|, depth, limits, built.value);
      }
      ReadStep(kind, items, data, pos, depth, limits, m);
    } else {
      ReadNothing(kind, items, data, pos, depth, limits, m);
    }
  }

  lemma ReadNothing(kind: Kind, items: seq<Item>, data: seq<Byte>, pos: nat, depth: nat, limits: Limits, m: Msg)
    requires items == [] && depth <= limits.maxDepth && pos <= |data|
    ensures ReadsItems(kind, items, data, pos, depth, limits, m)
  {}

  /** One record and the rest, given what each of them reads as. */
  lemma ReadStep(kind: Kind, items: seq<Item>, data: seq<Byte>, pos: nat, depth: nat, limits: Limits, m: Msg)
    requires items != [] && WellFormed(kind, items) && depth <= limits.maxDepth
    requires pos + |Encode(kind, items)| <= |data|
    requires ReadsItem(kind, items[0], data, pos, depth, limits, m)
    requires var built := BuildItem(kind, items[0], m, limits.maxDepth - depth, limits.maxCount);
             built.Ok? ==>
               ReadsItems(kind, items[1..], data, pos + |EncodeItem(kind, items[0])|, depth, limits, built.value)
    ensures ReadsItems(kind, items, data, pos, depth, limits, m)
  {
    hide BuildItem, EncodeItem, MergeField, ReadTag, WellFormedItem;
    RecordNotEmpty(kind, items[0]);
  }

  lemma RecordNotEmpty(kind: Kind, item: Item)
    requires WellFormedItem(kind, item)
    ensures |EncodeItem(kind, item)| > 0
  {
    hide TagBytes, VarintBytes, Framed, Encode;
  }
}
