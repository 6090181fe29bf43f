/** Encoding a listing of a value through nested writers, and a listing for every
    value a program can hold. */
module MessageWriter {
  import opened Bytes
  import opened Wire
  import opened Codec
  import opened CodecTheorems
  import opened CodecValues
  import opened WireCode

  const LAST_FIELD: nat := 5

  /** A value a program can hold for a message type: known fields, away from their
      default, strings in UTF-8, int32s in range. */
  predicate Storable(kind: Kind, m: Msg)
    decreases m, 0
  {
    forall n :: n in m.fields ==> StorableVal(FieldOf(kind, n), m.fields[n])
  }

  predicate StorableVal(f: Field, v: Val)
    decreases v, 1
  {
    match f
    case NoField => false
    case Text => v.VBytes? && v.bytes != [] && ValidUtf8(v.bytes)
    case Blob => v.VBytes? && v.bytes != []
    case Int32 => v.VInt? && v.number != 0 && -(U32_SIZE as int) / 2 <= v.number < U32_SIZE / 2
    case TextList => v.VList? && v.list != [] && forall i :: 0 <= i < |v.list| ==> StorableText(v.list[i])
    case Sub(kind) => v.VMsg? && Storable(kind, v.msg)
    case SubList(kind) => v.VList? && v.list != [] && forall i :: 0 <= i < |v.list| ==> StorableMsg(kind, v.list[i])
    case Table(entry) =>
      v.VTable? && v.table != map[]
      && forall k :: k in v.table ==> ValidUtf8(k) && StorableEntry(FieldOf(entry, 2), v.table[k])
  }

  predicate StorableText(v: Val) {
    v.VBytes? && ValidUtf8(v.bytes)
  }

  predicate StorableMsg(kind: Kind, v: Val)
    decreases v, 0
  {
    v.VMsg? && Storable(kind, v.msg)
  }

  predicate StorableEntry(f: Field, v: Val)
    decreases v, 0
  {
    if f.Sub? then v.VMsg? && Storable(f.kind, v.msg) else f.Text? && StorableText(v)
  }

  /** Map entries are messages of a key and a value. */
  lemma EntryFields(kind: Kind, num: nat)
    ensures FieldOf(kind, num).Table? ==>
              FieldOf(FieldOf(kind, num).kind, 1).Text?
    ensures !FieldOf(kind, num).NoField? ==> 0 < num <= LAST_FIELD
  {}

  // Writing a listing.

  /** The writer's state after the records, from what it was before. */
  ghost predicate After(w: Writer, buf: seq<Byte>, exceeded: bool, out: Out)
    reads w
  {
    w.buf == buf + out.bytes && w.exceeded == (exceeded || out.exceeded)
  }

  /** encode_to: each record in turn. */
  method EncodeTo(w: Writer, kind: Kind, items: seq<Item>, ghost start: Msg)
    requires w.depth <= w.maxDepth && WellFormed(kind, items) && Listing(kind, items, start)
    modifies w
    ensures After(w, old(w.buf), old(w.exceeded), Written(kind, items, w.maxDepth - w.depth))
    decreases items, 1
  {
    hide WrittenItem, WellFormedItem, Fresh, MergeItem;
    var i := 0;
    ghost var m := start;
    ghost var whole := Written(kind, items, w.maxDepth - w.depth);
    assert items[0..] == items;
    while i < |items|
      invariant i <= |items| && WellFormed(kind, items[i..]) && Listing(kind, items[i..], m)
      invariant var rest := Written(kind, items[i..], w.maxDepth - w.depth);
                && w.buf + rest.bytes == old(w.buf) + whole.bytes
                && (w.exceeded || rest.exceeded) == (old(w.exceeded) || whole.exceeded)
    {
      assert items[i..][0] == items[i] && items[i..][1..] == items[i + 1..];
      WriteItem(w, kind, items[i], m);
      m := MergeItem(kind, items[i], m);
      i := i + 1;
    }
  }

  method WriteItem(w: Writer, kind: Kind, item: Item, ghost m: Msg)
    requires w.depth <= w.maxDepth && WellFormedItem(kind, item) && Fresh(kind, item, m)
    modifies w
    ensures After(w, old(w.buf), old(w.exceeded), WrittenItem(kind, item, w.maxDepth - w.depth))
    decreases item, 0
  {
    hide FieldOf, Meaning, Listing, WellFormed, Written, EntryItems, ValidUtf8, VarintBytes, TagBytes;
    match item
    case Leaf(num, b) =>
      w.WriteTag(num, LengthDelimited);
      w.WriteBytes(b);
    case Number(num, v) =>
      w.WriteTag(num, Varint);
      w.WriteVarint(SignExtended(v));
    case Node(num, items) =>
      if FieldOf(kind, num).Table? {
        WriteMapEntry(w, kind, num, items);
      } else {
        WriteMessage(w, kind, num, items);
      }
  }

  /** write_message: one descent; past the limit nothing is written and the
      refusal is recorded. */
  method WriteMessage(w: Writer, kind: Kind, num: nat, items: seq<Item>)
    requires w.depth <= w.maxDepth && WellFormedItem(kind, Node(num, items))
    requires Listing(FieldOf(kind, num).kind, items, EMPTY)
    modifies w
    ensures After(w, old(w.buf), old(w.exceeded), WrittenItem(kind, Node(num, items), w.maxDepth - w.depth))
    decreases items, 2
  {
    hide FieldOf, Listing, WellFormed, Written, VarintBytes, TagBytes;
    var inner := w.Nested();
    if inner == null {
      return;
    }
    EncodeTo(inner, FieldOf(kind, num).kind, items, EMPTY);
    if inner.exceeded {
      w.exceeded := true;
      return;
    }
    w.WriteTag(num, LengthDelimited);
    w.WriteVarint(|inner.buf|);
    w.Raw(inner.buf);
  }

  /** write_map_entry: the entry is one descent, and both its fields are always
      written. */
  method WriteMapEntry(w: Writer, kind: Kind, num: nat, items: seq<Item>)
    requires w.depth <= w.maxDepth && WellFormedItem(kind, Node(num, items))
    requires EntryItems(FieldOf(kind, num).kind, items)
    modifies w
    ensures After(w, old(w.buf), old(w.exceeded), WrittenItem(kind, Node(num, items), w.maxDepth - w.depth))
    decreases items, 2
  {
    hide FieldOf, Listing, WellFormed, Written, VarintBytes, TagBytes, EncodeItem, WrittenItem;
    var entry := FieldOf(kind, num).kind;
    TwoRecords(entry, items);
    var inner := w.Nested();
    EntryWritten(kind, num, items, w.maxDepth - w.depth);
    if inner == null {
      return;
    }
    inner.WriteTag(1, LengthDelimited);
    inner.WriteBytes(items[0].bytes);
    WriteEntryValue(inner, entry, items[1]);
    if inner.exceeded {
      w.exceeded := true;
      return;
    }
    w.WriteTag(num, LengthDelimited);
    w.WriteVarint(|inner.buf|);
    w.Raw(inner.buf);
  }

  /** What an entry comes to: its key, and its value one descent further down. */
  lemma EntryWritten(kind: Kind, num: nat, items: seq<Item>, room: nat)
    requires WellFormedItem(kind, Node(num, items)) && EntryItems(FieldOf(kind, num).kind, items)
    requires WellFormedItem(FieldOf(kind, num).kind, items[1])
    ensures WrittenItem(kind, Node(num, items), room)
         == if room == 0 then Out([], true)
            else
              var v := WrittenItem(FieldOf(kind, num).kind, items[1], room - 1);
              if v.exceeded then Out([], true)
              else Out(TagBytes(num, LengthDelimited)
                       + Framed(TagBytes(1, LengthDelimited) + Framed(items[0].bytes) + v.bytes), false)
  {
    var entry := FieldOf(kind, num).kind;
    if room > 0 {
      WrittenTwo(entry, items, room - 1);
    }
    hide FieldOf, Written, VarintBytes, TagBytes, Framed, Listing, WellFormed;
  }

  lemma WrittenTwo(kind: Kind, items: seq<Item>, room: nat)
    requires WellFormed(kind, items) && |items| == 2 && WellFormedItem(kind, items[0]) && WellFormedItem(kind, items[1])
    requires items[0].Leaf?
    ensures var v := WrittenItem(kind, items[1], room);
            Written(kind, items, room) == Out(EncodeItem(kind, items[0]) + v.bytes, v.exceeded)
  {
    hide WellFormedItem, EncodeItem;
    var rest := items[1..];
    assert rest[0] == items[1] && rest[1..] == [];
    assert WrittenItem(kind, items[0], room) == Out(EncodeItem(kind, items[0]), false);
    assert Written(kind, rest[1..], room) == Out([], false);
    hide WrittenItem;
    assert Written(kind, rest, room).bytes == WrittenItem(kind, items[1], room).bytes;
  }

  /** The value's tag is written first; a value past the limit then leaves the
      entry refused. */
  method WriteEntryValue(w: Writer, kind: Kind, value: Item)
    requires w.depth <= w.maxDepth && WellFormedItem(kind, value)
    requires value.Leaf? || (value.Node? && !FieldOf(kind, value.num).Table?
                             && Listing(FieldOf(kind, value.num).kind, value.items, EMPTY))
    requires value.num == 2
    modifies w
    ensures var out := WrittenItem(kind, value, w.maxDepth - w.depth);
            && w.exceeded == (old(w.exceeded) || out.exceeded)
            && (!out.exceeded ==> w.buf == old(w.buf) + out.bytes)
    decreases value, 0
  {
    hide FieldOf, Listing, WellFormed, Written, VarintBytes, TagBytes;
    w.WriteTag(2, LengthDelimited);
    if value.Leaf? {
      w.WriteBytes(value.bytes);
      return;
    }
    var inner := w.Nested();
    if inner == null {
      return;
    }
    EncodeTo(inner, FieldOf(kind, 2).kind, value.items, EMPTY);
    if inner.exceeded {
      w.exceeded := true;
      return;
    }
    w.WriteVarint(|inner.buf|);
    w.Raw(inner.buf);
  }

  /** marshal_with. */
  method MarshalWith(kind: Kind, items: seq<Item>, maxDepth: nat) returns (out: Outcome<seq<Byte>>)
    requires WellFormed(kind, items) && Listing(kind, items, EMPTY)
    ensures out == Marshal(kind, items, maxDepth)
  {
    hide Listing, WellFormed, Written;
    var w := new Writer.Root(maxDepth);
    EncodeTo(w, kind, items, EMPTY);
    assert [] + Written(kind, items, maxDepth).bytes == Written(kind, items, maxDepth).bytes;
    out := if w.exceeded then Err(DepthExceeded) else Ok(w.buf);
  }
}
