/** Message values: which are too deep or too large for a limit, and that every
    way of writing one down reads back as it. */
module CodecValues {
  import opened Bytes
  import opened Wire
  import opened Codec
  import opened CodecTheorems

  // Limits of a value.

  /** The value needs at most room descents: a submessage is one, a map entry is
      one, and a message in an entry is a second. */
  predicate Fits(m: Msg, room: nat)
    decreases m
  {
    forall n :: n in m.fields ==> FitsVal(m.fields[n], room)
  }

  predicate FitsVal(v: Val, room: nat)
    decreases v
  {
    match v
    case VBytes(_) => true
    case VInt(_) => true
    case VMsg(m) => room > 0 && Fits(m, room - 1)
    case VList(list) => forall i :: 0 <= i < |list| ==> FitsVal(list[i], room)
    case VTable(table) => room > 0 && forall k :: k in table ==> FitsVal(table[k], room - 1)
  }

  /** No list or map of the value has more than maxCount elements. */
  predicate Within(m: Msg, maxCount: nat)
    decreases m
  {
    forall n :: n in m.fields ==> WithinVal(m.fields[n], maxCount)
  }

  predicate WithinVal(v: Val, maxCount: nat)
    decreases v
  {
    match v
    case VBytes(_) => true
    case VInt(_) => true
    case VMsg(m) => Within(m, maxCount)
    case VList(list) => |list| <= maxCount && forall i :: 0 <= i < |list| ==> WithinVal(list[i], maxCount)
    case VTable(table) => |table| <= maxCount && forall k :: k in table ==> WithinVal(table[k], maxCount)
  }

  /** Every field holds a value of its own shape. */
  predicate Shape(f: Field, v: Val) {
    match f
    case NoField => false
    case Text => v.VBytes?
    case Blob => v.VBytes?
    case Int32 => v.VInt?
    case TextList => v.VList?
    case Sub(_) => v.VMsg?
    case SubList(_) => v.VList?
    case Table(_) => v.VTable?
  }

  predicate Typed(kind: Kind, m: Msg) {
    forall n :: n in m.fields ==> Shape(FieldOf(kind, n), m.fields[n])
  }

  // Ways of writing a value down.

  lemma TwoRecords(kind: Kind, items: seq<Item>)
    requires WellFormed(kind, items) && |items| == 2
    ensures WellFormedItem(kind, items[0]) && WellFormedItem(kind, items[1])
  {
    hide WellFormedItem;
    var rest := items[1..];
    assert WellFormed(kind, rest) && rest[0] == items[1];
  }

  /** A map entry carries its key and its value, zero-valued or not. */
  predicate EntryItems(kind: Kind, items: seq<Item>)
    requires WellFormed(kind, items)
    decreases items, 0
  {
    |items| == 2 &&
    (TwoRecords(kind, items);
     var key, value := items[0], items[1];
     && key.Leaf? && key.num == 1 && FieldOf(kind, 1).Text?
     && (value.Leaf? || value.Node?) && value.num == 2
     && (value.Leaf? ==> FieldOf(kind, 2).Text?)
     && (value.Node? ==> FieldOf(kind, 2).Sub? && Listing(FieldOf(kind, 2).kind, value.items, EMPTY)))
  }

  /** The record adds to the value and overwrites nothing. */
  predicate Fresh(kind: Kind, item: Item, m: Msg)
    requires WellFormedItem(kind, item)
    decreases item
  {
    match item
    case Opaque(_) => false
    case Number(num, v) => v != 0 && num !in m.fields
    case Leaf(num, b) => FieldOf(kind, num).TextList? || (b != [] && num !in m.fields)
    case Node(num, items) =>
      var f := FieldOf(kind, num);
      if f.Table? then
        EntryItems(f.kind, items) && EntryKey(Meaning(f.kind, items, EMPTY)) !in TableIn(m, num)
      else Listing(f.kind, items, EMPTY) && (f.SubList? || num !in m.fields)
  }

  /** The records list a value, its fields and map entries in any order, each
      once. */
  predicate Listing(kind: Kind, items: seq<Item>, m: Msg)
    requires WellFormed(kind, items)
    decreases items
  {
    items != [] ==> Fresh(kind, items[0], m) && Listing(kind, items[1..], MergeItem(kind, items[0], m))
  }

  // A listing's limits are the value's.

  /** What a map entry's two records mean. */
  lemma EntryMeaning(kind: Kind, items: seq<Item>, room: nat, maxCount: nat)
    requires WellFormed(kind, items) && EntryItems(kind, items)
    ensures WellFormedItem(kind, items[1])
    ensures var e := Meaning(kind, items, EMPTY);
            && EntryKey(e) == items[0].bytes
            && EntryValue(kind, e)
               == if items[1].Leaf? then VBytes(items[1].bytes)
                  else VMsg(Meaning(FieldOf(kind, 2).kind, items[1].items, EMPTY))
    ensures ItemsFit(items, room) <==> ItemFits(items[1], room)
    ensures Counts(kind, items, EMPTY, maxCount)
       <==> (items[1].Node? ==> Counts(FieldOf(kind, 2).kind, items[1].items, EMPTY, maxCount))
  {
    TwoRecords(kind, items);
    TwoMeaning(kind, items, room, maxCount);
    hide FieldOf, ValidUtf8, Meaning, ItemsFit, Counts, WellFormed, Listing;
  }

  lemma TwoMeaning(kind: Kind, items: seq<Item>, room: nat, maxCount: nat)
    requires WellFormed(kind, items) && |items| == 2
    requires WellFormedItem(kind, items[0]) && WellFormedItem(kind, items[1])
    ensures var m := MergeItem(kind, items[0], EMPTY);
            && Meaning(kind, items, EMPTY) == MergeItem(kind, items[1], m)
            && (ItemsFit(items, room) <==> ItemFits(items[0], room) && ItemFits(items[1], room))
            && (Counts(kind, items, EMPTY, maxCount)
                <==> ItemCounts(kind, items[0], EMPTY, maxCount) && ItemCounts(kind, items[1], m, maxCount))
  {
    hide MergeItem, ItemFits, ItemCounts, WellFormedItem;
    var rest := items[1..];
    assert rest[0] == items[1] && rest[1..] == [];
    var m := MergeItem(kind, items[0], EMPTY);
    assert Meaning(kind, rest, m) == MergeItem(kind, items[1], m);
    assert ItemsFit(rest, room) <==> ItemFits(items[1], room);
    assert Counts(kind, rest, m, maxCount) <==> ItemCounts(kind, items[1], m, maxCount);
  }

  lemma PutLimits(m: Msg, num: nat, v: Val, room: nat, maxCount: nat)
    requires num !in m.fields
    ensures var m' := Msg(m.fields[num := v]);
            && (Fits(m', room) <==> Fits(m, room) && FitsVal(v, room))
            && (Within(m', maxCount) <==> Within(m, maxCount) && WithinVal(v, maxCount))
  {
    hide FitsVal, WithinVal;
    var m' := Msg(m.fields[num := v]);
    assert m'.fields[num] == v;
    assert forall n :: n in m.fields ==> n in m'.fields && m'.fields[n] == m.fields[n];
  }

  /** Replacing a field by one whose limits imply the old one's. */
  lemma GrowLimits(m: Msg, num: nat, v: Val, room: nat, maxCount: nat)
    requires num in m.fields
    requires FitsVal(v, room) ==> FitsVal(m.fields[num], room)
    requires WithinVal(v, maxCount) ==> WithinVal(m.fields[num], maxCount)
    ensures var m' := Msg(m.fields[num := v]);
            && (Fits(m', room) <==> Fits(m, room) && FitsVal(v, room))
            && (Within(m', maxCount) <==> Within(m, maxCount) && WithinVal(v, maxCount))
  {
    hide FitsVal, WithinVal;
    var m' := Msg(m.fields[num := v]);
    assert m'.fields[num] == v;
    assert forall n :: n in m.fields ==> n in m'.fields;
    assert forall n :: n in m.fields && n != num ==> m'.fields[n] == m.fields[n];
  }

  lemma PushLimits(m: Msg, num: nat, v: Val, room: nat, maxCount: nat)
    requires num in m.fields ==> m.fields[num].VList?
    ensures var m' := Msg(m.fields[num := VList(ListIn(m, num) + [v])]);
            && (Fits(m', room) <==> Fits(m, room) && FitsVal(v, room))
            && (Within(m', maxCount) <==> Within(m, maxCount) && |ListIn(m, num)| < maxCount && WithinVal(v, maxCount))
  {
    hide Fits, Within;
    var list := ListIn(m, num);
    var grown := VList(list + [v]);
    ListLimits(list, v, room, maxCount);
    if num in m.fields {
      GrowLimits(m, num, grown, room, maxCount);
      FieldLimits(m, num, room, maxCount);
    } else {
      PutLimits(m, num, grown, room, maxCount);
    }
  }

  lemma FieldLimits(m: Msg, num: nat, room: nat, maxCount: nat)
    requires num in m.fields
    ensures Fits(m, room) ==> FitsVal(m.fields[num], room)
    ensures Within(m, maxCount) ==> WithinVal(m.fields[num], maxCount)
  {}

  lemma ListLimits(list: seq<Val>, v: Val, room: nat, maxCount: nat)
    ensures FitsVal(VList(list + [v]), room) <==> FitsVal(VList(list), room) && FitsVal(v, room)
    ensures WithinVal(VList(list + [v]), maxCount)
       <==> WithinVal(VList(list), maxCount) && |list| < maxCount && WithinVal(v, maxCount)
  {
    var grown := list + [v];
    assert grown[|list|] == v;
    assert forall i :: 0 <= i < |list| ==> grown[i] == list[i];
  }

  lemma InsertLimits(m: Msg, num: nat, key: seq<Byte>, v: Val, room: nat, maxCount: nat)
    requires num in m.fields ==> m.fields[num].VTable?
    requires key !in TableIn(m, num)
    ensures var m' := Msg(m.fields[num := VTable(TableIn(m, num)[key := v])]);
            && (Fits(m', room) <==> Fits(m, room) && room > 0 && FitsVal(v, room - 1))
            && (Within(m', maxCount) <==> Within(m, maxCount) && |TableIn(m, num)| < maxCount && WithinVal(v, maxCount))
  {
    hide Fits, Within;
    var table := TableIn(m, num);
    var grown := VTable(table[key := v]);
    TableLimits(table, key, v, room, maxCount);
    if num in m.fields {
      GrowLimits(m, num, grown, room, maxCount);
      FieldLimits(m, num, room, maxCount);
    } else {
      PutLimits(m, num, grown, room, maxCount);
    }
  }

  lemma TableLimits(table: map<seq<Byte>, Val>, key: seq<Byte>, v: Val, room: nat, maxCount: nat)
    requires key !in table
    ensures FitsVal(VTable(table[key := v]), room)
       <==> (table == map[] || FitsVal(VTable(table), room)) && room > 0 && FitsVal(v, room - 1)
    ensures WithinVal(VTable(table[key := v]), maxCount)
       <==> WithinVal(VTable(table), maxCount) && |table| < maxCount && WithinVal(v, maxCount)
  {
    var grown := table[key := v];
    assert grown[key] == v && |grown| == |table| + 1;
    assert forall k :: k in table ==> k in grown && grown[k] == table[k];
  }

  lemma FreshTyped(kind: Kind, item: Item, m: Msg)
    requires WellFormedItem(kind, item) && Fresh(kind, item, m) && Typed(kind, m)
    ensures Typed(kind, MergeItem(kind, item, m))
  {
    hide FieldOf, Meaning, Listing, EntryItems, WellFormed, UnknownRecord;
  }

  lemma {:induction false} FreshLimits(kind: Kind, item: Item, m: Msg, room: nat, maxCount: nat)
    requires WellFormedItem(kind, item) && Fresh(kind, item, m) && Typed(kind, m)
    ensures Fits(MergeItem(kind, item, m), room) <==> Fits(m, room) && ItemFits(item, room)
    ensures Within(MergeItem(kind, item, m), maxCount) <==> Within(m, maxCount) && ItemCounts(kind, item, m, maxCount)
    decreases item, 0
  {
    hide FieldOf, Meaning, Listing, Fits, Within, Typed, WellFormed, UnknownRecord, ValidUtf8, EntryItems, Counts,
         ItemsFit;
    match item
    case Opaque(_) =>
    case Number(num, v) => PutLimits(m, num, VInt(v), room, maxCount);
    case Leaf(num, b) =>
      if FieldOf(kind, num).TextList? {
        TypedList(kind, m, num);
        PushLimits(m, num, VBytes(b), room, maxCount);
      } else {
        PutLimits(m, num, VBytes(b), room, maxCount);
      }
    case Node(num, items) => NodeLimits(kind, num, items, m, room, maxCount);
  }

  lemma TypedList(kind: Kind, m: Msg, num: nat)
    requires Typed(kind, m)
    ensures num in m.fields && (FieldOf(kind, num).TextList? || FieldOf(kind, num).SubList?) ==> m.fields[num].VList?
    ensures num in m.fields && FieldOf(kind, num).Table? ==> m.fields[num].VTable?
  {
    hide FieldOf;
  }

  lemma {:induction false} NodeLimits(kind: Kind, num: nat, items: seq<Item>, m: Msg, room: nat, maxCount: nat)
    requires WellFormedItem(kind, Node(num, items)) && Fresh(kind, Node(num, items), m) && Typed(kind, m)
    ensures Fits(MergeItem(kind, Node(num, items), m), room) <==> Fits(m, room) && ItemFits(Node(num, items), room)
    ensures Within(MergeItem(kind, Node(num, items), m), maxCount)
       <==> Within(m, maxCount) && ItemCounts(kind, Node(num, items), m, maxCount)
    decreases items, 2
  {
    hide FieldOf, Meaning, Listing, Fits, Within, Typed, WellFormed, EntryItems, Counts, ItemsFit, EntryKey, EntryValue;
    var f := FieldOf(kind, num);
    var sub := Meaning(f.kind, items, EMPTY);
    TypedList(kind, m, num);
    if f.Table? {
      EntryLimits(f.kind, items, room, maxCount);
      InsertLimits(m, num, EntryKey(sub), EntryValue(f.kind, sub), room, maxCount);
    } else {
      EmptyLimits(f.kind, if room == 0 then 0 else room - 1, maxCount);
      ListingLimits(f.kind, items, EMPTY, if room == 0 then 0 else room - 1, maxCount);
      if f.SubList? {
        PushLimits(m, num, VMsg(sub), room, maxCount);
      } else {
        PutLimits(m, num, VMsg(sub), room, maxCount);
      }
    }
  }

  lemma EmptyLimits(kind: Kind, room: nat, maxCount: nat)
    ensures Fits(EMPTY, room) && Within(EMPTY, maxCount) && Typed(kind, EMPTY)
  {}

  /** A map entry's limits are its value's, one descent further down. */
  lemma {:induction false} EntryLimits(kind: Kind, items: seq<Item>, room: nat, maxCount: nat)
    requires WellFormed(kind, items) && EntryItems(kind, items)
    ensures var v := EntryValue(kind, Meaning(kind, items, EMPTY));
            && (room > 0 && FitsVal(v, room - 1) <==> room > 0 && ItemsFit(items, room - 1))
            && (WithinVal(v, maxCount) <==> Counts(kind, items, EMPTY, maxCount))
    decreases items, 1
  {
    hide FieldOf, Meaning, Fits, Within, Typed, Counts, ItemsFit, EntryKey, EntryValue, Listing;
    var inner := if room == 0 then 0 else room - 1;
    TwoRecords(kind, items);
    EntryMeaning(kind, items, inner, maxCount);
    if items[1].Node? {
      var kind' := FieldOf(kind, 2).kind;
      EmptyLimits(kind', if inner == 0 then 0 else inner - 1, maxCount);
      ListingLimits(kind', items[1].items, EMPTY, if inner == 0 then 0 else inner - 1, maxCount);
    }
  }

  /** A listing goes past a limit exactly when its value does. */
  lemma {:induction false} ListingLimits(kind: Kind, items: seq<Item>, m: Msg, room: nat, maxCount: nat)
    requires WellFormed(kind, items) && Listing(kind, items, m) && Typed(kind, m)
    ensures Typed(kind, Meaning(kind, items, m))
    ensures Fits(Meaning(kind, items, m), room) <==> Fits(m, room) && ItemsFit(items, room)
    ensures Within(Meaning(kind, items, m), maxCount) <==> Within(m, maxCount) && Counts(kind, items, m, maxCount)
    decreases items, 0
  {
    hide MergeItem, Fresh, Fits, Within, Typed, ItemFits, ItemCounts, WellFormedItem;
    if items != [] {
      FreshTyped(kind, items[0], m);
      FreshLimits(kind, items[0], m, room, maxCount);
      ListingLimits(kind, items[1..], MergeItem(kind, items[0], m), room, maxCount);
    }
  }

  // The writer.

  /** What a writer has after the records: its bytes, and whether a value was
      refused for its depth. */
  datatype Out = Out(bytes: seq<Byte>, exceeded: bool)

  function WrittenItem(kind: Kind, item: Item, room: nat): Out
    requires WellFormedItem(kind, item)
    decreases item
  {
    if !item.Node? then Out(EncodeItem(kind, item), false)
    else if room == 0 then Out([], true)
    else
      var inner := Written(FieldOf(kind, item.num).kind, item.items, room - 1);
      if inner.exceeded then Out([], true)
      else Out(TagBytes(item.num, LengthDelimited) + Framed(inner.bytes), false)
  }

  function Written(kind: Kind, items: seq<Item>, room: nat): Out
    requires WellFormed(kind, items)
    decreases items
  {
    if items == [] then Out([], false)
    else
      var first, rest := WrittenItem(kind, items[0], room), Written(kind, items[1..], room);
      Out(first.bytes + rest.bytes, first.exceeded || rest.exceeded)
  }

  lemma {:induction false} WrittenItemFits(kind: Kind, item: Item, room: nat)
    requires WellFormedItem(kind, item)
    ensures WrittenItem(kind, item, room).exceeded <==> !ItemFits(item, room)
    ensures ItemFits(item, room) ==> WrittenItem(kind, item, room).bytes == EncodeItem(kind, item)
    decreases item
  {
    hide FieldOf, ReadTag, TagBytes, VarintBytes, Framed;
    if item.Node? && room > 0 {
      WrittenFits(FieldOf(kind, item.num).kind, item.items, room - 1);
    }
  }

  /** The writer refuses exactly the records that are too deep, and otherwise
      writes them all. */
  lemma {:induction false} WrittenFits(kind: Kind, items: seq<Item>, room: nat)
    requires WellFormed(kind, items)
    ensures Written(kind, items, room).exceeded <==> !ItemsFit(items, room)
    ensures ItemsFit(items, room) ==> Written(kind, items, room).bytes == Encode(kind, items)
    decreases items
  {
    hide WrittenItem, ItemFits, EncodeItem, WellFormedItem;
    if items != [] {
      WrittenItemFits(kind, items[0], room);
      WrittenFits(kind, items[1..], room);
    }
  }

  /** marshal_with: the bytes of a listing, unless something in it was refused. */
  function Marshal(kind: Kind, items: seq<Item>, maxDepth: nat): Outcome<seq<Byte>>
    requires WellFormed(kind, items)
  {
    var out := Written(kind, items, maxDepth);
    if out.exceeded then Err(DepthExceeded) else Ok(out.bytes)
  }

  // The theorems.

  /** Writing fails exactly when the value is too deep for the limit, whatever
      order its fields and map entries are written in. */
  lemma MarshalFailsByDepth(kind: Kind, items: seq<Item>, maxDepth: nat)
    requires WellFormed(kind, items) && Listing(kind, items, EMPTY)
    ensures Marshal(kind, items, maxDepth)
         == if Fits(Meaning(kind, items, EMPTY), maxDepth) then Ok(Encode(kind, items)) else Err(DepthExceeded)
  {
    hide Listing, Meaning, Fits, Within, Typed, Counts, ItemsFit, Encode, WellFormed, Written;
    EmptyLimits(kind, maxDepth, 0);
    ListingLimits(kind, items, EMPTY, maxDepth, 0);
    WrittenFits(kind, items, maxDepth);
  }

  /** A reader refuses what was written under a larger limit exactly when the
      value is too deep for its own, and otherwise returns the value: the same
      condition under which writing at that limit fails. */
  lemma ReaderAgreesWithWriter(kind: Kind, items: seq<Item>, limits: Limits)
    requires WellFormed(kind, items) && Listing(kind, items, EMPTY)
    requires |Encode(kind, items)| < U64_SIZE && |Encode(kind, items)| <= limits.maxSize
    requires Within(Meaning(kind, items, EMPTY), limits.maxCount)
    ensures var value, r := Meaning(kind, items, EMPTY), Unmarshal(kind, Encode(kind, items), limits);
            && r == (if Fits(value, limits.maxDepth) then Ok(value) else Err(DepthExceeded))
            && (r.Ok? <==> Marshal(kind, items, limits.maxDepth) == Ok(Encode(kind, items)))
  {
    hide Listing, Meaning, Fits, Within, Typed, Counts, ItemsFit, Encode, WellFormed, Written, Unmarshal, Build;
    EmptyLimits(kind, limits.maxDepth, limits.maxCount);
    ListingLimits(kind, items, EMPTY, limits.maxDepth, limits.maxCount);
    DecodesToMeaning(kind, items, limits);
    MarshalFailsByDepth(kind, items, limits.maxDepth);
  }
}
