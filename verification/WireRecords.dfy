/** Which bytes decode: those that are records one after another, shortest varints or
    not, and what they decode to is what the records mean. */
module WireRecords {
  import opened Bytes
  import opened Wire
  import opened Codec
  import opened CodecProof
  import opened WireForms

  // Records in a buffer.

  /** A varint of at most ten bytes stands between the positions. */
  predicate VarintHere(data: seq<Byte>, pos: nat, next: nat, v: nat) {
    pos < next <= |data| && next - pos <= 10 && Chained(data[pos..next]) && v == Sevens(data[pos..next]) % U64_SIZE
  }

  /** A length and as many bytes, from start on, stand between the positions. */
  predicate FramedHere(data: seq<Byte>, pos: nat, start: nat, next: nat) {
    start <= next <= |data| && VarintHere(data, pos, start, next - start)
  }

  /** A value of the wire type, by its code, stands between the positions. */
  ghost predicate ValueHere(data: seq<Byte>, pos: nat, next: nat, code: nat) {
    if code == 0 then exists v: nat :: VarintHere(data, pos, next, v)
    else if code == 1 then next == pos + 8 <= |data|
    else if code == 2 then exists start: nat :: FramedHere(data, pos, start, next)
    else code == 5 && next == pos + 4 <= |data|
  }

  /** The record of the item stands between the positions: a tag, its field number cut
      to 32 bits and not zero, and what the field holds. */
  ghost predicate Record(kind: Kind, data: seq<Byte>, pos: nat, next: nat, item: Item)
    decreases item, 1
  {
    exists at: nat, t: nat :: VarintHere(data, pos, at, t) && Tagged(kind, data, pos, at, next, t, item)
  }

  ghost predicate Tagged(kind: Kind, data: seq<Byte>, pos: nat, at: nat, next: nat, t: nat, item: Item)
    decreases item, 0
  {
    var num, code := t / 8 % U32_SIZE, t % 8;
    && num != 0 && code < 6 && at < next <= |data| && pos < at
    && match FieldOf(kind, num)
       case NoField => item == Opaque(data[pos..next]) && ValueHere(data, at, next, code)
       case Int32 => item.Number? && item.num == num && exists v: nat :: VarintHere(data, at, next, v) && item.value == AsI32(v)
       case Blob => item.Leaf? && item.num == num && exists start: nat :: TextHere(data, at, start, next, item.bytes)
       case Text => item.Leaf? && item.num == num && ValidUtf8(item.bytes) && exists start: nat :: TextHere(data, at, start, next, item.bytes)
       case TextList => item.Leaf? && item.num == num && ValidUtf8(item.bytes) && exists start: nat :: TextHere(data, at, start, next, item.bytes)
       case f =>
         item.Node? && item.num == num
         && exists start: nat :: FramedHere(data, at, start, next) && Records(f.kind, data, start, next, item.items)
  }

  predicate TextHere(data: seq<Byte>, pos: nat, start: nat, next: nat, b: seq<Byte>) {
    FramedHere(data, pos, start, next) && b == data[start..next]
  }

  ghost predicate Records(kind: Kind, data: seq<Byte>, pos: nat, end: nat, items: seq<Item>)
    decreases items, 2
  {
    if items == [] then pos == end
    else exists next: nat :: pos < next <= end && Record(kind, data, pos, next, items[0]) && Records(kind, data, next, end, items[1..])
  }

  // The reader's primitives against them.

  lemma {:induction false} VarintIs(data: seq<Byte>, pos: nat, v: nat, next: nat)
    ensures ReadVarint(data, pos) == Got(v, next) <==> VarintHere(data, pos, next, v)
  {
    ReadExactly(data, pos, v, next);
    hide ReadVarint, Chained, Sevens;
  }

  /** The same bytes cut out of the buffer. */
  lemma {:induction false} VarintCut(data: seq<Byte>, pos: nat, end: nat, a: nat, b: nat, v: nat)
    requires pos <= a && b <= end <= |data| && VarintHere(data, a, b, v)
    ensures VarintHere(data[pos..end], a - pos, b - pos, v)
  {
    VarintAhead(data, a, b, v);
    Slice(data, pos, end, a, b);
    hide Chained, Sevens;
  }

  lemma {:induction false} Slice(data: seq<Byte>, pos: nat, end: nat, a: nat, b: nat)
    requires pos <= a <= b <= end <= |data|
    ensures data[pos..end][a - pos..b - pos] == data[a..b]
  {
    var cut := data[pos..end];
    assert forall i :: a <= i < b ==> cut[i - pos] == data[i];
    assert cut[a - pos..b - pos] == data[a..b];
  }

  lemma {:induction false} SkipIs(data: seq<Byte>, pos: nat, next: nat, code: nat)
    requires pos <= |data| && code < 6
    ensures Skip(data, pos, WireOf(code)) == Got((), next) <==> ValueHere(data, pos, next, code)
  {
    hide ReadVarint, VarintHere;
    var r := ReadVarint(data, pos);
    if r.Got? {
      VarintIs(data, pos, r.value, r.next);
    }
    forall v: nat, at: nat | VarintHere(data, pos, at, v) ensures r == Got(v, at) {
      VarintIs(data, pos, v, at);
    }
    if r.Got? && r.next + r.value <= |data| {
      assert FramedHere(data, pos, r.next, r.next + r.value);
    }
  }

  lemma {:induction false} BytesAre(data: seq<Byte>, pos: nat, b: seq<Byte>, next: nat)
    ensures ReadBytes(data, pos) == Got(b, next) <==> exists start: nat :: TextHere(data, pos, start, next, b)
  {
    hide ReadVarint, VarintHere;
    var r := ReadVarint(data, pos);
    if r.Got? {
      VarintIs(data, pos, r.value, r.next);
    }
    if ReadBytes(data, pos) == Got(b, next) {
      assert TextHere(data, pos, r.next, next, b);
    }
    if start: nat :| TextHere(data, pos, start, next, b) {
      VarintIs(data, pos, next - start, start);
    }
  }

  lemma {:induction false} TagIs(data: seq<Byte>, pos: nat, at: nat, t: nat)
    requires VarintHere(data, pos, at, t)
    ensures var num, code := t / 8 % U32_SIZE, t % 8;
            ReadTag(data, pos)
            == if code >= 6 then Fail(UnknownWireType)
               else if num == 0 then Fail(InvalidTag)
               else Got(Tag(num, WireOf(code)), at)
  {
    VarintIs(data, pos, t, at);
    hide ReadVarint, VarintHere;
  }

  // Fields.

  lemma {:induction false} Known(kind: Kind, num: nat)
    ensures FieldOf(kind, num) != NoField ==> 0 < num <= MAX_FIELD_NUMBER
  {}

  /** A record of an unknown number, cut out, is one. */
  lemma {:induction false} UnknownIs(kind: Kind, data: seq<Byte>, pos: nat, at: nat, next: nat, t: nat)
    requires VarintHere(data, pos, at, t) && at < next <= |data| && t % 8 < 6 && t / 8 % U32_SIZE != 0
    requires FieldOf(kind, t / 8 % U32_SIZE).NoField? && ValueHere(data, at, next, t % 8)
    ensures UnknownRecord(kind, data[pos..next])
  {
    hide VarintHere, ReadTag, Skip, ValueHere, FieldOf;
    VarintAhead(data, pos, at, t);
    var raw, code := data[pos..next], t % 8;
    VarintCut(data, pos, next, pos, at, t);
    TagIs(raw, 0, at - pos, t);
    ValueCut(data, pos, next, at, code);
    SkipIs(raw, at - pos, next - pos, code);
  }

  lemma {:induction false} ValueCut(data: seq<Byte>, pos: nat, next: nat, at: nat, code: nat)
    requires pos <= at < next <= |data| && ValueHere(data, at, next, code)
    ensures ValueHere(data[pos..next], at - pos, next - pos, code)
  {
    hide VarintHere;
    if code == 0 {
      var v: nat :| VarintHere(data, at, next, v);
      VarintCut(data, pos, next, at, next, v);
    } else if code == 2 {
      var start: nat :| FramedHere(data, at, start, next);
      assert start > at by { VarintAhead(data, at, start, next - start); }
      VarintCut(data, pos, next, at, start, next - start);
      assert FramedHere(data[pos..next], at - pos, start - pos, next - pos);
    }
  }

  lemma {:induction false} VarintAhead(data: seq<Byte>, pos: nat, next: nat, v: nat)
    requires VarintHere(data, pos, next, v)
    ensures pos < next <= |data|
  {}

  /** A field that is merged is a record, and merging it is what the record means. */
  lemma {:induction false} Merged(kind: Kind, m: Msg, data: seq<Byte>, pos: nat, at: nat, t: nat, depth: nat, limits: Limits) returns (item: Item)
    requires VarintHere(data, pos, at, t) && t % 8 < 6 && t / 8 % U32_SIZE != 0 && at <= |data| && depth <= limits.maxDepth
    requires MergeField(kind, m, Tag(t / 8 % U32_SIZE, WireOf(t % 8)), data, at, depth, limits).Got?
    ensures var r := MergeField(kind, m, Tag(t / 8 % U32_SIZE, WireOf(t % 8)), data, at, depth, limits);
            && Tagged(kind, data, pos, at, r.next, t, item) && WellFormedItem(kind, item)
            && BuildItem(kind, item, m, limits.maxDepth - depth, limits.maxCount) == Ok(r.value)
    decreases |data| - at, 1
  {
    var num, code := t / 8 % U32_SIZE, t % 8;
    var r := MergeField(kind, m, Tag(num, WireOf(code)), data, at, depth, limits);
    VarintAhead(data, pos, at, t);
    var f := FieldOf(kind, num);
    if f.NoField? {
      item := Opaque(data[pos..r.next]);
      SkipIs(data, at, r.next, code);
      UnknownIs(kind, data, pos, at, r.next, t);
      hide VarintHere, Skip, ValueHere, UnknownRecord, FieldOf;
    } else if HasMessage(f) {
      item := MergedMessage(kind, m, data, pos, at, t, depth, limits);
      hide *;
    } else {
      item := MergedLeaf(kind, m, data, pos, at, t, depth, limits);
      hide *;
    }
  }

  lemma {:induction false} MergedLeaf(kind: Kind, m: Msg, data: seq<Byte>, pos: nat, at: nat, t: nat, depth: nat, limits: Limits) returns (item: Item)
    requires VarintHere(data, pos, at, t) && t % 8 < 6 && t / 8 % U32_SIZE != 0 && at <= |data| && depth <= limits.maxDepth
    requires var f := FieldOf(kind, t / 8 % U32_SIZE); !f.NoField? && !HasMessage(f)
    requires MergeField(kind, m, Tag(t / 8 % U32_SIZE, WireOf(t % 8)), data, at, depth, limits).Got?
    ensures var r := MergeField(kind, m, Tag(t / 8 % U32_SIZE, WireOf(t % 8)), data, at, depth, limits);
            && Tagged(kind, data, pos, at, r.next, t, item) && WellFormedItem(kind, item)
            && BuildItem(kind, item, m, limits.maxDepth - depth, limits.maxCount) == Ok(r.value)
  {
    var num := t / 8 % U32_SIZE;
    var r := MergeField(kind, m, Tag(num, WireOf(t % 8)), data, at, depth, limits);
    VarintAhead(data, pos, at, t);
    Known(kind, num);
    hide VarintHere, FieldOf;
    if FieldOf(kind, num).Int32? {
      var v := ReadVarint(data, at).value;
      item := Number(num, AsI32(v));
      VarintIs(data, at, v, r.next);
      hide ReadVarint;
    } else {
      var b := ReadBytes(data, at).value;
      item := Leaf(num, b);
      BytesAre(data, at, b, r.next);
      hide ReadBytes, ValidUtf8, TextHere, PutBytes, Append;
    }
  }

  lemma {:induction false} MergedMessage(kind: Kind, m: Msg, data: seq<Byte>, pos: nat, at: nat, t: nat, depth: nat, limits: Limits)
    returns (item: Item)
    requires VarintHere(data, pos, at, t) && t % 8 < 6 && t / 8 % U32_SIZE != 0 && at <= |data| && depth <= limits.maxDepth
    requires HasMessage(FieldOf(kind, t / 8 % U32_SIZE))
    requires MergeField(kind, m, Tag(t / 8 % U32_SIZE, WireOf(t % 8)), data, at, depth, limits).Got?
    ensures var r := MergeField(kind, m, Tag(t / 8 % U32_SIZE, WireOf(t % 8)), data, at, depth, limits);
            && Tagged(kind, data, pos, at, r.next, t, item) && WellFormedItem(kind, item)
            && BuildItem(kind, item, m, limits.maxDepth - depth, limits.maxCount) == Ok(r.value)
    decreases |data| - at, 0
  {
    hide VarintHere, FieldOf, FramedHere, Records, Build, ReadFields, Store, WellFormed, MergeField, ReadVarint, Tagged, BuildItem,
      WellFormedItem;
    var num := t / 8 % U32_SIZE;
    var f := FieldOf(kind, num);
    VarintAhead(data, pos, at, t);
    Known(kind, num);
    var start, end := MessageRead(kind, m, data, at, num, WireOf(t % 8), depth, limits);
    var items := FieldsSplit(f.kind, data, start, end, depth + 1, limits, EMPTY);
    item := Node(num, items);
    NodeTagged(kind, data, pos, at, start, end, t, num, items);
    NodeBuilt(kind, num, items, m, limits.maxDepth - depth, limits.maxCount);
  }

  lemma {:induction false} NodeTagged(kind: Kind, data: seq<Byte>, pos: nat, at: nat, start: nat, next: nat, t: nat, num: nat, items: seq<Item>)
    requires num == t / 8 % U32_SIZE && num != 0 && t % 8 < 6 && at < next <= |data| && pos < at
    requires HasMessage(FieldOf(kind, num)) && FramedHere(data, at, start, next)
    requires Records(FieldOf(kind, num).kind, data, start, next, items)
    ensures Tagged(kind, data, pos, at, next, t, Node(num, items))
  {
    hide FieldOf, FramedHere, Records;
  }

  lemma {:induction false} NodeBuilt(kind: Kind, num: nat, items: seq<Item>, m: Msg, room: nat, maxCount: nat)
    requires 0 < num <= MAX_FIELD_NUMBER && HasMessage(FieldOf(kind, num)) && WellFormed(FieldOf(kind, num).kind, items) && room > 0
    ensures WellFormedItem(kind, Node(num, items))
    ensures var r := Build(FieldOf(kind, num).kind, items, EMPTY, room - 1, maxCount);
            BuildItem(kind, Node(num, items), m, room, maxCount)
            == if r.Err? then Err(r.error) else Store(FieldOf(kind, num), m, num, r.value, maxCount)
  {
    hide FieldOf, Build, Store, WellFormed;
  }

  /** A submessage that is merged stands framed, and its fields were read. */
  lemma {:induction false} MessageRead(kind: Kind, m: Msg, data: seq<Byte>, at: nat, num: nat, wire: WireType, depth: nat, limits: Limits)
    returns (start: nat, end: nat)
    requires at <= |data| && HasMessage(FieldOf(kind, num)) && MergeField(kind, m, Tag(num, wire), data, at, depth, limits).Got?
    ensures var r := MergeField(kind, m, Tag(num, wire), data, at, depth, limits);
            && at < start <= end <= |data| && end == r.next && FramedHere(data, at, start, end) && depth < limits.maxDepth
            && ReadFields(FieldOf(kind, num).kind, data, start, end, depth + 1, limits, EMPTY).Got?
            && Store(FieldOf(kind, num), m, num,
                     ReadFields(FieldOf(kind, num).kind, data, start, end, depth + 1, limits, EMPTY).value, limits.maxCount)
               == Ok(r.value)
  {
    hide VarintHere, FieldOf, ReadFields, Store, MergeField;
    MergesMessage(kind, m, data, at, num, wire, depth, limits);
    var v := ReadVarint(data, at);
    assert v.Got?;
    hide ReadVarint;
    VarintIs(data, at, v.value, v.next);
    start, end := v.next, v.next + v.value;
  }

  /** A message that is read is records, and reading it is merging them. */
  lemma {:induction false} FieldsSplit(kind: Kind, data: seq<Byte>, pos: nat, end: nat, depth: nat, limits: Limits, m: Msg)
    returns (items: seq<Item>)
    requires pos <= |data| && end <= |data| && depth <= limits.maxDepth
    requires ReadFields(kind, data, pos, end, depth, limits, m).Got?
    ensures Records(kind, data, pos, end, items) && WellFormed(kind, items)
    ensures Build(kind, items, m, limits.maxDepth - depth, limits.maxCount)
         == Ok(ReadFields(kind, data, pos, end, depth, limits, m).value)
    decreases |data| - pos, 2
  {
    if pos == end {
      items := [];
    } else {
      var v := ReadVarint(data, pos);
      VarintIs(data, pos, v.value, v.next);
      TagIs(data, pos, v.next, v.value);
      hide ReadVarint, VarintHere, MergeField, ReadTag;
      var item := Merged(kind, m, data, pos, v.next, v.value, depth, limits);
      var r := MergeField(kind, m, Tag(v.value / 8 % U32_SIZE, WireOf(v.value % 8)), data, v.next, depth, limits);
      var more := FieldsSplit(kind, data, r.next, end, depth, limits, r.value);
      items := [item] + more;
      hide ReadFields, Tagged, BuildItem, WellFormedItem;
      assert items[1..] == more;
      assert Record(kind, data, pos, r.next, item);
    }
  }

  // Records are read.

  /** A record is read and merged, when its item can be. */
  lemma {:induction false} RecordRead(kind: Kind, m: Msg, data: seq<Byte>, pos: nat, at: nat, next: nat, t: nat, item: Item, depth: nat, limits: Limits)
    requires Tagged(kind, data, pos, at, next, t, item) && WellFormedItem(kind, item)
    requires depth <= limits.maxDepth && BuildItem(kind, item, m, limits.maxDepth - depth, limits.maxCount).Ok?
    ensures at <= |data|
    ensures MergeField(kind, m, Tag(t / 8 % U32_SIZE, WireOf(t % 8)), data, at, depth, limits)
         == Got(BuildItem(kind, item, m, limits.maxDepth - depth, limits.maxCount).value, next)
    decreases item, 1
  {
    if HasMessage(FieldOf(kind, t / 8 % U32_SIZE)) {
      NodeRead(kind, m, data, pos, at, next, t, item, depth, limits);
      hide Tagged, MergeField, BuildItem, FieldOf;
    } else {
      LeafRead(kind, m, data, pos, at, next, t, item, depth, limits);
      hide Tagged, MergeField, BuildItem, FieldOf;
    }
  }

  lemma {:induction false} LeafRead(kind: Kind, m: Msg, data: seq<Byte>, pos: nat, at: nat, next: nat, t: nat, item: Item, depth: nat, limits: Limits)
    requires Tagged(kind, data, pos, at, next, t, item) && WellFormedItem(kind, item)
    requires !HasMessage(FieldOf(kind, t / 8 % U32_SIZE))
    requires depth <= limits.maxDepth && BuildItem(kind, item, m, limits.maxDepth - depth, limits.maxCount).Ok?
    ensures at <= |data|
    ensures MergeField(kind, m, Tag(t / 8 % U32_SIZE, WireOf(t % 8)), data, at, depth, limits)
         == Got(BuildItem(kind, item, m, limits.maxDepth - depth, limits.maxCount).value, next)
  {
    hide VarintHere, Skip, ValueHere, FieldOf, UnknownRecord, ReadVarint, ReadBytes, ValidUtf8, PutBytes, Append;
    var f := FieldOf(kind, t / 8 % U32_SIZE);
    if f.NoField? {
      SkipIs(data, at, next, t % 8);
    } else if f.Int32? {
      var v: nat :| VarintHere(data, at, next, v) && item.value == AsI32(v);
      VarintIs(data, at, v, next);
    } else {
      hide TextHere;
      var start: nat :| TextHere(data, at, start, next, item.bytes);
      BytesAre(data, at, item.bytes, next);
    }
  }

  lemma {:induction false} NodeRead(kind: Kind, m: Msg, data: seq<Byte>, pos: nat, at: nat, next: nat, t: nat, item: Item, depth: nat, limits: Limits)
    requires Tagged(kind, data, pos, at, next, t, item) && WellFormedItem(kind, item)
    requires depth <= limits.maxDepth && BuildItem(kind, item, m, limits.maxDepth - depth, limits.maxCount).Ok?
    requires HasMessage(FieldOf(kind, t / 8 % U32_SIZE))
    ensures at <= |data|
    ensures MergeField(kind, m, Tag(t / 8 % U32_SIZE, WireOf(t % 8)), data, at, depth, limits)
         == Got(BuildItem(kind, item, m, limits.maxDepth - depth, limits.maxCount).value, next)
    decreases item, 0
  {
    hide Tagged, VarintHere, ReadVarint, FieldOf, ReadFields, Records, Build, BuildItem, Store, WellFormed, WellFormedItem, FramedHere, MergeField, Finish;
    var num := t / 8 % U32_SIZE;
    TaggedCode(kind, data, pos, at, next, t, item);
    var start := NodeStart(kind, data, pos, at, next, t, item);
    NodeItemBuilt(kind, item, m, limits.maxDepth - depth, limits.maxCount);
    var kind' := FieldOf(kind, num).kind;
    FramedEnds(data, at, start, next);
    RecordsRead(kind', data, start, next, item.items, depth + 1, limits, EMPTY);
    MessageMerged(kind, m, data, at, num, WireOf(t % 8), start, next, depth, limits);
    Finished(BuildItem(kind, item, m, limits.maxDepth - depth, limits.maxCount), next);
  }

  lemma {:induction false} NodeItemBuilt(kind: Kind, item: Item, m: Msg, room: nat, maxCount: nat)
    requires item.Node? && WellFormedItem(kind, item) && BuildItem(kind, item, m, room, maxCount).Ok?
    ensures HasMessage(FieldOf(kind, item.num)) && WellFormed(FieldOf(kind, item.num).kind, item.items) && room > 0
    ensures Build(FieldOf(kind, item.num).kind, item.items, EMPTY, room - 1, maxCount).Ok?
    ensures BuildItem(kind, item, m, room, maxCount)
         == Store(FieldOf(kind, item.num), m, item.num, Build(FieldOf(kind, item.num).kind, item.items, EMPTY, room - 1, maxCount).value, maxCount)
  {
    hide FieldOf, WellFormed, Build, Store;
  }

  lemma {:induction false} Finished(o: Outcome<Msg>, next: nat)
    ensures o.Ok? ==> Finish(o, next) == Got(o.value, next)
  {}

  lemma {:induction false} FramedEnds(data: seq<Byte>, at: nat, start: nat, next: nat)
    requires FramedHere(data, at, start, next)
    ensures at <= start <= next <= |data|
  {}

  lemma {:induction false} NodeStart(kind: Kind, data: seq<Byte>, pos: nat, at: nat, next: nat, t: nat, item: Item) returns (start: nat)
    requires Tagged(kind, data, pos, at, next, t, item) && HasMessage(FieldOf(kind, t / 8 % U32_SIZE))
    ensures item.Node? && item.num == t / 8 % U32_SIZE && at < next <= |data| && FramedHere(data, at, start, next)
    ensures Records(FieldOf(kind, item.num).kind, data, start, next, item.items)
  {
    hide FramedHere, Records, FieldOf;
    start :| FramedHere(data, at, start, next) && Records(FieldOf(kind, item.num).kind, data, start, next, item.items);
  }

  lemma {:induction false} MessageMerged(kind: Kind, m: Msg, data: seq<Byte>, at: nat, num: nat, wire: WireType, start: nat, end: nat, depth: nat, limits: Limits)
    requires at <= |data| && HasMessage(FieldOf(kind, num)) && FramedHere(data, at, start, end) && depth < limits.maxDepth
    requires start <= end <= |data| && ReadFields(FieldOf(kind, num).kind, data, start, end, depth + 1, limits, EMPTY).Got?
    ensures MergeField(kind, m, Tag(num, wire), data, at, depth, limits)
         == Finish(Store(FieldOf(kind, num), m, num,
                         ReadFields(FieldOf(kind, num).kind, data, start, end, depth + 1, limits, EMPTY).value, limits.maxCount), end)
  {
    hide VarintHere, ReadVarint, FieldOf, ReadFields, Store, ReadMessage, MergeField;
    VarintIs(data, at, end - start, start);
    MessageAt(FieldOf(kind, num).kind, data, at, depth, limits);
    MergesMessage(kind, m, data, at, num, wire, depth, limits);
  }

  lemma {:induction false} MergesMessage(kind: Kind, m: Msg, data: seq<Byte>, at: nat, num: nat, wire: WireType, depth: nat, limits: Limits)
    requires at <= |data| && HasMessage(FieldOf(kind, num))
    ensures MergeField(kind, m, Tag(num, wire), data, at, depth, limits)
         == match ReadMessage(FieldOf(kind, num).kind, data, at, depth, limits)
            case Fail(e) => Fail(e)
            case Got(sub, next) => Finish(Store(FieldOf(kind, num), m, num, sub, limits.maxCount), next)
  {
    hide ReadMessage, FieldOf, Store;
  }

  /** Records are read to the end, when they can be merged. */
  lemma {:induction false} RecordsRead(kind: Kind, data: seq<Byte>, pos: nat, end: nat, items: seq<Item>, depth: nat, limits: Limits, m: Msg)
    requires Records(kind, data, pos, end, items) && WellFormed(kind, items) && end <= |data|
    requires depth <= limits.maxDepth && Build(kind, items, m, limits.maxDepth - depth, limits.maxCount).Ok?
    ensures pos <= end
    ensures ReadFields(kind, data, pos, end, depth, limits, m)
         == Got(Build(kind, items, m, limits.maxDepth - depth, limits.maxCount).value, end)
    decreases items, 1
  {
    if items != [] {
      hide VarintHere, Tagged, MergeField, ReadTag, BuildItem, WellFormedItem;
      var next: nat :| pos < next <= end && Record(kind, data, pos, next, items[0]) && Records(kind, data, next, end, items[1..]);
      var at: nat, t: nat :| VarintHere(data, pos, at, t) && Tagged(kind, data, pos, at, next, t, items[0]);
      TaggedCode(kind, data, pos, at, next, t, items[0]);
      TagIs(data, pos, at, t);
      RecordRead(kind, m, data, pos, at, next, t, items[0], depth, limits);
      var m' := BuildItem(kind, items[0], m, limits.maxDepth - depth, limits.maxCount).value;
      RecordsRead(kind, data, next, end, items[1..], depth, limits, m');
    }
  }

  lemma {:induction false} TaggedCode(kind: Kind, data: seq<Byte>, pos: nat, at: nat, next: nat, t: nat, item: Item)
    requires Tagged(kind, data, pos, at, next, t, item)
    ensures t % 8 < 6 && t / 8 % U32_SIZE != 0
  {}

  /** Bytes decode exactly when they are within the size limit and are records that can
      be merged within the limits, and they decode to what these mean. */
  lemma {:induction false} DecodesExactly(kind: Kind, data: seq<Byte>, limits: Limits, m: Msg)
    ensures Unmarshal(kind, data, limits) == Ok(m)
       <==> && |data| <= limits.maxSize
            && exists items ::
                 && Records(kind, data, 0, |data|, items) && WellFormed(kind, items)
                 && Build(kind, items, EMPTY, limits.maxDepth, limits.maxCount) == Ok(m)
  {
    hide ReadFields, Records, WellFormed, Build;
    if Unmarshal(kind, data, limits) == Ok(m) {
      var items := FieldsSplit(kind, data, 0, |data|, 0, limits, EMPTY);
    }
    forall items | Records(kind, data, 0, |data|, items) && WellFormed(kind, items)
                   && Build(kind, items, EMPTY, limits.maxDepth, limits.maxCount) == Ok(m)
      ensures ReadFields(kind, data, 0, |data|, 0, limits, EMPTY) == Got(m, |data|)
    {
      RecordsRead(kind, data, 0, |data|, items, 0, limits, EMPTY);
    }
  }
}
