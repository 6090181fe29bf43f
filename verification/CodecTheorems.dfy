/** What the writer and the reader agree on: which values are too deep, what a
    message means, and that unknown records mean nothing. */
module CodecTheorems {
  import opened Bytes
  import opened Wire
  import opened Codec
  import opened CodecProof

  // Depth and counts.

  /** Every node of the records is within room descents. */
  predicate ItemFits(item: Item, room: nat)
    decreases item
  {
    item.Node? ==> room > 0 && ItemsFit(item.items, room - 1)
  }

  predicate ItemsFit(items: seq<Item>, room: nat)
    decreases items
  {
    items != [] ==> ItemFits(items[0], room) && ItemsFit(items[1..], room)
  }

  /** Merging with neither limit. */
  function MergeItem(kind: Kind, item: Item, m: Msg): Msg
    requires WellFormedItem(kind, item)
    decreases item
  {
    match item
    case Opaque(_) => m
    case Number(num, v) => PutInt(m, num, v)
    case Leaf(num, b) =>
      if FieldOf(kind, num).TextList? then Msg(m.fields[num := VList(ListIn(m, num) + [VBytes(b)])])
      else PutBytes(m, num, b)
    case Node(num, items) =>
      var f := FieldOf(kind, num);
      var sub := Meaning(f.kind, items, EMPTY);
      if f.SubList? then Msg(m.fields[num := VList(ListIn(m, num) + [VMsg(sub)])])
      else if f.Table? then Msg(m.fields[num := VTable(TableIn(m, num)[EntryKey(sub) := EntryValue(f.kind, sub)])])
      else Msg(m.fields[num := VMsg(sub)])
  }

  function Meaning(kind: Kind, items: seq<Item>, m: Msg): Msg
    requires WellFormed(kind, items)
    decreases items
  {
    if items == [] then m else Meaning(kind, items[1..], MergeItem(kind, items[0], m))
  }

  /** No list or map of the records goes past maxCount. */
  predicate ItemCounts(kind: Kind, item: Item, m: Msg, maxCount: nat)
    requires WellFormedItem(kind, item)
    decreases item
  {
    match item
    case Opaque(_) => true
    case Number(_, _) => true
    case Leaf(num, _) => FieldOf(kind, num).TextList? ==> |ListIn(m, num)| < maxCount
    case Node(num, items) =>
      var f := FieldOf(kind, num);
      && Counts(f.kind, items, EMPTY, maxCount)
      && (f.SubList? ==> |ListIn(m, num)| < maxCount)
      && (f.Table? && EntryKey(Meaning(f.kind, items, EMPTY)) !in TableIn(m, num) ==> |TableIn(m, num)| < maxCount)
  }

  predicate Counts(kind: Kind, items: seq<Item>, m: Msg, maxCount: nat)
    requires WellFormed(kind, items)
    decreases items
  {
    items != [] ==>
      && ItemCounts(kind, items[0], m, maxCount)
      && Counts(kind, items[1..], MergeItem(kind, items[0], m), maxCount)
  }

  /** Merging under the limits, from the records alone. */
  function Limited(m: Msg, fits: bool): Outcome<Msg> {
    if fits then Ok(m) else Err(DepthExceeded)
  }

  lemma {:induction false} BuildItemOutcome(kind: Kind, item: Item, m: Msg, room: nat, maxCount: nat)
    requires WellFormedItem(kind, item)
    ensures ItemCounts(kind, item, m, maxCount) ==>
              BuildItem(kind, item, m, room, maxCount) == Limited(MergeItem(kind, item, m), ItemFits(item, room))
    ensures !ItemCounts(kind, item, m, maxCount) && ItemFits(item, room) ==>
              BuildItem(kind, item, m, room, maxCount) == Err(RepeatedCountExceeded)
    ensures !ItemCounts(kind, item, m, maxCount) ==> BuildItem(kind, item, m, room, maxCount).Err?
    decreases item
  {
    hide ReadTag, FieldOf;
    if item.Node? && room > 0 {
      BuildOutcome(FieldOf(kind, item.num).kind, item.items, EMPTY, room - 1, maxCount);
    }
  }

  lemma {:induction false} BuildOutcome(kind: Kind, items: seq<Item>, m: Msg, room: nat, maxCount: nat)
    requires WellFormed(kind, items)
    ensures Counts(kind, items, m, maxCount) ==>
              Build(kind, items, m, room, maxCount) == Limited(Meaning(kind, items, m), ItemsFit(items, room))
    ensures !Counts(kind, items, m, maxCount) && ItemsFit(items, room) ==>
              Build(kind, items, m, room, maxCount) == Err(RepeatedCountExceeded)
    ensures !Counts(kind, items, m, maxCount) ==> Build(kind, items, m, room, maxCount).Err?
    decreases items
  {
    hide BuildItem, MergeItem, ItemCounts, ItemFits, WellFormedItem;
    if items != [] {
      BuildItemOutcome(kind, items[0], m, room, maxCount);
      BuildOutcome(kind, items[1..], MergeItem(kind, items[0], m), room, maxCount);
    }
  }

  /** Any message's records decode to their meaning exactly when the input size,
      the nesting and the counts are within the limits, and otherwise the first
      limit passed is the error. */
  lemma DecodesToMeaning(kind: Kind, items: seq<Item>, limits: Limits)
    requires WellFormed(kind, items) && |Encode(kind, items)| < U64_SIZE
    ensures Unmarshal(kind, Encode(kind, items), limits)
         == if |Encode(kind, items)| > limits.maxSize then Err(MessageTooLarge)
            else Build(kind, items, EMPTY, limits.maxDepth, limits.maxCount)
    ensures var r := Build(kind, items, EMPTY, limits.maxDepth, limits.maxCount);
            var deep, many := !ItemsFit(items, limits.maxDepth), !Counts(kind, items, EMPTY, limits.maxCount);
            && (!deep && !many ==> r == Ok(Meaning(kind, items, EMPTY)))
            && (deep && !many ==> r == Err(DepthExceeded))
            && (!deep && many ==> r == Err(RepeatedCountExceeded))
            && (deep && many ==> r.Err?)
  {
    hide Encode, ReadFields, Build, Meaning, ItemsFit, Counts, WellFormed;
    var data := Encode(kind, items);
    AtAll(data);
    ReadRecords(kind, items, data, 0, 0, limits, EMPTY);
    BuildOutcome(kind, items, EMPTY, limits.maxDepth, limits.maxCount);
  }

  lemma AtAll(data: seq<Byte>)
    ensures At(data, 0, data)
  {
    assert data[0..|data|] == data;
  }

  // Unknown records.

  function StripItem(item: Item): Item
    requires !item.Opaque?
    decreases item, 0
  {
    if item.Node? then Node(item.num, Strip(item.items)) else item
  }

  /** The records without the unknown ones, at every depth. */
  function Strip(items: seq<Item>): seq<Item>
    decreases items
  {
    if items == [] then []
    else (if items[0].Opaque? then [] else [StripItem(items[0])]) + Strip(items[1..])
  }

  lemma {:induction false} StripItemSame(kind: Kind, item: Item, m: Msg, room: nat, maxCount: nat)
    requires WellFormedItem(kind, item) && !item.Opaque?
    ensures WellFormedItem(kind, StripItem(item))
    ensures BuildItem(kind, StripItem(item), m, room, maxCount) == BuildItem(kind, item, m, room, maxCount)
    decreases item, 0
  {
    hide FieldOf, Store, StoreText;
    if item.Node? {
      StripSame(FieldOf(kind, item.num).kind, item.items, EMPTY, if room == 0 then 0 else room - 1, maxCount);
    }
  }

  lemma {:induction false} StripSame(kind: Kind, items: seq<Item>, m: Msg, room: nat, maxCount: nat)
    requires WellFormed(kind, items)
    ensures WellFormed(kind, Strip(items))
    ensures Build(kind, Strip(items), m, room, maxCount) == Build(kind, items, m, room, maxCount)
    decreases items
  {
    hide BuildItem, WellFormedItem, StripItem;
    if items != [] {
      var rest := Strip(items[1..]);
      var built := BuildItem(kind, items[0], m, room, maxCount);
      StripSame(kind, items[1..], if built.Ok? then built.value else m, room, maxCount);
      if items[0].Opaque? {
        OpaqueMeansNothing(kind, items[0], m, room, maxCount);
        assert Strip(items) == rest;
      } else {
        StripItemSame(kind, items[0], m, room, maxCount);
        var kept := StripItem(items[0]);
        assert Strip(items) == [kept] + rest;
        assert ([kept] + rest)[1..] == rest;
      }
    }
  }

  lemma OpaqueMeansNothing(kind: Kind, item: Item, m: Msg, room: nat, maxCount: nat)
    requires WellFormedItem(kind, item) && item.Opaque?
    ensures BuildItem(kind, item, m, room, maxCount) == Ok(m)
  {}

  lemma {:induction false} VarintLonger(a: nat, b: nat)
    requires a <= b
    ensures |VarintBytes(a)| <= |VarintBytes(b)|
    decreases b
  {
    if b >= 0x80 && a >= 0x80 {
      VarintLonger(a / 0x80, b / 0x80);
    }
  }

  /** Dropping unknown records shortens the bytes. */
  lemma {:induction false} StripShorter(kind: Kind, items: seq<Item>)
    requires WellFormed(kind, items) && WellFormed(kind, Strip(items))
    ensures |Encode(kind, Strip(items))| <= |Encode(kind, items)|
    decreases items
  {
    hide EncodeItem, WellFormedItem, StripItem;
    if items != [] {
      var rest := Strip(items[1..]);
      if items[0].Opaque? {
        assert Strip(items) == rest;
        StripShorter(kind, items[1..]);
      } else {
        var kept := StripItem(items[0]);
        assert Strip(items) == [kept] + rest;
        assert ([kept] + rest)[1..] == rest;
        StripShorter(kind, items[1..]);
        StripItemShorter(kind, items[0]);
      }
    }
  }

  lemma {:induction false} StripItemShorter(kind: Kind, item: Item)
    requires WellFormedItem(kind, item) && !item.Opaque? && WellFormedItem(kind, StripItem(item))
    ensures |EncodeItem(kind, StripItem(item))| <= |EncodeItem(kind, item)|
    decreases item, 0
  {
    hide FieldOf, VarintBytes, TagBytes;
    if item.Node? {
      var kind' := FieldOf(kind, item.num).kind;
      StripShorter(kind', item.items);
      VarintLonger(|Encode(kind', Strip(item.items))|, |Encode(kind', item.items)|);
    }
  }

  /** Unknown records anywhere leave the decoded value, or the refusal, as it is. */
  lemma UnknownFieldsTransparent(kind: Kind, items: seq<Item>, limits: Limits)
    requires WellFormed(kind, items) && |Encode(kind, items)| < U64_SIZE
    requires |Encode(kind, items)| <= limits.maxSize
    ensures WellFormed(kind, Strip(items))
    ensures Unmarshal(kind, Encode(kind, items), limits) == Unmarshal(kind, Encode(kind, Strip(items)), limits)
  {
    hide Encode, Build, Strip, WellFormed;
    StripSame(kind, items, EMPTY, limits.maxDepth, limits.maxCount);
    StripShorter(kind, items);
    DecodesToMeaning(kind, items, limits);
    DecodesToMeaning(kind, Strip(items), limits);
  }
}
