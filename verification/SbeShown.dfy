/** When the view shows the decoded message: field by field, for whole messages, and
    which layouts make it so on every buffer. */
module SbeShown {
  import opened Options
  import opened Bytes
  import opened SbeLayout
  import opened SbeValues
  import opened SbeCodec
  import opened SbeRoundTrip
  import opened SbeView

  // Scalars.

  /** The accessor for the field's kind gives the value, integers through either of
      the two. */
  ghost predicate Shown(c: Floats, v: View, slot: Slot, y: Value) {
    var name := slot.fd.name;
    match slot.fd.kind
    case Bool => y.VBool? && BoolField(v, name) == Done(y.b)
    case Enum => y.VEnum? && EnumField(v, name) == Done(y.n)
    case Float => y.VF32? && FloatField(c, v, name) == Done(c.widen(y.bits))
    case Double => y.VF64? && FloatField(c, v, name) == Done(y.bits)
    case String => y.VString? && StringField(v, name) == Done(y.text)
    case Bytes => y.VBytes? && BytesField(v, name) == Done(y.bytes)
    case Message(_) => false
    case _ => Integer(y) && (GivesInt(v, name, y.n) || GivesUint(v, name, y.n))
  }

  ghost predicate GivesInt(v: View, name: string, n: int) {
    IntField(v, name) == Done(n)
  }

  ghost predicate GivesUint(v: View, name: string, n: int) {
    UintField(v, name).Done? && UintField(v, name).value == n
  }

  /** The number the bytes of an encoding hold. */
  function WireNumber(e: Encoding, b: seq<Byte>): int {
    match e
    case Signed(w) => ToSigned(FromLe(b), w)
    case _ => FromLe(b)
  }

  /** The bytes of a scalar are ones that the view and the decoder take alike; for a
      field the decoder clears, ones that read as unset. */
  predicate Tells(c: Floats, kind: Kind, e: Encoding, b: seq<Byte>, cleared: bool) {
    var n := WireNumber(e, b);
    match kind
    case Bool => if cleared then n % 256 == 0 else n == 0 || n % 256 != 0
    case Enum => e.Unsigned? && |b| <= 2 && (cleared ==> n == 0)
    case Int32 => if cleared then n == 0 else SignedFits(n, 4)
    case Int64 => if cleared then n == 0 else SignedFits(n, 8)
    case Uint32 => if cleared then n == 0 else UnsignedFits(n, 4)
    case Uint64 => if cleared then n == 0 else UnsignedFits(n, 8)
    case Float => e.FloatBits? && (cleared ==> c.widen(FromLe(b)) == c.widen(0))
    case Double => e.DoubleBits? && (cleared ==> n == 0)
    case String => cleared ==> Strip(b) == []
    case Bytes => cleared ==> b == []
    case Message(_) => false
  }

  /** A scalar is shown exactly when its bytes tell. */
  lemma {:induction false} ScalarShown(c: Floats, v: View, length: nat, acc: Fields, m: Fields, i: nat, cleared: bool)
    requires Reflects(c, v, length, acc, m) && i < |v.slots| && !v.slots[i].fd.kind.Message?
    ensures SlotTiled(v.slots[i]) && v.blockStart + v.slots[i].offset + v.slots[i].size <= |v.data|
    ensures ReadSlot(c, v.data, v.blockStart, v.slots[i]).Done?
    ensures var slot := v.slots[i];
            Shown(c, v, slot, if cleared then Unset(slot.fd) else ReadSlot(c, v.data, v.blockStart, slot).value)
            == Tells(c, slot.fd.kind, slot.encoding.value, SlotData(v.data, v.blockStart, slot), cleared)
  {
    FieldOf(c, v, length, acc, m, i);
    NamedSingle(v.slots, i);
    hide Reflects, FindSlot, ReadScalar, Shown, Tells, Unset;
    var slot := v.slots[i];
    EncodingSized(slot.fd);
    BytesShown(c, v, slot, SlotData(v.data, v.blockStart, slot), ReadSlot(c, v.data, v.blockStart, slot).value, cleared);
  }

  lemma {:induction false} NamedSingle(slots: seq<Slot>, i: nat)
    requires Named(slots) && i < |slots|
    ensures slots[i].fd.shape.Single?
    decreases |slots|
  {
    if i > 0 {
      assert slots[i] == slots[1..][i - 1];
      NamedSingle(slots[1..], i - 1);
    }
  }

  /** The bytes of a slot. */
  function SlotData(data: seq<Byte>, base: nat, slot: Slot): seq<Byte> {
    if base + slot.offset + slot.size <= |data| then data[base + slot.offset..base + slot.offset + slot.size] else []
  }

  lemma {:induction false} BytesShown(c: Floats, v: View, slot: Slot, b: seq<Byte>, x: Value, cleared: bool)
    requires FindSlot(v.slots, slot.fd.name) == Some(slot) && SlotTiled(slot) && !slot.fd.kind.Message? && slot.fd.shape.Single?
    requires BlockBytesAt(v, slot.offset, slot.size) == Done(b) && |b| == slot.size
    requires var e := Sized(slot.encoding.value, slot.size);
             WellSized(e) && ReadScalar(c, slot.fd.kind, e, b) == Done(x)
    ensures Shown(c, v, slot, if cleared then Unset(slot.fd) else x)
         == Tells(c, slot.fd.kind, slot.encoding.value, b, cleared)
  {
    match slot.encoding.value
    case Signed(w) => SignedShown(c, v, slot, b, x, cleared);
    case Unsigned(w) => UnsignedShown(c, v, slot, b, x, cleared);
    case _ => hide FindSlot, BlockBytesAt, FromLe, Strip, ValidUtf8;
  }

  lemma {:induction false} SignedShown(c: Floats, v: View, slot: Slot, b: seq<Byte>, x: Value, cleared: bool)
    requires FindSlot(v.slots, slot.fd.name) == Some(slot) && slot.fd.shape.Single?
    requires BlockBytesAt(v, slot.offset, slot.size) == Done(b) && |b| == slot.size
    requires slot.encoding == Some(Signed(slot.size)) && Width(slot.size)
    requires ReadScalar(c, slot.fd.kind, Sized(Signed(slot.size), slot.size), b) == Done(x)
    ensures Shown(c, v, slot, if cleared then Unset(slot.fd) else x)
         == Tells(c, slot.fd.kind, slot.encoding.value, b, cleared)
  {
    hide FromLe, ToSigned, Wrap, Span, SignedFits, UnsignedFits;
    var n := ToSigned(FromLe(b), slot.size);
    FirstByte(v, slot, b);
    SignedByte(FromLe(b), slot.size);
    KindNumbers(n);
    Widest(FromLe(b), slot.size);
    var name := slot.fd.name;
    assert IntField(v, name) == Done(n);
    assert UintField(v, name) == Refuse && FloatField(c, v, name) == Refuse && EnumField(v, name) == Refuse;
    assert BoolField(v, name) == Done(n % 256 != 0);
    hide FindSlot, BlockBytesAt, IntField, UintField, FloatField, EnumField, BoolField;
  }

  lemma {:induction false} UnsignedShown(c: Floats, v: View, slot: Slot, b: seq<Byte>, x: Value, cleared: bool)
    requires FindSlot(v.slots, slot.fd.name) == Some(slot) && slot.fd.shape.Single?
    requires BlockBytesAt(v, slot.offset, slot.size) == Done(b) && |b| == slot.size
    requires slot.encoding == Some(Unsigned(slot.size)) && Width(slot.size)
    requires ReadScalar(c, slot.fd.kind, Sized(Unsigned(slot.size), slot.size), b) == Done(x)
    ensures Shown(c, v, slot, if cleared then Unset(slot.fd) else x)
         == Tells(c, slot.fd.kind, slot.encoding.value, b, cleared)
  {
    hide FromLe, ToSigned, Wrap, Span, SignedFits, UnsignedFits;
    var n := FromLe(b);
    FirstByte(v, slot, b);
    KindNumbers(n);
    FromLeBound(b);
    Widest(n, slot.size);
    if slot.size <= 2 {
      SmallEnum(b);
    }
    var name := slot.fd.name;
    assert UintField(v, name) == Done(n);
    assert IntField(v, name) == Refuse && FloatField(c, v, name) == Refuse;
    assert EnumField(v, name) == if slot.size <= 2 then Done(n) else Refuse;
    assert BoolField(v, name) == Done(n % 256 != 0);
    hide FindSlot, BlockBytesAt, IntField, UintField, FloatField, EnumField, BoolField;
  }

  /** Every encoding's numbers are within eight bytes. */
  lemma {:induction false} Widest(n: nat, w: nat)
    requires Width(w)
    ensures SignedFits(ToSigned(n, w), 8) && (n < Span(w) ==> UnsignedFits(n, 8))
  {
    SignedBack(n, w);
    Spans();
    hide Span, ToSigned;
  }

  /** A number is kept by a kind exactly when it is in the kind's range. */
  lemma {:induction false} KindNumbers(n: int)
    ensures ToSigned(n, 4) == n <==> SignedFits(n, 4)
    ensures ToSigned(n, 8) == n <==> SignedFits(n, 8)
    ensures Wrap(n, 4) == n <==> UnsignedFits(n, 4)
    ensures Wrap(n, 8) == n <==> UnsignedFits(n, 8)
  {
    hide ToSigned, Wrap, SignedFits, UnsignedFits;
    SignedBack(n, 4);
    SignedBack(n, 8);
  }

  // Blocks.

  predicate SlotTells(c: Floats, data: seq<Byte>, base: nat, slot: Slot, cleared: bool)
    decreases slot, 0
  {
    if slot.fd.kind.Message? then BlockTells(c, data, base + slot.offset, slot.composite, cleared)
    else slot.encoding.Some? && Tells(c, slot.fd.kind, slot.encoding.value, SlotData(data, base, slot), cleared)
  }

  /** Every scalar of the block tells; those of a composite whose field is cleared read
      as unset. */
  predicate BlockTells(c: Floats, data: seq<Byte>, base: nat, slots: seq<Slot>, cleared: bool)
    decreases slots, 1
  {
    slots != [] ==>
      && SlotTells(c, data, base, slots[0], cleared || ClearedBy(slots[0].fd, slots[1..]))
      && BlockTells(c, data, base, slots[1..], cleared)
  }

  ghost predicate SlotShown(c: Floats, v: View, slot: Slot, y: Value)
    decreases slot, 0
  {
    if slot.fd.kind.Message? then
      y.VMsg? && CompositeOf(v, slot.fd.name).Done?
      && BlockShown(c, CompositeOf(v, slot.fd.name).value, slot.composite, y.fields)
    else Shown(c, v, slot, y)
  }

  /** The view gives the message's value for every field of the block, composites
      included. */
  ghost predicate BlockShown(c: Floats, v: View, slots: seq<Slot>, m: Fields)
    decreases slots, 1
  {
    slots != [] ==> SlotShown(c, v, slots[0], Get(m, slots[0].fd)) && BlockShown(c, v, slots[1..], m)
  }

  /** A message or, where its field was cleared, an empty one. */
  function Kept(m: Fields, cleared: bool): Fields {
    if cleared then map[] else m
  }

  lemma {:induction false} SuffixShown(c: Floats, v: View, length: nat, acc: Fields, m: Fields, i: nat, cleared: bool)
    requires Reflects(c, v, length, acc, m) && i <= |v.slots|
    ensures BlockShown(c, v, v.slots[i..], Kept(m, cleared)) == BlockTells(c, v.data, v.blockStart, v.slots[i..], cleared)
    decreases v.slots, 1, |v.slots| - i
  {
    hide Reflects, SlotShown, SlotTells, ClearedBy;
    if i < |v.slots| {
      assert v.slots[i..][1..] == v.slots[i + 1..];
      OneShown(c, v, length, acc, m, i, cleared);
      SuffixShown(c, v, length, acc, m, i + 1, cleared);
    }
  }

  lemma {:induction false} OneShown(c: Floats, v: View, length: nat, acc: Fields, m: Fields, i: nat, cleared: bool)
    requires Reflects(c, v, length, acc, m) && i < |v.slots|
    ensures SlotShown(c, v, v.slots[i], Get(Kept(m, cleared), v.slots[i].fd))
         == SlotTells(c, v.data, v.blockStart, v.slots[i], cleared || ClearedBy(v.slots[i].fd, v.slots[i + 1..]))
    decreases v.slots, 0
  {
    hide Reflects, CompositeOf, ReadSlot, SlotShown, SlotTells, BlockShown, BlockTells, Shown, Tells, SlotData, ClearedBy, FindSlot;
    var slot := v.slots[i];
    var gone := cleared || ClearedBy(slot.fd, v.slots[i + 1..]);
    var y := Get(Kept(m, cleared), slot.fd);
    FieldOf(c, v, length, acc, m, i);
    var x := ReadSlot(c, v.data, v.blockStart, slot).value;
    NamedSingleOf(c, v, length, acc, m, i);
    assert y == if gone then Unset(slot.fd) else x;
    hide Get, Left;
    if slot.fd.kind.Message? {
      CompositeAgrees(c, v, length, acc, m, i);
      var inner := CompositeOf(v, slot.fd.name).value;
      ShownExactly(c, inner, slot.size, map[], x.fields, gone);
      CompositeShown(c, v, slot, y, inner, Kept(x.fields, gone));
      CompositeTells(c, v.data, v.blockStart, slot, gone);
    } else {
      ScalarShown(c, v, length, acc, m, i, gone);
      ScalarCases(c, v, slot, y, gone);
    }
  }

  lemma {:induction false} CompositeShown(c: Floats, v: View, slot: Slot, y: Value, inner: View, m: Fields)
    requires slot.fd.kind.Message? && y == VMsg(m) && CompositeOf(v, slot.fd.name) == Done(inner)
    ensures SlotShown(c, v, slot, y) == BlockShown(c, inner, slot.composite, m)
  {
    hide BlockShown, CompositeOf;
  }

  lemma {:induction false} CompositeTells(c: Floats, data: seq<Byte>, base: nat, slot: Slot, cleared: bool)
    requires slot.fd.kind.Message?
    ensures SlotTells(c, data, base, slot, cleared) == BlockTells(c, data, base + slot.offset, slot.composite, cleared)
  {
    hide BlockTells;
  }

  lemma {:induction false} ScalarCases(c: Floats, v: View, slot: Slot, y: Value, cleared: bool)
    requires !slot.fd.kind.Message? && slot.encoding.Some?
    ensures SlotShown(c, v, slot, y) == Shown(c, v, slot, y)
    ensures SlotTells(c, v.data, v.blockStart, slot, cleared)
         == Tells(c, slot.fd.kind, slot.encoding.value, SlotData(v.data, v.blockStart, slot), cleared)
  {
    hide Shown, Tells, SlotData;
  }

  lemma {:induction false} NamedSingleOf(c: Floats, v: View, length: nat, acc: Fields, m: Fields, i: nat)
    requires Reflects(c, v, length, acc, m) && i < |v.slots|
    ensures v.slots[i].fd.shape.Single?
  {
    NamedSingle(v.slots, i);
  }

  /** The view shows the decoded block exactly when every scalar of it tells. */
  lemma {:induction false} ShownExactly(c: Floats, v: View, length: nat, acc: Fields, m: Fields, cleared: bool)
    requires Reflects(c, v, length, acc, m)
    ensures BlockShown(c, v, v.slots, Kept(m, cleared)) == BlockTells(c, v.data, v.blockStart, v.slots, cleared)
    decreases v.slots, 2
  {
    hide Reflects, BlockShown, BlockTells;
    SuffixShown(c, v, length, acc, m, 0, cleared);
    assert v.slots[0..] == v.slots;
  }

  // Messages.

  ghost predicate EntryShown(c: Floats, gv: GroupView, g: Group, i: nat, item: Value) {
    item.VMsg? && EntryOf(gv, i).Done? && BlockShown(c, EntryOf(gv, i).value, g.slots, item.fields)
  }

  ghost predicate GroupShown(c: Floats, gv: GroupView, g: Group, items: seq<Value>) {
    gv.count == |items| && forall i :: 0 <= i < |items| ==> EntryShown(c, gv, g, i, items[i])
  }

  /** The view gives the message's value for every field, those of every group entry
      included. */
  ghost predicate MessageShown(c: Floats, r: View, t: Template, m: Fields) {
    && BlockShown(c, r, t.slots, m)
    && forall k :: 0 <= k < |t.groups| ==>
         && GroupOf(r, t.groups[k].fd.name).Done?
         && GroupShown(c, GroupOf(r, t.groups[k].fd.name).value, t.groups[k], ItemsOf(Get(m, t.groups[k].fd)))
  }

  /** Where an entry's block starts. */
  function EntryStart(gv: GroupView, i: nat): nat {
    gv.base + GROUP_HEADER + i * gv.blockLength
  }

  predicate EntryTells(c: Floats, gv: GroupView, g: Group, i: nat) {
    BlockTells(c, gv.data, EntryStart(gv, i), g.slots, false)
  }

  predicate GroupTells(c: Floats, gv: GroupView, g: Group) {
    forall i :: 0 <= i < gv.count ==> EntryTells(c, gv, g, i)
  }

  /** Every scalar of the root block and of every group entry tells. */
  ghost predicate MessageTells(c: Floats, r: View, t: Template) {
    && BlockTells(c, r.data, r.blockStart, t.slots, false)
    && forall k :: 0 <= k < |t.groups| ==>
         GroupOf(r, t.groups[k].fd.name).Done? && GroupTells(c, GroupOf(r, t.groups[k].fd.name).value, t.groups[k])
  }

  lemma {:induction false} EntryExactly(c: Floats, gv: GroupView, g: Group, i: nat, item: Value)
    requires EntryReflects(c, gv, g, i, item)
    ensures EntryShown(c, gv, g, i, item) == EntryTells(c, gv, g, i)
  {
    hide Reflects, BlockShown, BlockTells;
    ShownExactly(c, EntryOf(gv, i).value, g.blockLength, map[], item.fields, false);
  }

  lemma {:induction false} GroupExactly(c: Floats, gv: GroupView, g: Group, items: seq<Value>)
    requires GroupReflects(c, gv, g, items)
    ensures GroupShown(c, gv, g, items) == GroupTells(c, gv, g)
  {
    hide EntryReflects, EntryShown, EntryTells;
    forall i | 0 <= i < |items| ensures EntryShown(c, gv, g, i, items[i]) == EntryTells(c, gv, g, i) {
      EntryExactly(c, gv, g, i, items[i]);
    }
  }

  /** Fields read alike are shown alike. */
  lemma {:induction false} SameFields(c: Floats, v: View, slots: seq<Slot>, a: Fields, b: Fields)
    requires forall i :: 0 <= i < |slots| ==> Get(a, slots[i].fd) == Get(b, slots[i].fd)
    ensures BlockShown(c, v, slots, a) == BlockShown(c, v, slots, b)
    decreases |slots|
  {
    hide SlotShown, Get;
    if slots != [] {
      SameFields(c, v, slots[1..], a, b);
    }
  }

  /** On every buffer the decoder takes for a message type the view opens, and it shows
      the decoded message exactly when every scalar tells. */
  lemma {:induction false} ViewShowsExactly(c: Floats, codec: Codec, entries: seq<Entry>, k: nat, data: seq<Byte>,
                                            limits: Limits, acc: Fields)
    requires DistinctIds(entries) && k < |entries|
    requires TemplateTiled(entries[k].template) && TemplateNamed(entries[k].template)
    requires Unmarshal(c, entries[k].template, data, limits, acc).Done?
    ensures var t := entries[k].template;
            var r := ViewOf(RegisterAll(codec, entries), data, limits);
            && r.Done?
            && (MessageShown(c, r.value, t, Unmarshal(c, t, data, limits, acc).value) <==> MessageTells(c, r.value, t))
  {
    hide RegisterAll, Unmarshal, TemplateTiled, TemplateNamed, GroupOf, GroupReflects, GroupShown, GroupTells, BlockShown, BlockTells;
    hide Reflects, ViewOf, Get, DistinctIds;
    var t := entries[k].template;
    var m := Unmarshal(c, t, data, limits, acc).value;
    ViewAgrees(c, codec, entries, k, data, limits, acc);
    var r := ViewOf(RegisterAll(codec, entries), data, limits).value;
    var block :| Reflects(c, r, t.blockLength, acc, block)
                 && forall i :: 0 <= i < |t.slots| ==> Get(m, t.slots[i].fd) == Get(block, t.slots[i].fd);
    ShownExactly(c, r, t.blockLength, acc, block, false);
    SameFields(c, r, t.slots, m, block);
    forall g | 0 <= g < |t.groups|
      ensures var gv := GroupOf(r, t.groups[g].fd.name);
              gv.Done? && GroupShown(c, gv.value, t.groups[g], ItemsOf(Get(m, t.groups[g].fd))) == GroupTells(c, gv.value, t.groups[g])
    {
      GroupExactly(c, GroupOf(r, t.groups[g].fd.name).value, t.groups[g], Get(m, t.groups[g].fd).items);
    }
  }

  // Layouts.

  /** The encodings whose every value the view and the decoder take alike. */
  predicate Faithful(kind: Kind, e: Encoding) {
    match kind
    case Bool => e == Signed(1) || e == Unsigned(1)
    case Enum => e.Unsigned? && e.width <= 2
    case Int32 => (e.Signed? && e.width <= 4) || (e.Unsigned? && e.width <= 2)
    case Int64 => e.Signed? || (e.Unsigned? && e.width <= 4)
    case Uint32 => e.Unsigned? && e.width <= 4
    case Uint64 => e.Unsigned?
    case Float => e.FloatBits?
    case Double => e.DoubleBits?
    case _ => true
  }

  lemma {:induction false} FaithfulTells(c: Floats, kind: Kind, e: Sized, b: seq<Byte>)
    requires WellSized(e) && |b| == e.size && !kind.Message? && Faithful(kind, e.encoding)
    ensures Tells(c, kind, e.encoding, b, false)
  {
    if e.encoding.Signed? || e.encoding.Unsigned? {
      FromLeBound(b);
      SignedBack(FromLe(b), e.size);
      NarrowRange(ToSigned(FromLe(b), e.size), FromLe(b), e.size);
    }
    hide FromLe, ToSigned, Span, Strip;
  }

  lemma {:induction false} NarrowRange(s: int, n: nat, w: nat)
    requires Width(w) && SignedFits(s, w) && n < Span(w)
    ensures w <= 4 ==> SignedFits(s, 4) && UnsignedFits(n, 4) && SignedFits(n, 8)
    ensures w <= 2 ==> SignedFits(n, 4)
    ensures SignedFits(s, 8) && UnsignedFits(n, 8)
    ensures w == 1 ==> (s == 0 || s % 256 != 0) && (n == 0 || n % 256 != 0)
  {
    Spans();
    hide Span;
  }

  /** A number that the kind does not hold, in an encoding that is not faithful. */
  function Unfaithful(kind: Kind, e: Sized): nat {
    match kind
    case Bool => 256
    case Int32 => 0x8000_0000
    case Int64 => 0x8000_0000_0000_0000
    case Uint32 => if e.encoding.Signed? then Span(e.size) - 1 else 0x1_0000_0000
    case Uint64 => Span(e.size) - 1
    case _ => 0
  }

  lemma {:induction false} UnfaithfulMisses(c: Floats, kind: Kind, e: Sized)
    requires WellSized(e) && Readable(kind, e.encoding) && !Faithful(kind, e.encoding)
    ensures !Tells(c, kind, e.encoding, Le(Unfaithful(kind, e), e.size), false)
  {
    Spans();
    var n := Unfaithful(kind, e);
    if e.encoding.Signed? || e.encoding.Unsigned? {
      assert n < Span(e.size);
      LeBack(n, e.size);
      InRange(n, Span(e.size));
    }
    hide FromLe, Le, Span, Strip;
  }

  /** The view shows every value of a scalar exactly when its encoding is faithful. */
  lemma {:induction false} FaithfulExactly(c: Floats, kind: Kind, e: Sized)
    requires WellSized(e) && Readable(kind, e.encoding)
    ensures Faithful(kind, e.encoding) <==> forall b: seq<Byte> :: |b| == e.size ==> Tells(c, kind, e.encoding, b, false)
  {
    hide Tells, Faithful, Le;
    if Faithful(kind, e.encoding) {
      forall b: seq<Byte> | |b| == e.size ensures Tells(c, kind, e.encoding, b, false) {
        NoMessage(kind, e.encoding);
        FaithfulTells(c, kind, e, b);
      }
    } else {
      UnfaithfulMisses(c, kind, e);
    }
  }

  lemma NoMessage(kind: Kind, e: Encoding)
    requires Readable(kind, e)
    ensures !kind.Message?
  {}

  /** Every scalar's encoding is faithful, and no field is cleared by a later one. */
  predicate FaithfulBlock(slots: seq<Slot>)
    decreases slots
  {
    slots != [] ==>
      && !ClearedBy(slots[0].fd, slots[1..])
      && (if slots[0].fd.kind.Message? then FaithfulBlock(slots[0].composite)
          else slots[0].encoding.Some? && Faithful(slots[0].fd.kind, slots[0].encoding.value))
      && FaithfulBlock(slots[1..])
  }

  lemma {:induction false} FaithfulBlockTells(c: Floats, data: seq<Byte>, base: nat, slots: seq<Slot>, from: nat, to: nat)
    requires Tiled(slots, from, to) && base + to <= |data| && FaithfulBlock(slots)
    ensures BlockTells(c, data, base, slots, false)
    decreases slots
  {
    hide Tells, Faithful, ClearedBy;
    if slots != [] {
      var slot := slots[0];
      TiledWithin(slots, from, to);
      FaithfulBlockTells(c, data, base, slots[1..], from + slot.size, to);
      if slot.fd.kind.Message? {
        FaithfulBlockTells(c, data, base + slot.offset, slot.composite, 0, slot.size);
      } else {
        EncodingSized(slot.fd);
        FaithfulTells(c, slot.fd.kind, Sized(slot.encoding.value, slot.size), SlotData(data, base, slot));
      }
    }
  }

  /** A field without an encoding annotation is faithful. */
  lemma {:induction false} DefaultFaithful(fd: Field)
    requires fd.encoding.None? && !fd.kind.Message? && EncodingOf(fd).Ok?
    ensures Faithful(fd.kind, EncodingOf(fd).value.encoding)
  {}

  /** With faithful layouts the view shows the decoded message on every buffer the
      decoder takes. */
  lemma {:induction false} FaithfulShows(c: Floats, codec: Codec, entries: seq<Entry>, k: nat, data: seq<Byte>,
                                         limits: Limits, acc: Fields)
    requires DistinctIds(entries) && k < |entries|
    requires TemplateTiled(entries[k].template) && TemplateNamed(entries[k].template)
    requires FaithfulBlock(entries[k].template.slots)
    requires forall g :: 0 <= g < |entries[k].template.groups| ==> FaithfulBlock(entries[k].template.groups[g].slots)
    requires Unmarshal(c, entries[k].template, data, limits, acc).Done?
    ensures var t := entries[k].template;
            var r := ViewOf(RegisterAll(codec, entries), data, limits);
            r.Done? && MessageShown(c, r.value, t, Unmarshal(c, t, data, limits, acc).value)
  {
    hide RegisterAll, Unmarshal, TemplateNamed, GroupOf, FaithfulBlock, BlockTells, ViewOf, Get, DistinctIds, MessageShown, Tiled;
    hide Named, ReadBlock;
    var t := entries[k].template;
    var m := Unmarshal(c, t, data, limits, acc).value;
    ViewAgrees(c, codec, entries, k, data, limits, acc);
    ViewShowsExactly(c, codec, entries, k, data, limits, acc);
    var r := ViewOf(RegisterAll(codec, entries), data, limits).value;
    FaithfulBlockTells(c, r.data, r.blockStart, t.slots, 0, t.blockLength);
    forall g | 0 <= g < |t.groups|
      ensures GroupOf(r, t.groups[g].fd.name).Done? && GroupTells(c, GroupOf(r, t.groups[g].fd.name).value, t.groups[g])
    {
      var gv := GroupOf(r, t.groups[g].fd.name).value;
      assert GroupTiled(t.groups[g]);
      forall i | 0 <= i < gv.count ensures EntryTells(c, gv, t.groups[g], i) {
        EntryFaithful(c, gv, t.groups[g], i, Get(m, t.groups[g].fd).items[i]);
      }
    }
  }

  lemma {:induction false} EntryFaithful(c: Floats, gv: GroupView, g: Group, i: nat, item: Value)
    requires EntryReflects(c, gv, g, i, item) && FaithfulBlock(g.slots)
    ensures EntryTells(c, gv, g, i)
  {
    hide FaithfulBlock, BlockTells, Tiled, Named, ReadBlock;
    FaithfulBlockTells(c, gv.data, EntryStart(gv, i), g.slots, 0, g.blockLength);
  }
}
