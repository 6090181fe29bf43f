/** Reading SBE without decoding: the view's accessors agree with the decoded
    message on every buffer the decoder takes. */
module SbeView {
  import opened Options
  import opened Bytes
  import opened SbeLayout
  import opened SbeValues
  import opened SbeCodec
  import opened SbeRoundTrip

  datatype View = View(
    data: seq<Byte>, blockStart: nat, blockEnd: nat, slots: seq<Slot>, groups: seq<Group>, groupsStart: nat, maxCount: nat)

  /** Templates by message name and by id. */
  datatype Codec = Codec(byName: map<string, Template>, byId: map<nat, Template>)

  function Register(codec: Codec, name: string, t: Template): Codec {
    Codec(codec.byName[name := t], codec.byId[t.templateId := t])
  }

  datatype Entry = Entry(name: string, template: Template)

  function RegisterAll(codec: Codec, entries: seq<Entry>): Codec
    decreases |entries|
  {
    if entries == [] then codec else RegisterAll(Register(codec, entries[0].name, entries[0].template), entries[1..])
  }

  function ViewOf(codec: Codec, data: seq<Byte>, limits: Limits): Read<View> {
    if |data| > limits.maxSize || |data| < HEADER || U16At(data, 2) !in codec.byId then Refuse
    else
      var t := codec.byId[U16At(data, 2)];
      var end := HEADER + U16At(data, 0);
      if U16At(data, 0) < t.blockLength || |data| < end then Refuse
      else Done(View(data, HEADER, end, t.slots, t.groups, end, limits.maxCount))
  }

  // Accessors. A panic is an index out of bounds, or a scalar asked of a composite.

  function FindSlot(slots: seq<Slot>, name: string): (r: Option<Slot>)
    ensures r.Some? ==> r.value in slots && r.value.fd.name == name
  {
    if slots == [] then None else if slots[0].fd.name == name then Some(slots[0]) else FindSlot(slots[1..], name)
  }

  /** The bytes at an offset of the block. */
  function BlockBytesAt(v: View, offset: nat, size: nat): Read<seq<Byte>> {
    if v.blockStart <= v.blockEnd <= |v.data| && offset + size <= v.blockEnd - v.blockStart
    then Done(v.data[v.blockStart + offset..v.blockStart + offset + size])
    else Panic
  }

  function IntField(v: View, name: string): Read<int> {
    match FindSlot(v.slots, name)
    case None => Refuse
    case Some(slot) =>
      match slot.encoding
      case None => Panic
      case Some(Signed(w)) =>
        (match BlockBytesAt(v, slot.offset, w)
         case Done(b) => Done(ToSigned(FromLe(b), w))
         case _ => Panic)
      case Some(_) => Refuse
  }

  function UintField(v: View, name: string): Read<nat> {
    match FindSlot(v.slots, name)
    case None => Refuse
    case Some(slot) =>
      match slot.encoding
      case None => Panic
      case Some(Unsigned(w)) =>
        (match BlockBytesAt(v, slot.offset, w)
         case Done(b) => Done(FromLe(b))
         case _ => Panic)
      case Some(_) => Refuse
  }

  /** Always as a double. */
  function FloatField(c: Floats, v: View, name: string): Read<nat> {
    match FindSlot(v.slots, name)
    case None => Refuse
    case Some(slot) =>
      match slot.encoding
      case None => Panic
      case Some(FloatBits) =>
        (match BlockBytesAt(v, slot.offset, 4) case Done(b) => Done(c.widen(FromLe(b))) case _ => Panic)
      case Some(DoubleBits) =>
        (match BlockBytesAt(v, slot.offset, 8) case Done(b) => Done(FromLe(b)) case _ => Panic)
      case Some(_) => Refuse
  }

  /** One byte, whatever the encoding. */
  function BoolField(v: View, name: string): Read<bool> {
    match FindSlot(v.slots, name)
    case None => Refuse
    case Some(slot) => match BlockBytesAt(v, slot.offset, 1) case Done(b) => Done(b[0] != 0) case _ => Panic
  }

  function EnumField(v: View, name: string): Read<int> {
    match FindSlot(v.slots, name)
    case None => Refuse
    case Some(slot) =>
      match slot.encoding
      case None => Panic
      case Some(Unsigned(w)) =>
        if w > 2 then Refuse
        else (match BlockBytesAt(v, slot.offset, w) case Done(b) => Done(FromLe(b)) case _ => Panic)
      case Some(_) => Refuse
  }

  function StringField(v: View, name: string): Read<seq<Byte>> {
    match FindSlot(v.slots, name)
    case None => Refuse
    case Some(slot) =>
      match BlockBytesAt(v, slot.offset, slot.size)
      case Done(b) => if ValidUtf8(Strip(b)) then Done(Strip(b)) else Refuse
      case _ => Panic
  }

  function BytesField(v: View, name: string): Read<seq<Byte>> {
    match FindSlot(v.slots, name)
    case None => Refuse
    case Some(slot) => BlockBytesAt(v, slot.offset, slot.size)
  }

  function CompositeOf(v: View, name: string): Read<View> {
    match FindSlot(v.slots, name)
    case None => Refuse
    case Some(slot) =>
      if slot.composite == [] then Refuse
      else Done(View(v.data, v.blockStart + slot.offset, v.blockStart + slot.offset + slot.size, slot.composite, [], 0, v.maxCount))
  }

  datatype GroupView = GroupView(data: seq<Byte>, base: nat, blockLength: nat, count: nat, slots: seq<Slot>)

  /** Walks the groups before it, checking each. */
  function FindGroup(data: seq<Byte>, pos: nat, groups: seq<Group>, maxCount: nat, name: string): Read<GroupView>
    decreases |groups|
  {
    if groups == [] then Refuse
    else
      match CheckGroup(data, pos, groups[0].blockLength, maxCount)
      case None => Refuse
      case Some(h) =>
        if groups[0].fd.name == name then Done(GroupView(data, pos, h.blockLength, h.count, groups[0].slots))
        else FindGroup(data, pos + h.total, groups[1..], maxCount, name)
  }

  function GroupOf(v: View, name: string): Read<GroupView> {
    FindGroup(v.data, v.groupsStart, v.groups, v.maxCount, name)
  }

  function EntryOf(g: GroupView, i: nat): Read<View> {
    if i >= g.count then Refuse
    else
      var start := g.base + GROUP_HEADER + i * g.blockLength;
      Done(View(g.data, start, start + g.blockLength, g.slots, [], 0, 0))
  }

  // Agreement on a block.

  /** The view's block is inside the data and holds its slots, and m is what the
      decoder made of it. */
  ghost predicate Reflects(c: Floats, v: View, length: nat, acc: Fields, m: Fields) {
    && Tiled(v.slots, 0, length) && Named(v.slots)
    && v.blockStart + length <= v.blockEnd <= |v.data|
    && ReadBlock(c, v.data, v.blockStart, v.slots, 0, length, acc) == Done(m)
  }

  lemma {:induction false} FindSlotNamed(slots: seq<Slot>, i: nat)
    requires Named(slots) && i < |slots|
    ensures FindSlot(slots, slots[i].fd.name) == Some(slots[i])
    decreases |slots|
  {
    if i > 0 {
      assert slots[i] == slots[1..][i - 1];
      FindSlotNamed(slots[1..], i - 1);
    }
  }

  lemma {:induction false} SlotWithin(slots: seq<Slot>, from: nat, to: nat, i: nat)
    requires Tiled(slots, from, to) && i < |slots|
    ensures SlotTiled(slots[i]) && from <= slots[i].offset && slots[i].offset + slots[i].size <= to
    decreases |slots|
  {
    hide SlotTiled;
    TiledWithin(slots, from, to);
    if i > 0 {
      assert slots[i] == slots[1..][i - 1];
      SlotWithin(slots[1..], from + slots[0].size, to, i - 1);
    }
  }

  /** What the rest of a block leaves of a field that was set, or cleared, before. */
  lemma {:induction false} ReadKept(c: Floats, data: seq<Byte>, base: nat, slots: seq<Slot>, from: nat, to: nat, acc: Fields, fd: Field)
    requires Tiled(slots, from, to) && base + to <= |data| && Fresh(fd, slots)
    requires ReadBlock(c, data, base, slots, from, to, acc).Done?
    ensures Get(ReadBlock(c, data, base, slots, from, to, acc).value, fd)
         == if ClearedBy(fd, slots) then Unset(fd) else Get(acc, fd)
    decreases |slots|
  {
    hide ReadSlot, SlotTiled, Unset;
    if slots != [] {
      TiledWithin(slots, from, to);
      var v := ReadSlot(c, data, base, slots[0]).value;
      ReadKept(c, data, base, slots[1..], from + slots[0].size, to, Set(acc, slots[0].fd, v), fd);
    }
  }

  /** A decoded field is what its slot's bytes read as, or unset when a later member of
      its oneof cleared it. */
  lemma {:induction false} ReadSlotOf(c: Floats, data: seq<Byte>, base: nat, slots: seq<Slot>, from: nat, to: nat, acc: Fields, i: nat)
    requires Tiled(slots, from, to) && base + to <= |data| && Named(slots) && i < |slots|
    requires ReadBlock(c, data, base, slots, from, to, acc).Done?
    ensures SlotTiled(slots[i]) && base + slots[i].offset + slots[i].size <= |data|
    ensures ReadSlot(c, data, base, slots[i]).Done?
    ensures Get(ReadBlock(c, data, base, slots, from, to, acc).value, slots[i].fd)
         == Left(slots, i, ReadSlot(c, data, base, slots[i]).value)
    decreases |slots|
  {
    hide ReadSlot, SlotTiled, ClearedBy, Unset;
    TiledWithin(slots, from, to);
    SlotWithin(slots, from, to, i);
    var mid := from + slots[0].size;
    var acc' := Set(acc, slots[0].fd, ReadSlot(c, data, base, slots[0]).value);
    if i == 0 {
      ReadKept(c, data, base, slots[1..], mid, to, acc', slots[0].fd);
    } else {
      assert slots[i] == slots[1..][i - 1] && slots[i + 1..] == slots[1..][i..];
      ReadSlotOf(c, data, base, slots[1..], mid, to, acc', i - 1);
    }
  }

  /** What the decoder leaves of a slot's value: a later member of its oneof clears it,
      whether that member was chosen or not. */
  function Left(slots: seq<Slot>, i: nat, x: Value): Value
    requires i < |slots|
  {
    if ClearedBy(slots[i].fd, slots[i + 1..]) then Unset(slots[i].fd) else x
  }

  /** A slot's place in the view, and the value of its field in the message. */
  lemma FieldOf(c: Floats, v: View, length: nat, acc: Fields, m: Fields, i: nat)
    requires Reflects(c, v, length, acc, m) && i < |v.slots|
    ensures var slot := v.slots[i];
            && SlotTiled(slot)
            && FindSlot(v.slots, slot.fd.name) == Some(slot)
            && v.blockStart + slot.offset + slot.size <= v.blockEnd <= |v.data|
            && ReadSlot(c, v.data, v.blockStart, slot).Done?
            && Get(m, slot.fd) == Left(v.slots, i, ReadSlot(c, v.data, v.blockStart, slot).value)
            && BlockBytesAt(v, slot.offset, slot.size)
               == Done(v.data[v.blockStart + slot.offset..v.blockStart + slot.offset + slot.size])
  {
    hide Tiled, Named, ReadBlock, SlotTiled, ReadSlot, FindSlot, Left;
    ReadSlotOf(c, v.data, v.blockStart, v.slots, 0, length, acc, i);
    FindSlotNamed(v.slots, i);
    SlotWithin(v.slots, 0, length, i);
  }

  /** Each accessor against the value x that the slot's bytes are decoded as. */
  ghost predicate NumbersAgree(c: Floats, v: View, slot: Slot, x: Value) {
    var name := slot.fd.name;
    && (slot.encoding.Some? && slot.encoding.value.Signed? ==>
          && IntField(v, name).Done? && x == IntValue(c, slot.fd.kind, IntField(v, name).value)
          && UintField(v, name) == Refuse && FloatField(c, v, name) == Refuse && EnumField(v, name) == Refuse
          && (slot.fd.kind.Bool? ==> BoolTells(v, name, IntField(v, name).value, x)))
    && (slot.encoding.Some? && slot.encoding.value.Unsigned? ==>
          && UintField(v, name).Done? && x == UintValue(slot.fd.kind, UintField(v, name).value)
          && IntField(v, name) == Refuse && FloatField(c, v, name) == Refuse
          && (slot.fd.kind.Enum? ==> EnumField(v, name) == if slot.size <= 2 then Done(x.n) else Refuse)
          && (slot.fd.kind.Bool? ==> BoolTells(v, name, UintField(v, name).value, x)))
    && (slot.encoding == Some(FloatBits) ==> x.VF32? && FloatField(c, v, name) == Done(c.widen(x.bits)))
    && (slot.encoding == Some(DoubleBits) ==> x.VF64? && FloatField(c, v, name) == Done(x.bits))
  }

  /** The bool accessor sees the number n only modulo 256. */
  ghost predicate BoolTells(v: View, name: string, n: int, x: Value) {
    x.VBool? && BoolField(v, name) == Done(n % 256 != 0) && (BoolField(v, name) == Done(x.b) <==> n == 0 || n % 256 != 0)
  }

  ghost predicate TextsAgree(v: View, slot: Slot, x: Value) {
    var name := slot.fd.name;
    && (slot.fd.kind.String? && slot.encoding == Some(Char) ==> x.VString? && StringField(v, name) == Done(x.text))
    && (slot.fd.kind.Bytes? && slot.encoding == Some(Char) ==> x.VBytes? && BytesField(v, name) == Done(x.bytes))
  }

  /** No accessor of a scalar indexes past the block; the bool accessor, which reads a
      byte of any field, when the field has one. */
  ghost predicate InBounds(c: Floats, v: View, slot: Slot) {
    var name := slot.fd.name;
    && !IntField(v, name).Panic? && !UintField(v, name).Panic? && !FloatField(c, v, name).Panic?
    && !EnumField(v, name).Panic? && !StringField(v, name).Panic? && !BytesField(v, name).Panic?
    && (slot.size > 0 ==> !BoolField(v, name).Panic?)
  }

  /** For every scalar slot: the accessors are in bounds and give what its bytes are
      decoded as, and the decoded message holds that, or nothing when a later member
      of the field's oneof cleared it. */
  lemma ScalarAgrees(c: Floats, v: View, length: nat, acc: Fields, m: Fields, i: nat)
    requires Reflects(c, v, length, acc, m) && i < |v.slots| && !v.slots[i].fd.kind.Message?
    ensures SlotTiled(v.slots[i]) && v.blockStart + v.slots[i].offset + v.slots[i].size <= |v.data|
    ensures InBounds(c, v, v.slots[i])
    ensures var r := ReadSlot(c, v.data, v.blockStart, v.slots[i]);
            && r.Done? && NumbersAgree(c, v, v.slots[i], r.value) && TextsAgree(v, v.slots[i], r.value)
            && Get(m, v.slots[i].fd) == Left(v.slots, i, r.value)
  {
    FieldOf(c, v, length, acc, m, i);
    var slot := v.slots[i];
    var b := BlockBytesAt(v, slot.offset, slot.size).value;
    var x := ReadSlot(c, v.data, v.blockStart, slot).value;
    SlotBounds(c, v, slot, b);
    hide Reflects, FindSlot, InBounds, Left, ReadScalar, NumbersAgree, TextsAgree;
    EncodingSized(slot.fd);
    if slot.encoding == Some(Char) {
      TextAgrees(c, v, slot, b, x);
    } else {
      NumberAgrees(c, v, slot, b, x);
    }
  }

  lemma SlotBounds(c: Floats, v: View, slot: Slot, b: seq<Byte>)
    requires SlotTiled(slot) && !slot.fd.kind.Message? && FindSlot(v.slots, slot.fd.name) == Some(slot)
    requires BlockBytesAt(v, slot.offset, slot.size) == Done(b)
    ensures InBounds(c, v, slot)
  {
    EncodingSized(slot.fd);
    hide FindSlot, FromLe, ToSigned, ValidUtf8, Strip;
  }

  lemma TextAgrees(c: Floats, v: View, slot: Slot, b: seq<Byte>, x: Value)
    requires FindSlot(v.slots, slot.fd.name) == Some(slot) && slot.encoding == Some(Char)
    requires BlockBytesAt(v, slot.offset, slot.size) == Done(b) && |b| == slot.size
    requires ReadScalar(c, slot.fd.kind, Sized(Char, slot.size), b) == Done(x)
    ensures NumbersAgree(c, v, slot, x) && TextsAgree(v, slot, x)
  {
    hide FindSlot, ValidUtf8, Strip, BlockBytesAt;
  }

  lemma NumberAgrees(c: Floats, v: View, slot: Slot, b: seq<Byte>, x: Value)
    requires FindSlot(v.slots, slot.fd.name) == Some(slot) && slot.encoding.Some? && !slot.encoding.value.Char?
    requires BlockBytesAt(v, slot.offset, slot.size) == Done(b) && |b| == slot.size
    requires var e := Sized(slot.encoding.value, slot.size);
             WellSized(e) && ReadScalar(c, slot.fd.kind, e, b) == Done(x)
    ensures NumbersAgree(c, v, slot, x) && TextsAgree(v, slot, x)
  {
    FirstByte(v, slot, b);
    if slot.encoding.value.Unsigned? && slot.fd.kind.Enum? && slot.size <= 2 {
      SmallEnum(b);
    }
    if slot.encoding.value.Signed? {
      SignedByte(FromLe(b), slot.size);
      FromLeBound(b);
    }
    hide FindSlot, BlockBytesAt, FromLe, ToSigned, Wrap, Span;
  }

  /** A signed number has its unsigned number's low byte. */
  lemma SignedByte(n: nat, w: nat)
    requires Width(w)
    ensures ToSigned(n, w) % 256 == n % 256
  {
    Spans();
    WrapWrap(n, 1, w);
    hide Span;
  }

  /** The one byte a bool accessor looks at is the value modulo 256. */
  lemma FirstByte(v: View, slot: Slot, b: seq<Byte>)
    requires BlockBytesAt(v, slot.offset, slot.size) == Done(b) && slot.size > 0
    ensures BlockBytesAt(v, slot.offset, 1) == Done([b[0]]) && FromLe(b) % 256 == b[0]
  {
    assert v.data[v.blockStart + slot.offset..v.blockStart + slot.offset + 1] == [b[0]];
  }

  lemma SmallEnum(b: seq<Byte>)
    requires |b| <= 2
    ensures ToSigned(FromLe(b), 4) == FromLe(b)
  {
    FromLeBound(b);
    Spans();
    SpanRatio(|b|, 2);
    assert Span(0) == 1 && Span(2) == 256 * Span(1);
    hide FromLe;
    SignedBack(FromLe(b), 4);
    hide Span;
  }

  /** For every composite slot: its view reflects what its bytes are decoded as, and
      the decoded message holds that, or nothing when a later member of the field's
      oneof cleared it. */
  lemma CompositeAgrees(c: Floats, v: View, length: nat, acc: Fields, m: Fields, i: nat)
    requires Reflects(c, v, length, acc, m) && i < |v.slots| && v.slots[i].fd.kind.Message?
    ensures SlotTiled(v.slots[i]) && v.blockStart + v.slots[i].offset + v.slots[i].size <= |v.data|
    ensures var slot := v.slots[i];
            var r := ReadSlot(c, v.data, v.blockStart, slot);
            && r.Done? && r.value.VMsg?
            && CompositeOf(v, slot.fd.name)
               == Done(View(v.data, v.blockStart + slot.offset, v.blockStart + slot.offset + slot.size, slot.composite, [], 0, v.maxCount))
            && Reflects(c, CompositeOf(v, slot.fd.name).value, slot.size, map[], r.value.fields)
            && Get(m, slot.fd) == Left(v.slots, i, r.value)
  {
    FieldOf(c, v, length, acc, m, i);
    NamedAt(v.slots, i);
    hide FindSlot, ReadBlock, Named, Left;
  }

  lemma {:induction false} NamedAt(slots: seq<Slot>, i: nat)
    requires Named(slots) && i < |slots|
    ensures slots[i].fd.kind.Message? ==> Named(slots[i].composite)
    decreases |slots|
  {
    if i > 0 {
      assert slots[i] == slots[1..][i - 1];
      NamedAt(slots[1..], i - 1);
    }
  }

  // Agreement on groups.

  lemma {:induction false} EntryAt(c: Floats, data: seq<Byte>, start: nat, stride: nat, count: nat, g: Group, i: nat)
    requires GroupTiled(g) && start + count * stride <= |data| && (count > 0 ==> stride >= g.blockLength)
    requires ReadEntries(c, data, start, stride, count, g).Done? && i < count
    ensures |ReadEntries(c, data, start, stride, count, g).value| == count
    ensures 0 <= i * stride && start + i * stride + stride <= start + count * stride
    ensures var item := ReadEntries(c, data, start, stride, count, g).value[i];
            item.VMsg? && ReadBlock(c, data, start + i * stride, g.slots, 0, g.blockLength, map[]) == Done(item.fields)
    decreases count
  {
    hide ReadBlock;
    EntriesLength(c, data, start, stride, count, g);
    assert count * stride == stride + (count - 1) * stride;
    if i > 0 {
      EntryAt(c, data, start + stride, stride, count - 1, g, i - 1);
      assert i * stride == stride + (i - 1) * stride;
    }
  }

  /** Every entry's view reflects the decoded entry. */
  ghost predicate GroupReflects(c: Floats, gv: GroupView, g: Group, items: seq<Value>) {
    && gv.count == |items| && gv.slots == g.slots
    && forall i :: 0 <= i < |items| ==> EntryReflects(c, gv, g, i, items[i])
  }

  ghost predicate EntryReflects(c: Floats, gv: GroupView, g: Group, i: nat, item: Value) {
    item.VMsg? && gv.slots == g.slots && EntryOf(gv, i).Done? && Reflects(c, EntryOf(gv, i).value, g.blockLength, map[], item.fields)
  }

  lemma EntriesAgree(c: Floats, data: seq<Byte>, pos: nat, g: Group, maxCount: nat)
    requires GroupTiled(g) && Named(g.slots) && CheckGroup(data, pos, g.blockLength, maxCount).Some?
    requires var h := CheckGroup(data, pos, g.blockLength, maxCount).value;
             ReadEntries(c, data, pos + GROUP_HEADER, h.blockLength, h.count, g).Done?
    ensures var h := CheckGroup(data, pos, g.blockLength, maxCount).value;
            GroupReflects(c, GroupView(data, pos, h.blockLength, h.count, g.slots), g,
                          ReadEntries(c, data, pos + GROUP_HEADER, h.blockLength, h.count, g).value)
  {
    hide ReadBlock, Tiled, Named, CheckGroup, ReadEntries;
    var h := CheckGroup(data, pos, g.blockLength, maxCount).value;
    var items := ReadEntries(c, data, pos + GROUP_HEADER, h.blockLength, h.count, g).value;
    EntriesLength(c, data, pos + GROUP_HEADER, h.blockLength, h.count, g);
    var gv := GroupView(data, pos, h.blockLength, h.count, g.slots);
    forall i | 0 <= i < |items| ensures EntryReflects(c, gv, g, i, items[i]) {
      EntryAt(c, data, pos + GROUP_HEADER, h.blockLength, h.count, g, i);
      assert EntryOf(gv, i).Done?;
    }
  }

  /** The group of a name, found by walking, against the decoded one. */
  lemma {:induction false} GroupAgrees(c: Floats, data: seq<Byte>, pos: nat, gs: seq<Group>, maxCount: nat, acc: Fields, k: nat)
    requires GroupsTiled(gs) && GroupsNamed(gs) && k < |gs| && (forall i :: 0 <= i < |gs| ==> Named(gs[i].slots))
    requires ReadGroups(c, data, pos, gs, maxCount, acc).Done?
    ensures var m := ReadGroups(c, data, pos, gs, maxCount, acc).value;
            var found := FindGroup(data, pos, gs, maxCount, gs[k].fd.name);
            && Get(m, gs[k].fd).VList? && found.Done?
            && GroupReflects(c, found.value, gs[k], Get(m, gs[k].fd).items)
    decreases |gs|
  {
    hide CheckGroup, ReadEntries, GroupTiled, Named, GroupReflects;
    assert GroupTiled(gs[0]);
    var h := CheckGroup(data, pos, gs[0].blockLength, maxCount).value;
    var items := ReadEntries(c, data, pos + GROUP_HEADER, h.blockLength, h.count, gs[0]).value;
    var acc' := Set(acc, gs[0].fd, VList(items));
    if k == 0 {
      EntriesAgree(c, data, pos, gs[0], maxCount);
      assert NotNamed(gs[1..], gs[0].fd.name);
      ReadGroupsElsewhere(c, data, pos + h.total, gs[1..], maxCount, acc', gs[0].fd.name);
    } else {
      GroupAgrees(c, data, pos + h.total, gs[1..], maxCount, acc', k - 1);
    }
  }

  // Agreement on messages.

  ghost predicate DistinctIds(entries: seq<Entry>) {
    forall i, j :: 0 <= i < j < |entries| ==>
      entries[i].template.templateId != entries[j].template.templateId && entries[i].name != entries[j].name
  }

  lemma {:induction false} RegisteredKept(codec: Codec, entries: seq<Entry>, e: Entry)
    requires codec.byId == codec.byId[e.template.templateId := e.template] && codec.byName == codec.byName[e.name := e.template]
    requires forall i :: 0 <= i < |entries| ==> entries[i].template.templateId != e.template.templateId && entries[i].name != e.name
    ensures var r := RegisterAll(codec, entries);
            && e.template.templateId in r.byId && r.byId[e.template.templateId] == e.template
            && e.name in r.byName && r.byName[e.name] == e.template
    decreases |entries|
  {
    assert e.template.templateId in codec.byId[e.template.templateId := e.template];
    assert e.name in codec.byName[e.name := e.template];
    if entries != [] {
      var next := Register(codec, entries[0].name, entries[0].template);
      assert next.byId == next.byId[e.template.templateId := e.template];
      assert next.byName == next.byName[e.name := e.template];
      RegisteredKept(next, entries[1..], e);
    }
  }

  /** With distinct ids and names, a message's template is found by either. */
  lemma {:induction false} Registered(codec: Codec, entries: seq<Entry>, k: nat)
    requires DistinctIds(entries) && k < |entries|
    ensures var r := RegisterAll(codec, entries);
            var e := entries[k];
            && e.template.templateId in r.byId && r.byId[e.template.templateId] == e.template
            && e.name in r.byName && r.byName[e.name] == e.template
    decreases |entries|
  {
    var next := Register(codec, entries[0].name, entries[0].template);
    if k == 0 {
      assert next.byId == next.byId[entries[0].template.templateId := entries[0].template];
      assert next.byName == next.byName[entries[0].name := entries[0].template];
      RegisteredKept(next, entries[1..], entries[0]);
    } else {
      Registered(next, entries[1..], k - 1);
    }
  }

  /** On every buffer the decoder takes for a message type, the view opens, its block
      reflects the decoded message's, and every group's entries the decoded ones. */
  lemma ViewAgrees(c: Floats, codec: Codec, entries: seq<Entry>, k: nat, data: seq<Byte>, limits: Limits, acc: Fields)
    requires DistinctIds(entries) && k < |entries|
    requires TemplateTiled(entries[k].template) && TemplateNamed(entries[k].template)
    requires Unmarshal(c, entries[k].template, data, limits, acc).Done?
    ensures var t := entries[k].template;
            var m := Unmarshal(c, t, data, limits, acc).value;
            var r := ViewOf(RegisterAll(codec, entries), data, limits);
            && r.Done? && r.value.slots == t.slots
            && (exists block :: Reflects(c, r.value, t.blockLength, acc, block)
                                && forall i :: 0 <= i < |t.slots| ==> Get(m, t.slots[i].fd) == Get(block, t.slots[i].fd))
            && forall g :: 0 <= g < |t.groups| ==>
                 && Get(m, t.groups[g].fd).VList?
                 && GroupOf(r.value, t.groups[g].fd.name).Done?
                 && GroupReflects(c, GroupOf(r.value, t.groups[g].fd.name).value, t.groups[g], Get(m, t.groups[g].fd).items)
  {
    Registered(codec, entries, k);
    hide RegisterAll, ReadBlock, ReadGroups, Tiled, Named, GroupTiled, GroupReflects, U16At, NotNamed, FindGroup;
    var t := entries[k].template;
    var m := Unmarshal(c, t, data, limits, acc).value;
    var v := ViewOf(RegisterAll(codec, entries), data, limits).value;
    var end := BlockEnd(t, data, limits).value;
    var block := ReadBlock(c, data, HEADER, t.slots, 0, t.blockLength, acc).value;
    assert Reflects(c, v, t.blockLength, acc, block);
    forall i | 0 <= i < |t.slots| ensures Get(m, t.slots[i].fd) == Get(block, t.slots[i].fd) {
      ReadGroupsElsewhere(c, data, end, t.groups, limits.maxCount, block, t.slots[i].fd.name);
    }
    forall g | 0 <= g < |t.groups|
      ensures && Get(m, t.groups[g].fd).VList?
              && GroupOf(v, t.groups[g].fd.name).Done?
              && GroupReflects(c, GroupOf(v, t.groups[g].fd.name).value, t.groups[g], Get(m, t.groups[g].fd).items)
    {
      GroupAgrees(c, data, end, t.groups, limits.maxCount, block, g);
    }
  }
}
