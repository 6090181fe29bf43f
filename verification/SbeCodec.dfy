/** SBE messages on the wire: what marshal writes, what unmarshal reads, and when
    the second returns what the first was given. */
module SbeCodec {
  import opened Options
  import opened Bytes
  import opened SbeLayout
  import opened SbeValues

  type Fields = map<string, Value>

  const HEADER: nat := 8
  const GROUP_HEADER: nat := 4

  // Messages.

  /** What an unset field reads as. */
  function Unset(fd: Field): Value {
    if !fd.shape.Single? then VList([])
    else
      match fd.kind
      case Bool => VBool(false)
      case Enum => VEnum(0)
      case Int32 => VI32(0)
      case Int64 => VI64(0)
      case Uint32 => VU32(0)
      case Uint64 => VU64(0)
      case Float => VF32(0)
      case Double => VF64(0)
      case String => VString([])
      case Bytes => VBytes([])
      case Message(_) => VMsg(map[])
  }

  function Get(m: Fields, fd: Field): Value {
    if fd.name in m then m[fd.name] else Unset(fd)
  }

  /** Setting a member of a oneof clears the others. */
  function Set(m: Fields, fd: Field, v: Value): Fields {
    (m - fd.siblings)[fd.name := v]
  }

  function FieldsOf(v: Value): Fields {
    if v.VMsg? then v.fields else map[]
  }

  function ItemsOf(v: Value): seq<Value> {
    if v.VList? then v.items else []
  }

  // Writing.

  function SizedOf(slot: Slot): (e: Sized)
    requires SlotTiled(slot) && !slot.fd.kind.Message?
    ensures WellSized(e) && e.size == slot.size
  {
    EncodingSized(slot.fd);
    Sized(slot.encoding.value, slot.size)
  }

  function BlockBytes(c: Floats, slots: seq<Slot>, from: nat, to: nat, m: Fields): (s: seq<Byte>)
    requires Tiled(slots, from, to)
    ensures from <= to && |s| == to - from
    decreases slots, 1
  {
    if slots == [] then []
    else
      var rest := BlockBytes(c, slots[1..], from + slots[0].size, to, m);
      SlotBytes(c, slots[0], Get(m, slots[0].fd)) + rest
  }

  function SlotBytes(c: Floats, slot: Slot, v: Value): (s: seq<Byte>)
    requires SlotTiled(slot)
    ensures |s| == slot.size
    decreases slot, 0
  {
    if slot.fd.kind.Message? then BlockBytes(c, slot.composite, 0, slot.size, FieldsOf(v))
    else Written(c, slot.fd.kind, SizedOf(slot), v)
  }

  function EntriesBytes(c: Floats, g: Group, items: seq<Value>): (s: seq<Byte>)
    requires GroupTiled(g)
    ensures |s| == |items| * g.blockLength
  {
    if items == [] then []
    else BlockBytes(c, g.slots, 0, g.blockLength, FieldsOf(items[0])) + EntriesBytes(c, g, items[1..])
  }

  function U16(n: nat): (s: seq<Byte>)
    ensures |s| == 2
  {
    Le(n % 0x1_0000, 2)
  }

  function GroupBytes(c: Floats, g: Group, m: Fields): (s: seq<Byte>)
    requires GroupTiled(g)
    ensures |s| == GROUP_HEADER + |ItemsOf(Get(m, g.fd))| * g.blockLength
  {
    U16(g.blockLength) + U16(|ItemsOf(Get(m, g.fd))|) + EntriesBytes(c, g, ItemsOf(Get(m, g.fd)))
  }

  ghost predicate GroupsTiled(gs: seq<Group>) {
    forall i :: 0 <= i < |gs| ==> GroupTiled(gs[i])
  }

  function GroupsBytes(c: Floats, gs: seq<Group>, m: Fields): seq<Byte>
    requires GroupsTiled(gs)
  {
    if gs == [] then [] else assert GroupTiled(gs[0]); GroupBytes(c, gs[0], m) + GroupsBytes(c, gs[1..], m)
  }

  /** Every composite has a field: one without has no encoding to write either. */
  predicate NoEmptyComposite(slots: seq<Slot>)
    decreases slots
  {
    slots != [] ==>
      && (slots[0].fd.kind.Message? ==> slots[0].composite != [] && NoEmptyComposite(slots[0].composite))
      && NoEmptyComposite(slots[1..])
  }

  /** Whether marshal returns: the message's own block is written, and a group's when
      it has an entry. */
  ghost predicate Writable(t: Template, m: Fields) {
    && NoEmptyComposite(t.slots)
    && forall i :: 0 <= i < |t.groups| && ItemsOf(Get(m, t.groups[i].fd)) != [] ==> NoEmptyComposite(t.groups[i].slots)
  }

  function HeaderBytes(t: Template): (s: seq<Byte>)
    ensures |s| == HEADER
  {
    U16(t.blockLength) + U16(t.templateId) + U16(t.schemaId) + U16(t.version)
  }

  function Marshalled(c: Floats, t: Template, m: Fields): (s: seq<Byte>)
    requires TemplateTiled(t)
    ensures |s| >= HEADER + t.blockLength
  {
    HeaderBytes(t) + BlockBytes(c, t.slots, 0, t.blockLength, m) + GroupsBytes(c, t.groups, m)
  }

  // Reading.

  function ReadBlock(c: Floats, data: seq<Byte>, base: nat, slots: seq<Slot>, from: nat, to: nat, m: Fields): Read<Fields>
    requires Tiled(slots, from, to) && base + to <= |data|
    decreases slots, 1
  {
    if slots == [] then Done(m)
    else
      TiledWithin(slots, from, to);
      match ReadSlot(c, data, base, slots[0])
      case Refuse => Refuse
      case Panic => Panic
      case Done(v) => ReadBlock(c, data, base, slots[1..], from + slots[0].size, to, Set(m, slots[0].fd, v))
  }

  function ReadSlot(c: Floats, data: seq<Byte>, base: nat, slot: Slot): Read<Value>
    requires SlotTiled(slot) && base + slot.offset + slot.size <= |data|
    decreases slot, 0
  {
    if slot.fd.kind.Message? then
      if slot.composite == [] then Panic
      else
        match ReadBlock(c, data, base + slot.offset, slot.composite, 0, slot.size, map[])
        case Refuse => Refuse
        case Panic => Panic
        case Done(m) => Done(VMsg(m))
    else ReadScalar(c, slot.fd.kind, SizedOf(slot), data[base + slot.offset..base + slot.offset + slot.size])
  }

  lemma {:induction false} TiledWithin(slots: seq<Slot>, from: nat, to: nat)
    requires Tiled(slots, from, to)
    ensures from <= to
    ensures slots != [] ==> from + slots[0].size <= to
    decreases |slots|
  {
    hide SlotTiled;
    if slots != [] {
      TiledWithin(slots[1..], from + slots[0].size, to);
    }
  }

  function U16At(data: seq<Byte>, pos: nat): (n: nat)
    requires pos + 2 <= |data|
    ensures n < 0x1_0000
  {
    var low: nat, high: nat := data[pos], data[pos + 1];
    low + 256 * high
  }

  datatype GroupHeader = GroupHeader(blockLength: nat, count: nat, total: nat)

  /** check_group_header */
  function CheckGroup(data: seq<Byte>, pos: nat, blockLength: nat, maxCount: nat): (r: Option<GroupHeader>)
    ensures r.Some? ==>
              && pos + r.value.total <= |data| && r.value.total == GROUP_HEADER + r.value.count * r.value.blockLength
              && (r.value.count > 0 ==> r.value.blockLength >= blockLength)
  {
    if |data| < pos + GROUP_HEADER then None
    else
      var wire, count := U16At(data, pos), U16At(data, pos + 2);
      if wire == 0 && count > 0 then None
      else if count > 0 && wire < blockLength then None
      else if count > maxCount then None
      else if pos + (GROUP_HEADER + count * wire) > |data| then None
      else Some(GroupHeader(wire, count, GROUP_HEADER + count * wire))
  }

  /** The entries of a group from the i-th on, a stride apart. */
  function ReadEntries(c: Floats, data: seq<Byte>, start: nat, stride: nat, count: nat, g: Group): Read<seq<Value>>
    requires GroupTiled(g) && start + count * stride <= |data| && (count > 0 ==> stride >= g.blockLength)
    decreases count
  {
    if count == 0 then Done([])
    else
      assert count * stride == stride + (count - 1) * stride;
      match ReadBlock(c, data, start, g.slots, 0, g.blockLength, map[])
      case Refuse => Refuse
      case Panic => Panic
      case Done(m) =>
        match ReadEntries(c, data, start + stride, stride, count - 1, g)
        case Refuse => Refuse
        case Panic => Panic
        case Done(rest) => Done([VMsg(m)] + rest)
  }

  function ReadGroups(c: Floats, data: seq<Byte>, pos: nat, gs: seq<Group>, maxCount: nat, m: Fields): Read<Fields>
    requires GroupsTiled(gs)
    decreases |gs|
  {
    if gs == [] then Done(m)
    else
      assert GroupTiled(gs[0]);
      match CheckGroup(data, pos, gs[0].blockLength, maxCount)
      case None => Refuse
      case Some(h) =>
        match ReadEntries(c, data, pos + GROUP_HEADER, h.blockLength, h.count, gs[0])
        case Refuse => Refuse
        case Panic => Panic
        case Done(items) => ReadGroups(c, data, pos + h.total, gs[1..], maxCount, Set(m, gs[0].fd, VList(items)))
  }

  datatype Limits = Limits(maxSize: nat, maxCount: nat)

  /** Where the groups start, when the header and the root block are accepted. */
  function BlockEnd(t: Template, data: seq<Byte>, limits: Limits): (end: Option<nat>)
    ensures end.Some? ==> HEADER + t.blockLength <= end.value <= |data|
  {
    if |data| > limits.maxSize || |data| < HEADER || U16At(data, 2) != t.templateId
       || U16At(data, 0) < t.blockLength || |data| < HEADER + U16At(data, 0)
    then None
    else Some(HEADER + U16At(data, 0))
  }

  function Unmarshal(c: Floats, t: Template, data: seq<Byte>, limits: Limits, m: Fields): Read<Fields>
    requires TemplateTiled(t)
  {
    match BlockEnd(t, data, limits)
    case None => Refuse
    case Some(end) =>
      match ReadBlock(c, data, HEADER, t.slots, 0, t.blockLength, m)
      case Refuse => Refuse
      case Panic => Panic
      case Done(m') => ReadGroups(c, data, end, t.groups, limits.maxCount, m')
  }
}
