/** What unmarshal makes of what marshal wrote. */
module SbeRoundTrip {
  import opened Options
  import opened Bytes
  import opened SbeLayout
  import opened SbeValues
  import opened SbeCodec

  // Messages of a template.

  /** The fields hold values of their kinds, composites included. */
  predicate TypedBlock(slots: seq<Slot>, m: Fields)
    decreases slots, 1
  {
    slots != [] ==> TypedSlot(slots[0], Get(m, slots[0].fd)) && TypedBlock(slots[1..], m)
  }

  predicate TypedSlot(slot: Slot, v: Value)
    decreases slot, 0
  {
    Typed(slot.fd.kind, v) && (slot.fd.kind.Message? ==> TypedBlock(slot.composite, FieldsOf(v)))
  }

  predicate TypedEntries(g: Group, items: seq<Value>) {
    items != [] ==> items[0].VMsg? && TypedBlock(g.slots, items[0].fields) && TypedEntries(g, items[1..])
  }

  predicate TypedGroups(gs: seq<Group>, m: Fields) {
    gs != [] ==> Get(m, gs[0].fd).VList? && TypedEntries(gs[0], Get(m, gs[0].fd).items) && TypedGroups(gs[1..], m)
  }

  /** Every scalar's encoding is one its kind can be read from, and no composite is
      empty. */
  predicate ReadableBlock(slots: seq<Slot>)
    decreases slots
  {
    slots != [] ==>
      && (if slots[0].fd.kind.Message? then slots[0].composite != [] && ReadableBlock(slots[0].composite)
          else slots[0].encoding.Some? && Readable(slots[0].fd.kind, slots[0].encoding.value))
      && ReadableBlock(slots[1..])
  }

  /** The blocks a message has: its own, and a group's when it has an entry. */
  predicate ReadableMessage(t: Template, m: Fields) {
    ReadableBlock(t.slots) && ReadableGroups(t.groups, m)
  }

  predicate ReadableGroups(gs: seq<Group>, m: Fields) {
    gs != [] ==> (ItemsOf(Get(m, gs[0].fd)) != [] ==> ReadableBlock(gs[0].slots)) && ReadableGroups(gs[1..], m)
  }

  // What comes back, from the values alone.

  function BackBlock(c: Floats, slots: seq<Slot>, from: nat, to: nat, m: Fields, acc: Fields): Fields
    requires Tiled(slots, from, to)
    decreases slots, 1
  {
    if slots == [] then acc
    else
      BackBlock(c, slots[1..], from + slots[0].size, to, m, Set(acc, slots[0].fd, BackSlot(c, slots[0], Get(m, slots[0].fd))))
  }

  function BackSlot(c: Floats, slot: Slot, v: Value): Value
    requires SlotTiled(slot)
    decreases slot, 0
  {
    if slot.fd.kind.Message? then VMsg(BackBlock(c, slot.composite, 0, slot.size, FieldsOf(v), map[]))
    else Back(c, slot.fd.kind, SizedOf(slot), v)
  }

  function BackEntries(c: Floats, g: Group, items: seq<Value>): (r: seq<Value>)
    requires GroupTiled(g)
    ensures |r| == |items|
  {
    if items == [] then []
    else [VMsg(BackBlock(c, g.slots, 0, g.blockLength, FieldsOf(items[0]), map[]))] + BackEntries(c, g, items[1..])
  }

  function BackGroups(c: Floats, gs: seq<Group>, m: Fields, acc: Fields): Fields
    requires GroupsTiled(gs)
  {
    if gs == [] then acc
    else
      assert GroupTiled(gs[0]);
      BackGroups(c, gs[1..], m, Set(acc, gs[0].fd, VList(BackEntries(c, gs[0], ItemsOf(Get(m, gs[0].fd))))))
  }

  function BackMessage(c: Floats, t: Template, m: Fields, acc: Fields): Fields
    requires TemplateTiled(t)
  {
    BackGroups(c, t.groups, m, BackBlock(c, t.slots, 0, t.blockLength, m, acc))
  }

  // The same message.

  predicate Same(slots: seq<Slot>, a: Fields, b: Fields)
    decreases slots, 1
  {
    slots != [] ==> SameValue(slots[0], Get(a, slots[0].fd), Get(b, slots[0].fd)) && Same(slots[1..], a, b)
  }

  predicate SameValue(slot: Slot, v: Value, w: Value)
    decreases slot, 0
  {
    if slot.fd.kind.Message? then Same(slot.composite, FieldsOf(v), FieldsOf(w)) else v == w
  }

  predicate SameEntries(g: Group, a: seq<Value>, b: seq<Value>) {
    |a| == |b| && (a != [] ==> Same(g.slots, FieldsOf(a[0]), FieldsOf(b[0])) && SameEntries(g, a[1..], b[1..]))
  }

  predicate SameGroups(gs: seq<Group>, a: Fields, b: Fields) {
    gs != [] ==> SameEntries(gs[0], ItemsOf(Get(a, gs[0].fd)), ItemsOf(Get(b, gs[0].fd))) && SameGroups(gs[1..], a, b)
  }

  predicate SameMessage(t: Template, a: Fields, b: Fields) {
    Same(t.slots, a, b) && SameGroups(t.groups, a, b)
  }

  // Blocks.

  lemma {:induction false} BlockReadsBack(c: Floats, data: seq<Byte>, base: nat, slots: seq<Slot>, from: nat, to: nat,
                                          m: Fields, acc: Fields)
    requires Tiled(slots, from, to) && from <= to && base + to <= |data| && TypedBlock(slots, m) && ReadableBlock(slots)
    requires data[base + from..base + to] == BlockBytes(c, slots, from, to, m)
    ensures ReadBlock(c, data, base, slots, from, to, acc) == Done(BackBlock(c, slots, from, to, m, acc))
    decreases slots, 1
  {
    hide SlotTiled, TypedSlot, Set, Get, SlotBytes, ReadSlot, BackSlot, Readable;
    TiledWithin(slots, from, to);
    if slots != [] {
      var slot := slots[0];
      var v := Get(m, slot.fd);
      var mid := from + slot.size;
      var head, tail := SlotBytes(c, slot, v), BlockBytes(c, slots[1..], mid, to, m);
      var all := data[base + from..base + to];
      assert data[base + from..base + mid] == all[..slot.size] == head;
      assert data[base + mid..base + to] == all[slot.size..] == tail;
      SlotReadsBack(c, data, base, slot, v);
      BlockReadsBack(c, data, base, slots[1..], mid, to, m, Set(acc, slot.fd, BackSlot(c, slot, v)));
    }
  }

  lemma {:induction false} SlotReadsBack(c: Floats, data: seq<Byte>, base: nat, slot: Slot, v: Value)
    requires SlotTiled(slot) && base + slot.offset + slot.size <= |data| && TypedSlot(slot, v)
    requires if slot.fd.kind.Message? then slot.composite != [] && ReadableBlock(slot.composite)
             else Readable(slot.fd.kind, slot.encoding.value)
    requires data[base + slot.offset..base + slot.offset + slot.size] == SlotBytes(c, slot, v)
    ensures ReadSlot(c, data, base, slot) == Done(BackSlot(c, slot, v))
    decreases slot, 0
  {
    if slot.fd.kind.Message? {
      hide ReadBlock, BackBlock, BlockBytes, Tiled, TypedBlock, ReadableBlock, Written, Back, ReadScalar, Readable;
      BlockReadsBack(c, data, base + slot.offset, slot.composite, 0, slot.size, FieldsOf(v), map[]);
    } else {
      hide Back, ReadScalar, Written, Typed, Readable, Tiled, TypedBlock, ReadableBlock;
      ScalarBack(c, slot.fd.kind, SizedOf(slot), v);
    }
  }

  // Groups.

  lemma {:induction false} EntriesReadBack(c: Floats, data: seq<Byte>, start: nat, g: Group, items: seq<Value>)
    requires GroupTiled(g) && start + |items| * g.blockLength <= |data|
    requires TypedEntries(g, items) && (items != [] ==> ReadableBlock(g.slots))
    requires data[start..start + |items| * g.blockLength] == EntriesBytes(c, g, items)
    ensures ReadEntries(c, data, start, g.blockLength, |items|, g) == Done(BackEntries(c, g, items))
    decreases |items|
  {
    hide Tiled, TypedBlock, ReadableBlock, ReadBlock, BackBlock, BlockBytes;
    if items != [] {
      var n, bl := |items|, g.blockLength;
      assert n * bl == bl + (n - 1) * bl;
      var all := data[start..start + n * bl];
      assert data[start..start + bl] == all[..bl];
      assert data[start + bl..start + bl + (n - 1) * bl] == all[bl..];
      BlockReadsBack(c, data, start, g.slots, 0, bl, items[0].fields, map[]);
      EntriesReadBack(c, data, start + bl, g, items[1..]);
    }
  }

  /** A group's header can say what the group holds. */
  predicate GroupCounts(g: Group, n: nat, maxCount: nat) {
    n < 0x1_0000 && n <= maxCount && (n > 0 ==> 0 < g.blockLength < 0x1_0000)
  }

  lemma U16Back(data: seq<Byte>, pos: nat, n: nat)
    requires pos + 2 <= |data| && data[pos..pos + 2] == U16(n)
    ensures U16At(data, pos) == n % 0x1_0000
  {
    var r := n % 0x1_0000;
    assert Le(r, 2) == [r % 256] + Le(r / 256, 1);
    assert Le(r / 256, 1) == [r / 256 % 256] + Le(r / 256 / 256, 0);
    assert data[pos] == data[pos..pos + 2][0] && data[pos + 1] == data[pos..pos + 2][1];
  }

  lemma GroupParts(c: Floats, data: seq<Byte>, pos: nat, g: Group, m: Fields)
    requires GroupTiled(g) && pos + |GroupBytes(c, g, m)| <= |data|
    requires data[pos..pos + |GroupBytes(c, g, m)|] == GroupBytes(c, g, m)
    ensures var n := |ItemsOf(Get(m, g.fd))|;
            && U16At(data, pos) == g.blockLength % 0x1_0000 && U16At(data, pos + 2) == n % 0x1_0000
            && data[pos + GROUP_HEADER..pos + GROUP_HEADER + n * g.blockLength] == EntriesBytes(c, g, ItemsOf(Get(m, g.fd)))
  {
    var items := ItemsOf(Get(m, g.fd));
    Parts(data, pos, U16(g.blockLength), U16(|items|), EntriesBytes(c, g, items));
    hide EntriesBytes, GroupTiled, U16;
    U16Back(data, pos, g.blockLength);
    U16Back(data, pos + 2, |items|);
  }

  lemma Parts(data: seq<Byte>, pos: nat, a: seq<Byte>, b: seq<Byte>, e: seq<Byte>)
    requires |a| == |b| == 2 && pos + 4 + |e| <= |data| && data[pos..pos + 4 + |e|] == a + b + e
    ensures data[pos..pos + 2] == a && data[pos + 2..pos + 4] == b && data[pos + 4..pos + 4 + |e|] == e
  {
    var here := data[pos..pos + 4 + |e|];
    assert here[0] == a[0] && here[1] == a[1] && here[2] == b[0] && here[3] == b[1];
    assert here[0] == data[pos] && here[1] == data[pos + 1] && here[2] == data[pos + 2] && here[3] == data[pos + 3];
    assert here[4..] == e;
  }

  lemma GroupReadsBack(c: Floats, data: seq<Byte>, pos: nat, g: Group, m: Fields, maxCount: nat)
    requires GroupTiled(g) && pos + |GroupBytes(c, g, m)| <= |data|
    requires data[pos..pos + |GroupBytes(c, g, m)|] == GroupBytes(c, g, m)
    requires Get(m, g.fd).VList? && TypedEntries(g, Get(m, g.fd).items)
    ensures var items := Get(m, g.fd).items;
            var h := CheckGroup(data, pos, g.blockLength, maxCount);
            if GroupCounts(g, |items|, maxCount) then
              && h.Some? && h.value.total == |GroupBytes(c, g, m)|
              && var r := ReadEntries(c, data, pos + GROUP_HEADER, h.value.blockLength, h.value.count, g);
                 if items != [] ==> ReadableBlock(g.slots) then r == Done(BackEntries(c, g, items)) else !r.Done?
            else h.None? || h.value.count != |items|
  {
    hide EntriesBytes, TypedEntries, ReadableBlock, ReadEntries, BackEntries, Tiled, GroupTiled, U16At, U16;
    var items := Get(m, g.fd).items;
    GroupParts(c, data, pos, g, m);
    if GroupCounts(g, |items|, maxCount) {
      if |items| > 0 {
        assert U16At(data, pos) == g.blockLength;
        if ReadableBlock(g.slots) {
          EntriesReadBack(c, data, pos + GROUP_HEADER, g, items);
        } else {
          EntriesUnreadable(c, data, pos + GROUP_HEADER, g.blockLength, |items|, g);
        }
      } else {
        NoEntries(c, data, pos + GROUP_HEADER, U16At(data, pos), g, items);
      }
    }
  }

  lemma {:induction false} EntriesUnreadable(c: Floats, data: seq<Byte>, start: nat, stride: nat, count: nat, g: Group)
    requires GroupTiled(g) && count > 0 && stride >= g.blockLength && start + count * stride <= |data|
    requires !ReadableBlock(g.slots)
    ensures !ReadEntries(c, data, start, stride, count, g).Done?
  {
    hide Tiled, ReadableBlock, ReadBlock;
    assert count * stride == stride + (count - 1) * stride;
    if ReadBlock(c, data, start, g.slots, 0, g.blockLength, map[]).Done? {
      OnlyReadable(c, data, start, g.slots, 0, g.blockLength, map[]);
    }
  }

  lemma NoEntries(c: Floats, data: seq<Byte>, start: nat, stride: nat, g: Group, items: seq<Value>)
    requires GroupTiled(g) && items == [] && start <= |data|
    ensures ReadEntries(c, data, start, stride, 0, g) == Done(BackEntries(c, g, items))
  {}

  predicate GroupsCount(gs: seq<Group>, m: Fields, maxCount: nat) {
    gs != [] ==> GroupCounts(gs[0], |ItemsOf(Get(m, gs[0].fd))|, maxCount) && GroupsCount(gs[1..], m, maxCount)
  }

  /** Group fields have their own names, and are in no oneof. */
  ghost predicate GroupsNamed(gs: seq<Group>) {
    && (forall i :: 0 <= i < |gs| ==> gs[i].fd.siblings == {})
    && (forall i, j :: 0 <= i < j < |gs| ==> gs[i].fd.name != gs[j].fd.name)
  }

  ghost predicate NotNamed(gs: seq<Group>, name: string) {
    forall i :: 0 <= i < |gs| ==> gs[i].fd.siblings == {} && gs[i].fd.name != name
  }

  /** Reading groups leaves every other field as it was. */
  lemma {:induction false} ReadGroupsElsewhere(c: Floats, data: seq<Byte>, pos: nat, gs: seq<Group>, maxCount: nat, m: Fields, name: string)
    requires GroupsTiled(gs) && NotNamed(gs, name) && ReadGroups(c, data, pos, gs, maxCount, m).Done?
    ensures var r := ReadGroups(c, data, pos, gs, maxCount, m).value;
            (name in r <==> name in m) && (name in m ==> r[name] == m[name])
    decreases |gs|
  {
    hide ReadEntries, CheckGroup;
    if gs != [] {
      assert GroupTiled(gs[0]);
      var h := CheckGroup(data, pos, gs[0].blockLength, maxCount).value;
      var items := ReadEntries(c, data, pos + GROUP_HEADER, h.blockLength, h.count, gs[0]).value;
      ReadGroupsElsewhere(c, data, pos + h.total, gs[1..], maxCount, Set(m, gs[0].fd, VList(items)), name);
    }
  }

  lemma {:induction false} BackGroupsElsewhere(c: Floats, gs: seq<Group>, m: Fields, acc: Fields, name: string)
    requires GroupsTiled(gs) && NotNamed(gs, name)
    ensures var r := BackGroups(c, gs, m, acc);
            (name in r <==> name in acc) && (name in acc ==> r[name] == acc[name])
    decreases |gs|
  {
    hide BackEntries;
    if gs != [] {
      assert GroupTiled(gs[0]);
      BackGroupsElsewhere(c, gs[1..], m, Set(acc, gs[0].fd, VList(BackEntries(c, gs[0], ItemsOf(Get(m, gs[0].fd))))), name);
    }
  }

  lemma {:induction false} EntriesLength(c: Floats, data: seq<Byte>, start: nat, stride: nat, count: nat, g: Group)
    requires GroupTiled(g) && start + count * stride <= |data| && (count > 0 ==> stride >= g.blockLength)
    ensures var r := ReadEntries(c, data, start, stride, count, g);
            r.Done? ==> |r.value| == count
    decreases count
  {
    hide ReadBlock;
    if count > 0 {
      assert count * stride == stride + (count - 1) * stride;
      EntriesLength(c, data, start + stride, stride, count - 1, g);
    }
  }

  /** The groups come back when every count and block length fits its header and every
      group with an entry can be read, and otherwise some group is refused or loses
      entries. */
  lemma {:induction false} GroupsReadBack(c: Floats, data: seq<Byte>, pos: nat, gs: seq<Group>, m: Fields, maxCount: nat, acc: Fields)
    requires GroupsTiled(gs) && GroupsNamed(gs) && TypedGroups(gs, m) && pos <= |data|
    requires data[pos..] == GroupsBytes(c, gs, m)
    ensures var r := ReadGroups(c, data, pos, gs, maxCount, acc);
            if GroupsCount(gs, m, maxCount) && ReadableGroups(gs, m) then r == Done(BackGroups(c, gs, m, acc))
            else r.Done? ==> !SameGroups(gs, r.value, m)
    decreases |gs|
  {
    hide GroupTiled, GroupBytes, TypedEntries, ReadableBlock, ReadEntries, BackEntries, CheckGroup, GroupCounts, Set, SameEntries;
    if gs != [] {
      var g := gs[0];
      assert GroupTiled(g);
      var bytes := GroupBytes(c, g, m);
      assert data[pos..][..|bytes|] == bytes;
      assert data[pos..pos + |bytes|] == bytes;
      GroupReadsBack(c, data, pos, g, m, maxCount);
      var items := Get(m, g.fd).items;
      var h := CheckGroup(data, pos, g.blockLength, maxCount);
      if GroupCounts(g, |items|, maxCount) && (items != [] ==> ReadableBlock(g.slots)) {
        assert data[pos + |bytes|..] == data[pos..][|bytes|..];
        GroupsReadBack(c, data, pos + |bytes|, gs[1..], m, maxCount, Set(acc, g.fd, VList(BackEntries(c, g, items))));
      } else if h.Some? && !GroupCounts(g, |items|, maxCount) {
        WrongCount(c, data, pos, gs, m, maxCount, acc);
      }
    }
  }

  lemma WrongCount(c: Floats, data: seq<Byte>, pos: nat, gs: seq<Group>, m: Fields, maxCount: nat, acc: Fields)
    requires GroupsTiled(gs) && GroupsNamed(gs) && gs != [] && CheckGroup(data, pos, gs[0].blockLength, maxCount).Some?
    requires CheckGroup(data, pos, gs[0].blockLength, maxCount).value.count != |ItemsOf(Get(m, gs[0].fd))|
    ensures var r := ReadGroups(c, data, pos, gs, maxCount, acc);
            r.Done? ==> !SameGroups(gs, r.value, m)
  {
    hide ReadEntries, CheckGroup, Same;
    var g := gs[0];
    assert GroupTiled(g);
    var h := CheckGroup(data, pos, g.blockLength, maxCount).value;
    var r := ReadEntries(c, data, pos + GROUP_HEADER, h.blockLength, h.count, g);
    EntriesLength(c, data, pos + GROUP_HEADER, h.blockLength, h.count, g);
    assert NotNamed(gs[1..], g.fd.name);
    if r.Done? && ReadGroups(c, data, pos, gs, maxCount, acc).Done? {
      ReadGroupsElsewhere(c, data, pos + h.total, gs[1..], maxCount, Set(acc, g.fd, VList(r.value)), g.fd.name);
    }
  }

  // The message.

  /** The header's fields and every group's can say what the message needs. */
  ghost predicate Representable(c: Floats, t: Template, m: Fields, limits: Limits)
    requires TemplateTiled(t)
  {
    && t.templateId < 0x1_0000 && t.blockLength < 0x1_0000
    && |Marshalled(c, t, m)| <= limits.maxSize
    && GroupsCount(t.groups, m, limits.maxCount)
  }

  lemma HeaderParts(c: Floats, t: Template, m: Fields)
    requires TemplateTiled(t)
    ensures var data := Marshalled(c, t, m);
            && U16At(data, 0) == t.blockLength % 0x1_0000 && U16At(data, 2) == t.templateId % 0x1_0000
            && data[HEADER..HEADER + t.blockLength] == BlockBytes(c, t.slots, 0, t.blockLength, m)
            && data[HEADER + t.blockLength..] == GroupsBytes(c, t.groups, m)
  {
    var data := Marshalled(c, t, m);
    var block, groups := BlockBytes(c, t.slots, 0, t.blockLength, m), GroupsBytes(c, t.groups, m);
    hide BlockBytes, GroupsBytes;
    assert data == HeaderBytes(t) + block + groups;
    assert data[0..2] == HeaderBytes(t)[0..2] == U16(t.blockLength);
    assert data[2..4] == HeaderBytes(t)[2..4] == U16(t.templateId);
    U16Back(data, 0, t.blockLength);
    U16Back(data, 2, t.templateId);
  }

  /** Unmarshal of what marshal wrote, into any message, gives the values that come
      back when the template id, lengths, counts and the size are within what the wire
      and the limits allow and every block the message has can be read, and otherwise
      never the message. */
  lemma MessageReadsBack(c: Floats, t: Template, m: Fields, limits: Limits, acc: Fields)
    requires TemplateTiled(t) && GroupsNamed(t.groups)
    requires TypedBlock(t.slots, m) && TypedGroups(t.groups, m)
    ensures var r := Unmarshal(c, t, Marshalled(c, t, m), limits, acc);
            if Representable(c, t, m, limits) && ReadableMessage(t, m) then r == Done(BackMessage(c, t, m, acc))
            else r.Done? ==> !SameMessage(t, r.value, m)
  {
    hide Marshalled, ReadBlock, BlockBytes, TypedBlock, ReadableBlock, BackBlock, GroupsBytes, ReadGroups, BackGroups, GroupsCount;
    hide TypedGroups, Tiled, BlockEnd, U16At, GroupsNamed, ReadableGroups, GroupTiled, Same, SameGroups;
    var data := Marshalled(c, t, m);
    HeaderParts(c, t, m);
    EndOfBlock(c, t, m, limits);
    if BlockEnd(t, data, limits).Some? {
      if ReadableBlock(t.slots) {
        BlockReadsBack(c, data, HEADER, t.slots, 0, t.blockLength, m, acc);
        GroupsReadBack(c, data, HEADER + t.blockLength, t.groups, m, limits.maxCount, BackBlock(c, t.slots, 0, t.blockLength, m, acc));
      } else if ReadBlock(c, data, HEADER, t.slots, 0, t.blockLength, acc).Done? {
        OnlyReadable(c, data, HEADER, t.slots, 0, t.blockLength, acc);
      }
    }
  }

  lemma EndOfBlock(c: Floats, t: Template, m: Fields, limits: Limits)
    requires TemplateTiled(t)
    ensures BlockEnd(t, Marshalled(c, t, m), limits)
         == if t.blockLength < 0x1_0000 && t.templateId < 0x1_0000 && |Marshalled(c, t, m)| <= limits.maxSize
            then Some(HEADER + t.blockLength) else None
  {
    hide Marshalled, U16At, TemplateTiled, BlockBytes, GroupsBytes;
    HeaderParts(c, t, m);
    assert |Marshalled(c, t, m)| >= HEADER + t.blockLength;
  }

  // When the message comes back.

  /** A later member of the same oneof. */
  predicate ClearedBy(fd: Field, later: seq<Slot>) {
    later != [] && (fd.name in later[0].fd.siblings || ClearedBy(fd, later[1..]))
  }

  /** Every scalar fits its encoding; a oneof member that a later one clears is
      unset. */
  predicate FitsBlock(c: Floats, slots: seq<Slot>, from: nat, to: nat, m: Fields)
    requires Tiled(slots, from, to)
    decreases slots, 1
  {
    slots != [] ==>
      var fd := slots[0].fd;
      && (if ClearedBy(fd, slots[1..]) then SameValue(slots[0], Unset(fd), Get(m, fd)) else FitsSlot(c, slots[0], Get(m, fd)))
      && FitsBlock(c, slots[1..], from + slots[0].size, to, m)
  }

  predicate FitsSlot(c: Floats, slot: Slot, v: Value)
    requires SlotTiled(slot)
    decreases slot, 0
  {
    if slot.fd.kind.Message? then FitsBlock(c, slot.composite, 0, slot.size, FieldsOf(v))
    else Fits(c, slot.fd.kind, SizedOf(slot), v)
  }

  predicate FitsEntries(c: Floats, g: Group, items: seq<Value>)
    requires GroupTiled(g)
  {
    items != [] ==> FitsBlock(c, g.slots, 0, g.blockLength, FieldsOf(items[0])) && FitsEntries(c, g, items[1..])
  }

  ghost predicate FitsGroups(c: Floats, gs: seq<Group>, m: Fields)
    requires GroupsTiled(gs)
  {
    gs != [] ==> GroupTiled(gs[0]) && FitsEntries(c, gs[0], ItemsOf(Get(m, gs[0].fd))) && FitsGroups(c, gs[1..], m)
  }

  /** Fields have their own names, composites included. */
  predicate Named(slots: seq<Slot>)
    decreases slots
  {
    slots != [] ==>
      && Fresh(slots[0].fd, slots[1..])
      && (slots[0].fd.kind.Message? ==> Named(slots[0].composite))
      && slots[0].fd.shape.Single?
      && Named(slots[1..])
  }

  predicate Fresh(fd: Field, later: seq<Slot>) {
    forall j :: 0 <= j < |later| ==> later[j].fd.name != fd.name
  }

  // A block.

  /** What comes back in a field that was set before the rest of the block. */
  lemma {:induction false} BackKept(c: Floats, slots: seq<Slot>, from: nat, to: nat, m: Fields, acc: Fields, fd: Field)
    requires Tiled(slots, from, to) && Fresh(fd, slots) && fd.name in acc
    ensures Get(BackBlock(c, slots, from, to, m, acc), fd) == if ClearedBy(fd, slots) then Unset(fd) else acc[fd.name]
    decreases |slots|
  {
    hide BackSlot, SlotTiled;
    if slots != [] {
      var acc' := Set(acc, slots[0].fd, BackSlot(c, slots[0], Get(m, slots[0].fd)));
      if fd.name in slots[0].fd.siblings {
        BackGone(c, slots[1..], from + slots[0].size, to, m, acc', fd);
      } else {
        BackKept(c, slots[1..], from + slots[0].size, to, m, acc', fd);
      }
    }
  }

  lemma {:induction false} BackGone(c: Floats, slots: seq<Slot>, from: nat, to: nat, m: Fields, acc: Fields, fd: Field)
    requires Tiled(slots, from, to) && Fresh(fd, slots) && fd.name !in acc
    ensures Get(BackBlock(c, slots, from, to, m, acc), fd) == Unset(fd)
    decreases |slots|
  {
    hide BackSlot, SlotTiled;
    if slots != [] {
      BackGone(c, slots[1..], from + slots[0].size, to, m, Set(acc, slots[0].fd, BackSlot(c, slots[0], Get(m, slots[0].fd))), fd);
    }
  }

  lemma {:induction false} BlockExact(c: Floats, slots: seq<Slot>, from: nat, to: nat, m: Fields, acc: Fields)
    requires Tiled(slots, from, to) && Named(slots) && TypedBlock(slots, m) && ReadableBlock(slots)
    ensures Same(slots, BackBlock(c, slots, from, to, m, acc), m) <==> FitsBlock(c, slots, from, to, m)
    decreases slots, 1
  {
    hide SlotTiled, TypedSlot, Set, Get, BackSlot, Readable, SameValue, FitsSlot;
    if slots != [] {
      var slot := slots[0];
      var v := Get(m, slot.fd);
      var mid := from + slot.size;
      var acc' := Set(acc, slot.fd, BackSlot(c, slot, v));
      assert slot.fd.name in acc' && acc'[slot.fd.name] == BackSlot(c, slot, v) by { SetGet(acc, slot.fd, BackSlot(c, slot, v)); }
      BackKept(c, slots[1..], mid, to, m, acc', slot.fd);
      SlotExact(c, slot, v);
      BlockExact(c, slots[1..], mid, to, m, acc');
    }
  }

  lemma SetGet(m: Fields, fd: Field, v: Value)
    ensures fd.name in Set(m, fd, v) && Set(m, fd, v)[fd.name] == v
  {}

  lemma {:induction false} SlotExact(c: Floats, slot: Slot, v: Value)
    requires SlotTiled(slot) && TypedSlot(slot, v) && (slot.fd.kind.Message? ==> Named(slot.composite))
    requires if slot.fd.kind.Message? then ReadableBlock(slot.composite) else Readable(slot.fd.kind, slot.encoding.value)
    ensures SameValue(slot, BackSlot(c, slot, v), v) <==> FitsSlot(c, slot, v)
    decreases slot, 0
  {
    if slot.fd.kind.Message? {
      BlockExact(c, slot.composite, 0, slot.size, FieldsOf(v), map[]);
    } else {
      ScalarExact(c, slot.fd.kind, SizedOf(slot), v);
    }
    hide Tiled, TypedBlock, ReadableBlock, Readable, Back, Typed, Fits, Same, FitsBlock, BackBlock, Named;
  }

  // Groups.

  lemma {:induction false} EntriesExact(c: Floats, g: Group, items: seq<Value>)
    requires GroupTiled(g) && Named(g.slots) && TypedEntries(g, items) && (items != [] ==> ReadableBlock(g.slots))
    ensures SameEntries(g, BackEntries(c, g, items), items) <==> FitsEntries(c, g, items)
    decreases |items|
  {
    hide Tiled, Named, TypedBlock, ReadableBlock, BackBlock, Same, FitsBlock;
    if items != [] {
      BlockExact(c, g.slots, 0, g.blockLength, items[0].fields, map[]);
      EntriesExact(c, g, items[1..]);
      assert BackEntries(c, g, items)[1..] == BackEntries(c, g, items[1..]);
    }
  }

  lemma {:induction false} GroupsExact(c: Floats, gs: seq<Group>, m: Fields, acc: Fields)
    requires GroupsTiled(gs) && GroupsNamed(gs) && TypedGroups(gs, m) && ReadableGroups(gs, m)
    requires forall i :: 0 <= i < |gs| ==> Named(gs[i].slots)
    ensures SameGroups(gs, BackGroups(c, gs, m, acc), m) <==> FitsGroups(c, gs, m)
    decreases |gs|
  {
    hide GroupTiled, Named, TypedEntries, ReadableBlock, BackEntries, SameEntries, FitsEntries;
    if gs != [] {
      var g := gs[0];
      assert GroupTiled(g) && NotNamed(gs[1..], g.fd.name);
      var back := VList(BackEntries(c, g, ItemsOf(Get(m, g.fd))));
      BackGroupsElsewhere(c, gs[1..], m, Set(acc, g.fd, back), g.fd.name);
      EntriesExact(c, g, Get(m, g.fd).items);
      GroupsExact(c, gs[1..], m, Set(acc, g.fd, back));
    }
  }

  /** Reading the groups leaves the block's fields. */
  lemma {:induction false} SameElsewhere(c: Floats, slots: seq<Slot>, gs: seq<Group>, m: Fields, acc: Fields)
    requires GroupsTiled(gs)
    requires forall i :: 0 <= i < |slots| ==> NotNamed(gs, slots[i].fd.name)
    ensures Same(slots, BackGroups(c, gs, m, acc), m) <==> Same(slots, acc, m)
    decreases |slots|
  {
    hide SameValue, BackGroups, NotNamed;
    if slots != [] {
      BackGroupsElsewhere(c, gs, m, acc, slots[0].fd.name);
      SameElsewhere(c, slots[1..], gs, m, acc);
    }
  }

  /** Every field of the template, and of its groups and composites, has its own
      name. */
  ghost predicate TemplateNamed(t: Template) {
    && Named(t.slots) && GroupsNamed(t.groups)
    && (forall i :: 0 <= i < |t.groups| ==> Named(t.groups[i].slots))
    && (forall i :: 0 <= i < |t.slots| ==> NotNamed(t.groups, t.slots[i].fd.name))
  }

  /** The message that comes back is the message exactly when every scalar fits. */
  lemma MessageExact(c: Floats, t: Template, m: Fields, acc: Fields)
    requires TemplateTiled(t) && TemplateNamed(t) && ReadableMessage(t, m)
    requires TypedBlock(t.slots, m) && TypedGroups(t.groups, m)
    ensures SameMessage(t, BackMessage(c, t, m, acc), m)
       <==> FitsBlock(c, t.slots, 0, t.blockLength, m) && FitsGroups(c, t.groups, m)
  {
    hide Tiled, Named, NotNamed, TypedBlock, TypedGroups, ReadableBlock, BackBlock, BackGroups, Same, SameGroups, FitsBlock, FitsGroups;
    var block := BackBlock(c, t.slots, 0, t.blockLength, m, acc);
    BlockExact(c, t.slots, 0, t.blockLength, m, acc);
    SameElsewhere(c, t.slots, t.groups, m, block);
    GroupsExact(c, t.groups, m, block);
  }

  /** Only blocks whose kinds can be read from their encodings are ever read: any
      other layout, although it is built, panics or is refused on every buffer. */
  lemma {:induction false} OnlyReadable(c: Floats, data: seq<Byte>, base: nat, slots: seq<Slot>, from: nat, to: nat, acc: Fields)
    requires Tiled(slots, from, to) && base + to <= |data| && ReadBlock(c, data, base, slots, from, to, acc).Done?
    ensures ReadableBlock(slots)
    decreases slots, 1
  {
    hide SlotTiled, ReadSlot, Readable, Set;
    if slots != [] {
      TiledWithin(slots, from, to);
      SlotReadable(c, data, base, slots[0]);
      OnlyReadable(c, data, base, slots[1..], from + slots[0].size, to, Set(acc, slots[0].fd, ReadSlot(c, data, base, slots[0]).value));
    }
  }

  lemma {:induction false} SlotReadable(c: Floats, data: seq<Byte>, base: nat, slot: Slot)
    requires SlotTiled(slot) && base + slot.offset + slot.size <= |data| && ReadSlot(c, data, base, slot).Done?
    ensures if slot.fd.kind.Message? then slot.composite != [] && ReadableBlock(slot.composite)
            else slot.encoding.Some? && Readable(slot.fd.kind, slot.encoding.value)
    decreases slot, 0
  {
    if slot.fd.kind.Message? {
      OnlyReadable(c, data, base + slot.offset, slot.composite, 0, slot.size, map[]);
    } else {
      ReadableExactly(c, slot.fd.kind, SizedOf(slot), data[base + slot.offset..base + slot.offset + slot.size]);
    }
    hide Tiled, ReadableBlock, Readable, ReadScalar, ReadBlock;
  }

  // From the descriptor.

  /** Fields have their own names at every level, and only singular ones are in
      oneofs. */
  ghost predicate DescNamed(fields: seq<Field>)
    decreases fields, 1
  {
    && (forall i, j :: 0 <= i < j < |fields| ==> fields[i].name != fields[j].name)
    && forall i :: 0 <= i < |fields| ==> FieldNamed(fields[i])
  }

  ghost predicate FieldNamed(fd: Field)
    decreases fd, 0
  {
    (!fd.shape.Single? ==> fd.siblings == {}) && (fd.kind.Message? ==> DescNamed(fd.kind.inner.fields))
  }

  ghost predicate BlockNamed(b: Block) {
    && Named(b.slots) && GroupsNamed(b.groups)
    && (forall i :: 0 <= i < |b.groups| ==> Named(b.groups[i].slots))
    && (forall i :: 0 <= i < |b.slots| ==> NotNamed(b.groups, b.slots[i].fd.name))
  }

  /** No field of the block has a name of these fields. */
  ghost predicate Disjoint(b: Block, fields: seq<Field>) {
    forall i :: 0 <= i < |fields| ==>
      && (forall j :: 0 <= j < |b.slots| ==> b.slots[j].fd.name != fields[i].name)
      && (forall j :: 0 <= j < |b.groups| ==> b.groups[j].fd.name != fields[i].name)
  }

  lemma {:induction false} NamedAppend(slots: seq<Slot>, slot: Slot)
    requires Named(slots) && slot.fd.shape.Single? && (slot.fd.kind.Message? ==> Named(slot.composite))
    requires forall j :: 0 <= j < |slots| ==> slots[j].fd.name != slot.fd.name
    ensures Named(slots + [slot])
    decreases |slots|
  {
    if slots == [] {
      assert [] + [slot] == [slot] && [slot][1..] == [];
    } else {
      NamedAppend(slots[1..], slot);
      assert (slots + [slot])[1..] == slots[1..] + [slot];
    }
  }

  lemma {:induction false} FieldsNamed(level: Level, fields: seq<Field>, before: Block)
    requires DescNamed(fields) && BlockNamed(before) && Disjoint(before, fields)
    ensures BuildFields(level, fields, before).Ok? ==> BlockNamed(BuildFields(level, fields, before).value)
    decreases fields, 1
  {
    hide BlockNamed, BuildField, FieldNamed;
    if fields != [] && BuildField(level, fields[0], before).Ok? {
      assert FieldNamed(fields[0]);
      OneFieldNamed(level, fields[0], before);
      var b := BuildField(level, fields[0], before).value;
      BuildAdds(level, fields[0], before);
      assert Disjoint(b, fields[1..]);
      FieldsNamed(level, fields[1..], b);
    }
  }

  lemma BuildAdds(level: Level, fd: Field, before: Block)
    requires BuildField(level, fd, before).Ok?
    ensures var b := BuildField(level, fd, before).value;
            && (forall j :: 0 <= j < |b.slots| ==> b.slots[j].fd == fd || (j < |before.slots| && b.slots[j] == before.slots[j]))
            && (forall j :: 0 <= j < |b.groups| ==> b.groups[j].fd == fd || (j < |before.groups| && b.groups[j] == before.groups[j]))
  {
    hide BuildFields;
  }

  lemma NothingNamed(fields: seq<Field>)
    ensures BlockNamed(Block([], [], 0)) && Disjoint(Block([], [], 0), fields)
  {}

  lemma {:induction false} OneFieldNamed(level: Level, fd: Field, before: Block)
    requires FieldNamed(fd) && BlockNamed(before) && Disjoint(before, [fd])
    ensures BuildField(level, fd, before).Ok? ==> BlockNamed(BuildField(level, fd, before).value)
    decreases fd, 0
  {
    hide Named, BuildFields, EncodingOf;
    var r := BuildField(level, fd, before);
    if r.Ok? {
      assert [fd][0] == fd;
      if fd.kind.Message? {
        NothingNamed(fd.kind.inner.fields);
        FieldsNamed(if fd.shape.List? then InGroup else InComposite, fd.kind.inner.fields, Block([], [], 0));
      }
      hide DescNamed;
      if !fd.shape.List? {
        NamedAppend(before.slots, r.value.slots[|before.slots|]);
      }
    }
  }

  lemma BuildTemplateNamed(desc: Desc, templateId: Option<nat>, schemaId: nat, version: nat)
    requires DescNamed(desc.fields)
    ensures BuildTemplate(desc, templateId, schemaId, version).Ok? ==>
              TemplateNamed(BuildTemplate(desc, templateId, schemaId, version).value)
  {
    hide DescNamed, BuildFields;
    assert BlockNamed(Block([], [], 0)) && Disjoint(Block([], [], 0), desc.fields);
    FieldsNamed(Root, desc.fields, Block([], [], 0));
  }

  /** The round trip: for every message type with a layout and every message of it,
      unmarshal returns what marshal was given exactly when the template id, the
      lengths, the counts and the size are within 16 bits and the limits, every block
      the message has can be read, every scalar fits its encoding, and no group entry
      loses a oneof member. */
  lemma RoundTrip(c: Floats, desc: Desc, templateId: Option<nat>, schemaId: nat, version: nat, m: Fields, limits: Limits, acc: Fields)
    requires DescNamed(desc.fields) && BuildTemplate(desc, templateId, schemaId, version).Ok?
    requires var t := BuildTemplate(desc, templateId, schemaId, version).value;
             TypedBlock(t.slots, m) && TypedGroups(t.groups, m)
    ensures var t := BuildTemplate(desc, templateId, schemaId, version).value;
            TemplateTiled(t)
            && (var r := Unmarshal(c, t, Marshalled(c, t, m), limits, acc);
                (r.Done? && SameMessage(t, r.value, m))
                <==> (Representable(c, t, m, limits) && ReadableMessage(t, m)
                      && FitsBlock(c, t.slots, 0, t.blockLength, m) && FitsGroups(c, t.groups, m)))
  {
    hide BuildTemplate, Unmarshal, Marshalled, Representable, ReadableMessage, TypedBlock, TypedGroups, FitsBlock, FitsGroups;
    hide BackMessage, SameMessage, DescNamed;
    BuildTemplateTiled(desc, templateId, schemaId, version);
    BuildTemplateNamed(desc, templateId, schemaId, version);
    var t := BuildTemplate(desc, templateId, schemaId, version).value;
    MessageReadsBack(c, t, m, limits, acc);
    if ReadableMessage(t, m) {
      MessageExact(c, t, m, acc);
    }
  }
}
