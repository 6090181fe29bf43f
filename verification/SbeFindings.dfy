/** Layouts that are built and do not work, each at a concrete message type. */
module SbeFindings {
  import opened Options
  import opened Bytes
  import opened SbeLayout
  import opened SbeValues
  import opened SbeCodec
  import opened SbeRoundTrip
  import opened SbeView

  function Scalar(name: string, kind: Kind, encoding: Option<string>): Field {
    Field(name, kind, Single, false, {}, encoding, None)
  }

  /** A message type of one field, and its layout. */
  function OneField(fd: Field): Desc {
    Desc([fd])
  }

  function OneSlot(slot: Slot): Template {
    Template(1, 0, 0, slot.size, [slot], [])
  }

  lemma OneFieldBuilt(fd: Field, slot: Slot)
    requires BuildField(Root, fd, Block([], [], 0)) == Ok(Block([slot], [], slot.size))
    ensures BuildTemplate(OneField(fd), Some(1), 0, 0) == Ok(OneSlot(slot))
  {
    var b := Block([slot], [], slot.size);
    assert [fd][1..] == [];
    assert BuildFields(Root, [], b) == Ok(b);
    hide BuildField;
    assert BuildFields(Root, [fd], Block([], [], 0)) == Ok(b);
  }

  // A bool encoded as a float.

  const FLOAT_BOOL: Field := Scalar("b", Bool, Some("float"))
  const FLOAT_SLOT: Slot := Slot(FLOAT_BOOL, 0, 4, Some(FloatBits), [])

  /** The layout is built, and unmarshal succeeds on no buffer. */
  lemma UnreadableLayout(c: Floats, data: seq<Byte>, limits: Limits, acc: Fields)
    ensures BuildTemplate(OneField(FLOAT_BOOL), Some(1), 0, 0) == Ok(OneSlot(FLOAT_SLOT))
    ensures TemplateTiled(OneSlot(FLOAT_SLOT)) && !Unmarshal(c, OneSlot(FLOAT_SLOT), data, limits, acc).Done?
  {
    var t := OneSlot(FLOAT_SLOT);
    assert [] + [FLOAT_SLOT] == [FLOAT_SLOT];
    OneFieldBuilt(FLOAT_BOOL, FLOAT_SLOT);
    BuildTemplateTiled(OneField(FLOAT_BOOL), Some(1), 0, 0);
    assert !ReadableBlock(t.slots);
    hide ReadBlock, Tiled, ReadableBlock, ReadGroups;
    if Unmarshal(c, t, data, limits, acc).Done? {
      OnlyReadable(c, data, HEADER, t.slots, 0, t.blockLength, acc);
    }
  }

  // A composite without fields.

  const EMPTY_COMPOSITE: Field := Scalar("c", Kind.Message(Desc([])), None)
  const EMPTY_SLOT: Slot := Slot(EMPTY_COMPOSITE, 0, 0, None, [])

  /** The layout is built, and marshal returns for no message. */
  lemma EmptyComposite(m: Fields)
    ensures BuildTemplate(OneField(EMPTY_COMPOSITE), Some(1), 0, 0) == Ok(OneSlot(EMPTY_SLOT))
    ensures !Writable(OneSlot(EMPTY_SLOT), m)
  {
    assert [] + [EMPTY_SLOT] == [EMPTY_SLOT];
    assert BuildFields(InComposite, [], Block([], [], 0)) == Ok(Block([], [], 0));
    OneFieldBuilt(EMPTY_COMPOSITE, EMPTY_SLOT);
  }

  // A bool of two bytes, unsigned or signed.

  function WideBool(signed: bool): Field {
    Scalar("b", Bool, Some(if signed then "int16" else "uint16"))
  }

  function WideSlot(signed: bool): Slot {
    Slot(WideBool(signed), 0, 2, Some(if signed then Signed(2) else Unsigned(2)), [])
  }

  /** Block length 2, template 1, and 256 in the field. */
  const WIDE_DATA: seq<Byte> := [2, 0, 1, 0, 0, 0, 0, 0, 0, 1]

  lemma {:induction false} WideBuilt(signed: bool)
    ensures BuildTemplate(OneField(WideBool(signed)), Some(1), 0, 0) == Ok(OneSlot(WideSlot(signed)))
    ensures TemplateTiled(OneSlot(WideSlot(signed)))
  {
    assert [] + [WideSlot(signed)] == [WideSlot(signed)];
    OneFieldBuilt(WideBool(signed), WideSlot(signed));
    BuildTemplateTiled(OneField(WideBool(signed)), Some(1), 0, 0);
  }

  lemma {:induction false} WideRead(c: Floats, signed: bool)
    requires Tiled([WideSlot(signed)], 0, 2)
    ensures ReadBlock(c, WIDE_DATA, HEADER, [WideSlot(signed)], 0, 2, map[]) == Done(map["b" := VBool(true)])
    ensures U16At(WIDE_DATA, 0) == 2 && U16At(WIDE_DATA, 2) == 1
  {
    assert WIDE_DATA[8..10] == [0, 1] && [0 as Byte, 1][1..] == [1] && [1 as Byte][1..] == [];
    assert FromLe([0, 1]) == 256;
    Spans();
    SignedBack(256, 2);
    hide Span, ToSigned, Wrap, FromLe;
    var slot := WideSlot(signed);
    assert ReadSlot(c, WIDE_DATA, HEADER, slot) == Done(VBool(true));
    assert [slot][1..] == [];
    assert Set(map[], WideBool(signed), VBool(true)) == map["b" := VBool(true)];
    hide ReadSlot, Set;
  }

  /** The decoder reads true, and the view false. */
  lemma {:induction false} WideBoolDisagrees(c: Floats, limits: Limits, signed: bool)
    requires limits.maxSize >= 10
    ensures var t := OneSlot(WideSlot(signed));
            && BuildTemplate(OneField(WideBool(signed)), Some(1), 0, 0) == Ok(t) && TemplateTiled(t)
            && Unmarshal(c, t, WIDE_DATA, limits, map[]) == Done(map["b" := VBool(true)])
            && (var v := ViewOf(Register(Codec(map[], map[]), "M", t), WIDE_DATA, limits);
                v.Done? && BoolField(v.value, "b") == Done(false))
  {
    WideBuilt(signed);
    WideRead(c, signed);
    hide ReadBlock, Tiled, U16At, BuildTemplate;
    assert WIDE_DATA[8..9] == [0];
  }

  // A template id past 16 bits.

  const PLAIN: Field := Scalar("n", Int32, None)
  const PLAIN_SLOT: Slot := Slot(PLAIN, 0, 4, Some(Signed(4)), [])
  const WIDE_ID: Template := Template(0x1_0000, 0, 0, 4, [PLAIN_SLOT], [])

  /** The layout is built, and what is marshalled with it is refused. */
  lemma {:induction false} WideIdRefused(c: Floats, m: Fields, limits: Limits, acc: Fields)
    ensures BuildTemplate(OneField(PLAIN), Some(0x1_0000), 0, 0) == Ok(WIDE_ID) && TemplateTiled(WIDE_ID)
    ensures Unmarshal(c, WIDE_ID, Marshalled(c, WIDE_ID, m), limits, acc) == Refuse
  {
    assert [] + [PLAIN_SLOT] == [PLAIN_SLOT];
    OneFieldBuilt(PLAIN, PLAIN_SLOT);
    BuildTemplateTiled(OneField(PLAIN), Some(0x1_0000), 0, 0);
    hide BlockEnd, Marshalled, Tiled;
    EndOfBlock(c, WIDE_ID, m, limits);
  }

  // A composite that is unset.

  const INNER: Field := Scalar("c", Kind.Message(Desc([PLAIN])), None)
  const INNER_SLOT: Slot := Slot(INNER, 0, 4, None, [PLAIN_SLOT])

  lemma {:induction false} InnerBuilt()
    ensures BuildTemplate(OneField(INNER), Some(1), 0, 0) == Ok(OneSlot(INNER_SLOT)) && TemplateTiled(OneSlot(INNER_SLOT))
  {
    assert [] + [PLAIN_SLOT] == [PLAIN_SLOT] && [] + [INNER_SLOT] == [INNER_SLOT] && [PLAIN][1..] == [];
    var b := Block([PLAIN_SLOT], [], 4);
    assert BuildField(InComposite, PLAIN, Block([], [], 0)) == Ok(b);
    assert BuildFields(InComposite, [], b) == Ok(b);
    assert BuildFields(InComposite, [PLAIN], Block([], [], 0)) == Ok(b);
    OneFieldBuilt(INNER, INNER_SLOT);
    BuildTemplateTiled(OneField(INNER), Some(1), 0, 0);
  }

  lemma {:induction false} OneReadable(slot: Slot)
    requires !slot.fd.kind.Message? && slot.encoding.Some? && Readable(slot.fd.kind, slot.encoding.value)
    ensures ReadableBlock([slot])
  {
    assert [slot][1..] == [];
    assert ReadableBlock([]);
  }

  lemma {:induction false} InnerBack(c: Floats)
    requires Tiled([INNER_SLOT], 0, 4) && Tiled([PLAIN_SLOT], 0, 4)
    ensures BackBlock(c, [INNER_SLOT], 0, 4, map[], map[]) == map["c" := VMsg(map["n" := VI32(0)])]
    ensures TypedBlock([INNER_SLOT], map[]) && ReadableBlock([INNER_SLOT])
  {
    Spans();
    SignedBack(0, 4);
    hide Span, ToSigned, Wrap;
    assert [PLAIN_SLOT][1..] == [] && [INNER_SLOT][1..] == [];
    OneReadable(PLAIN_SLOT);
    assert TypedBlock([PLAIN_SLOT], map[]) && ReadableBlock([PLAIN_SLOT]);
    assert Set(map[], PLAIN, VI32(0)) == map["n" := VI32(0)];
    assert BackSlot(c, PLAIN_SLOT, VI32(0)) == VI32(0);
    assert BackBlock(c, [PLAIN_SLOT], 0, 4, map[], map[]) == map["n" := VI32(0)];
    assert BackSlot(c, INNER_SLOT, VMsg(map[])) == VMsg(map["n" := VI32(0)]);
    hide BackSlot;
    assert Set(map[], INNER, VMsg(map["n" := VI32(0)])) == map["c" := VMsg(map["n" := VI32(0)])];
  }

  /** A message without it comes back with it, every field of it zero. */
  lemma {:induction false} UnsetComposite(c: Floats, limits: Limits)
    requires limits.maxSize >= 12
    ensures var t := OneSlot(INNER_SLOT);
            && BuildTemplate(OneField(INNER), Some(1), 0, 0) == Ok(t) && TemplateTiled(t)
            && Unmarshal(c, t, Marshalled(c, t, map[]), limits, map[]) == Done(map["c" := VMsg(map["n" := VI32(0)])])
  {
    InnerBuilt();
    var t := OneSlot(INNER_SLOT);
    assert SlotTiled(INNER_SLOT);
    InnerBack(c);
    hide BuildTemplate, Unmarshal, BackBlock, TypedBlock, ReadableBlock, BlockBytes;
    MessageReadsBack(c, t, map[], limits, map[]);
  }

  // A oneof in a group.

  /** Two members of one oneof. */
  const X: Field := Field("x", Int32, Single, true, {"y"}, None, None)
  const Y: Field := Field("y", Int32, Single, true, {"x"}, None, None)
  const GROUP: Field := Field("g", Kind.Message(Desc([X, Y])), List, false, {}, None, None)
  const X_SLOT: Slot := Slot(X, 0, 4, Some(Signed(4)), [])
  const Y_SLOT: Slot := Slot(Y, 4, 4, Some(Signed(4)), [])
  const G: Group := Group(GROUP, 8, [X_SLOT, Y_SLOT])
  const GROUP_TEMPLATE: Template := Template(1, 0, 0, 0, [], [G])

  lemma GroupBuilt()
    ensures BuildTemplate(Desc([GROUP]), Some(1), 0, 0) == Ok(GROUP_TEMPLATE)
  {
    var none := Block([], [], 0);
    var one := Block([X_SLOT], [], 4);
    var two := Block([X_SLOT, Y_SLOT], [], 8);
    assert [] + [X_SLOT] == [X_SLOT] && [X_SLOT] + [Y_SLOT] == [X_SLOT, Y_SLOT];
    assert [X, Y][1..] == [Y] && [Y][1..] == [] && [GROUP][1..] == [];
    assert BuildField(InGroup, X, none) == Ok(one) && BuildField(InGroup, Y, one) == Ok(two);
    assert BuildFields(InGroup, [Y], one) == Ok(two) by { assert BuildFields(InGroup, [], two) == Ok(two); }
    assert BuildFields(InGroup, [X, Y], none) == Ok(two);
    hide BuildFields;
    assert [] + [G] == [G];
    assert BuildField(Root, GROUP, none) == Ok(Block([], [G], 0));
    hide BuildField;
    GroupFields(Block([], [G], 0));
  }

  lemma GroupFields(b: Block)
    requires BuildField(Root, GROUP, Block([], [], 0)) == Ok(b)
    ensures BuildFields(Root, [GROUP], Block([], [], 0)) == Ok(b)
  {
    hide BuildField;
    assert [GROUP][1..] == [];
    assert BuildFields(Root, [], b) == Ok(b);
  }

  /** One entry, with its first member set. */
  function Chosen(): Fields {
    map["g" := VList([VMsg(map["x" := VI32(1)])])]
  }

  lemma EntryBack(c: Floats)
    requires Tiled(G.slots, 0, 8)
    ensures BackBlock(c, G.slots, 0, 8, map["x" := VI32(1)], map[]) == map["y" := VI32(0)]
  {
    Spans();
    SignedBack(1, 4);
    SignedBack(0, 4);
    hide Span, ToSigned, Wrap;
    assert G.slots[1..] == [Y_SLOT] && [Y_SLOT][1..] == [];
    var m: Fields := map["x" := VI32(1)];
    assert BackSlot(c, X_SLOT, VI32(1)) == VI32(1) && BackSlot(c, Y_SLOT, VI32(0)) == VI32(0);
    assert Set(Set(map[], X, VI32(1)), Y, VI32(0)) == map["y" := VI32(0)];
    hide BackSlot, Set;
    assert BackBlock(c, [Y_SLOT], 4, 8, m, Set(map[], X, VI32(1))) == map["y" := VI32(0)];
  }

  /** The layout is built; the message comes back with the other member set, to
      zero, in place of the chosen one. */
  lemma OneofLost(c: Floats, limits: Limits)
    requires limits.maxSize >= 20 && limits.maxCount >= 1
    ensures BuildTemplate(Desc([GROUP]), Some(1), 0, 0) == Ok(GROUP_TEMPLATE) && TemplateTiled(GROUP_TEMPLATE)
    ensures Unmarshal(c, GROUP_TEMPLATE, Marshalled(c, GROUP_TEMPLATE, Chosen()), limits, map[])
         == Done(map["g" := VList([VMsg(map["y" := VI32(0)])])])
  {
    GroupBuilt();
    BuildTemplateTiled(Desc([GROUP]), Some(1), 0, 0);
    assert GroupTiled(G) by { assert GROUP_TEMPLATE.groups[0] == G; }
    GroupReadable();
    ChosenTyped();
    assert Representable(c, GROUP_TEMPLATE, Chosen(), limits) by {
      ChosenCounts(c, limits);
    }
    hide Marshalled, Unmarshal, Representable, ReadableMessage, TypedBlock, TypedGroups, GroupsNamed;
    MessageReadsBack(c, GROUP_TEMPLATE, Chosen(), limits, map[]);
    EntryBack(c);
    ChosenBack(c);
  }

  lemma GroupReadable()
    ensures ReadableMessage(GROUP_TEMPLATE, Chosen()) && GroupsNamed(GROUP_TEMPLATE.groups)
  {
    assert G.slots[1..] == [Y_SLOT] && [Y_SLOT][1..] == [];
    assert ReadableBlock([Y_SLOT]);
    assert ReadableBlock(G.slots);
  }

  lemma ChosenTyped()
    ensures TypedBlock(GROUP_TEMPLATE.slots, Chosen()) && TypedGroups(GROUP_TEMPLATE.groups, Chosen())
  {
    Spans();
    assert G.slots[1..] == [Y_SLOT] && [Y_SLOT][1..] == [];
    var m: Fields := map["x" := VI32(1)];
    assert TypedBlock([Y_SLOT], m);
    assert TypedBlock(G.slots, m);
    var items := [VMsg(m)];
    assert items[1..] == [] && TypedEntries(G, items[1..]);
    assert GROUP_TEMPLATE.groups[1..] == [];
  }

  lemma ChosenCounts(c: Floats, limits: Limits)
    requires TemplateTiled(GROUP_TEMPLATE) && limits.maxSize >= 20 && limits.maxCount >= 1
    ensures |Marshalled(c, GROUP_TEMPLATE, Chosen())| == 20 && GroupsCount(GROUP_TEMPLATE.groups, Chosen(), limits.maxCount)
  {
    assert GroupTiled(G) by { assert GROUP_TEMPLATE.groups[0] == G; }
    assert GROUP_TEMPLATE.groups[1..] == [];
    assert ItemsOf(Get(Chosen(), GROUP)) == [VMsg(map["x" := VI32(1)])];
    hide GroupBytes, BlockBytes;
    assert GroupsBytes(c, [], Chosen()) == [];
    assert |GroupBytes(c, G, Chosen())| == GROUP_HEADER + 8;
  }

  lemma ChosenBack(c: Floats)
    requires TemplateTiled(GROUP_TEMPLATE) && GroupTiled(G)
    requires BackBlock(c, G.slots, 0, 8, map["x" := VI32(1)], map[]) == map["y" := VI32(0)]
    ensures BackMessage(c, GROUP_TEMPLATE, Chosen(), map[]) == map["g" := VList([VMsg(map["y" := VI32(0)])])]
  {
    var items := [VMsg(map["x" := VI32(1)])];
    assert ItemsOf(Get(Chosen(), GROUP)) == items && items[1..] == [] && GROUP_TEMPLATE.groups[1..] == [];
    assert BackEntries(c, G, items[1..]) == [];
    hide Tiled;
    assert BackEntries(c, G, items) == [VMsg(map["y" := VI32(0)])];
    assert BackBlock(c, [], 0, 0, Chosen(), map[]) == map[] by { NoBlock(c); }
    hide BackBlock, BackEntries;
    var r: Fields := map["g" := VList([VMsg(map["y" := VI32(0)])])];
    assert Set(map[], GROUP, VList([VMsg(map["y" := VI32(0)])])) == r;
    hide Set;
    assert BackGroups(c, [], Chosen(), r) == r;
    assert BackGroups(c, GROUP_TEMPLATE.groups, Chosen(), map[]) == r;
  }

  lemma NoBlock(c: Floats)
    ensures Tiled([], 0, 0) && BackBlock(c, [], 0, 0, Chosen(), map[]) == map[]
  {}

  /** What marshal writes for the chosen member: a header for template 1, and a group of
      one entry of eight bytes. */
  const CHOSEN_DATA: seq<Byte> := [0, 0, 1, 0, 0, 0, 0, 0, 8, 0, 1, 0, 1, 0, 0, 0, 0, 0, 0, 0]

  lemma {:induction false} ChosenWritten(c: Floats)
    requires TemplateTiled(GROUP_TEMPLATE)
    ensures Marshalled(c, GROUP_TEMPLATE, Chosen()) == CHOSEN_DATA
  {
    HeaderWritten();
    GroupWritten(c);
    NoSlots(c, Chosen());
    hide GroupsBytes, BlockBytes, HeaderBytes;
  }

  lemma {:induction false} HeaderWritten()
    ensures HeaderBytes(GROUP_TEMPLATE) == [0, 0, 1, 0, 0, 0, 0, 0]
  {
    SmallLe();
    hide Le;
  }

  lemma {:induction false} GroupWritten(c: Floats)
    requires GroupsTiled([G])
    ensures GroupsBytes(c, [G], Chosen()) == [8, 0, 1, 0, 1, 0, 0, 0, 0, 0, 0, 0]
  {
    var m: Fields := map["x" := VI32(1)];
    assert GroupTiled(G) by { assert [G][0] == G; }
    EntryWritten(c);
    assert [G][1..] == [];
    SmallLe();
    hide BlockBytes, Le;
    assert EntriesBytes(c, G, [VMsg(m)]) == [1, 0, 0, 0, 0, 0, 0, 0] by { assert [VMsg(m)][1..] == []; }
    hide EntriesBytes;
    assert GroupBytes(c, G, Chosen()) == [8, 0, 1, 0, 1, 0, 0, 0, 0, 0, 0, 0];
    hide GroupBytes;
  }

  lemma {:induction false} NoSlots(c: Floats, m: Fields)
    ensures Tiled([], 0, 0) && BlockBytes(c, [], 0, 0, m) == []
  {}

  lemma {:induction false} SmallLe()
    ensures Le(0, 2) == [0, 0] && Le(1, 2) == [1, 0] && Le(8, 2) == [8, 0]
    ensures Le(0, 4) == [0, 0, 0, 0] && Le(1, 4) == [1, 0, 0, 0]
  {
    assert Le(0, 0) == [] && Le(0, 1) == [0] && Le(0, 2) == [0, 0] && Le(0, 3) == [0, 0, 0];
    assert Le(1, 2) == [1] + Le(0, 1) && Le(8, 2) == [8] + Le(0, 1);
    assert Le(0, 4) == [0] + Le(0, 3) && Le(1, 4) == [1] + Le(0, 3);
  }

  lemma {:induction false} EntryWritten(c: Floats)
    requires Tiled(G.slots, 0, 8)
    ensures BlockBytes(c, G.slots, 0, 8, map["x" := VI32(1)]) == [1, 0, 0, 0, 0, 0, 0, 0]
  {
    Spans();
    SmallLe();
    hide Span, Le;
    var m: Fields := map["x" := VI32(1)];
    assert G.slots[1..] == [Y_SLOT] && [Y_SLOT][1..] == [];
    assert SlotBytes(c, X_SLOT, VI32(1)) == [1, 0, 0, 0] && SlotBytes(c, Y_SLOT, VI32(0)) == [0, 0, 0, 0];
    hide SlotBytes;
    assert BlockBytes(c, [Y_SLOT], 4, 8, m) == [0, 0, 0, 0];
  }

  /** On the bytes of that message the view gives the chosen member's value, which the
      decoder has cleared. */
  lemma {:induction false} OneofSeen(c: Floats, limits: Limits)
    requires limits.maxSize >= 20 && limits.maxCount >= 1
    ensures TemplateTiled(GROUP_TEMPLATE) && Marshalled(c, GROUP_TEMPLATE, Chosen()) == CHOSEN_DATA
    ensures Unmarshal(c, GROUP_TEMPLATE, CHOSEN_DATA, limits, map[]) == Done(map["g" := VList([VMsg(map["y" := VI32(0)])])])
    ensures var v := ViewOf(Register(Codec(map[], map[]), "M", GROUP_TEMPLATE), CHOSEN_DATA, limits);
            && v.Done? && GroupOf(v.value, "g").Done? && EntryOf(GroupOf(v.value, "g").value, 0).Done?
            && IntField(EntryOf(GroupOf(v.value, "g").value, 0).value, "x") == Done(1)
  {
    OneofLost(c, limits);
    ChosenWritten(c);
    ChosenSeen(limits);
    hide Unmarshal, Marshalled, TemplateTiled, BuildTemplate, ViewOf, GroupOf, IntField;
  }

  lemma {:induction false} ChosenSeen(limits: Limits)
    requires limits.maxSize >= 20 && limits.maxCount >= 1
    ensures var v := ViewOf(Register(Codec(map[], map[]), "M", GROUP_TEMPLATE), CHOSEN_DATA, limits);
            && v.Done? && GroupOf(v.value, "g") == Done(GroupView(CHOSEN_DATA, 8, 8, 1, G.slots))
            && IntField(View(CHOSEN_DATA, 12, 20, G.slots, [], 0, 0), "x") == Done(1)
            && EntryOf(GroupOf(v.value, "g").value, 0) == Done(View(CHOSEN_DATA, 12, 20, G.slots, [], 0, 0))
  {
    ChosenHeaders();
    ChosenInt();
    hide U16At, IntField, FindSlot;
    assert CheckGroup(CHOSEN_DATA, 8, 8, limits.maxCount) == Some(GroupHeader(8, 1, 12));
  }

  lemma {:induction false} ChosenHeaders()
    ensures U16At(CHOSEN_DATA, 0) == 0 && U16At(CHOSEN_DATA, 2) == 1 && U16At(CHOSEN_DATA, 8) == 8 && U16At(CHOSEN_DATA, 10) == 1
  {}

  lemma {:induction false} ChosenInt()
    ensures IntField(View(CHOSEN_DATA, 12, 20, G.slots, [], 0, 0), "x") == Done(1)
  {
    assert CHOSEN_DATA[12..16] == [1, 0, 0, 0];
    OneAsInt();
    hide FromLe, ToSigned;
  }

  lemma {:induction false} OneAsInt()
    ensures FromLe([1, 0, 0, 0]) == 1 && ToSigned(1, 4) == 1
  {
    var s: seq<Byte> := [1, 0, 0, 0];
    assert s[1..] == [0, 0, 0] && s[1..][1..] == [0, 0] && s[1..][1..][1..] == [0] && s[1..][1..][1..][1..] == [];
    SignedBack(1, 4);
    Spans();
    hide Span;
  }
}
