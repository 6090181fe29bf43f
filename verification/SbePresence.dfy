/** The round trip with the difference between a field that is unset and one that holds
    its default. */
module SbePresence {
  import opened Options
  import opened SbeLayout
  import opened SbeValues
  import opened SbeCodec
  import opened SbeRoundTrip

  /** Which singular fields tell the two apart. */
  type Tracked = Field -> bool

  // Set in both messages or in neither.

  predicate SetAlike(has: Tracked, slots: seq<Slot>, a: Fields, b: Fields)
    decreases slots, 1
  {
    slots != [] ==> SlotAlike(has, slots[0], a, b) && SetAlike(has, slots[1..], a, b)
  }

  predicate SlotAlike(has: Tracked, slot: Slot, a: Fields, b: Fields)
    decreases slot, 0
  {
    var fd := slot.fd;
    && (has(fd) ==> (fd.name in a <==> fd.name in b))
    && (fd.kind.Message? ==> SetAlike(has, slot.composite, FieldsOf(Get(a, fd)), FieldsOf(Get(b, fd))))
  }

  predicate EntriesAlike(has: Tracked, g: Group, a: seq<Value>, b: seq<Value>) {
    |a| == |b| && (a != [] ==> SetAlike(has, g.slots, FieldsOf(a[0]), FieldsOf(b[0])) && EntriesAlike(has, g, a[1..], b[1..]))
  }

  predicate GroupsAlike(has: Tracked, gs: seq<Group>, a: Fields, b: Fields) {
    gs != [] ==>
      EntriesAlike(has, gs[0], ItemsOf(Get(a, gs[0].fd)), ItemsOf(Get(b, gs[0].fd))) && GroupsAlike(has, gs[1..], a, b)
  }

  /** The same values, and the same fields set. */
  predicate Equal(has: Tracked, t: Template, a: Fields, b: Fields) {
    SameMessage(t, a, b) && SetAlike(has, t.slots, a, b) && GroupsAlike(has, t.groups, a, b)
  }

  // What the message must have set.

  /** Every tracked field is set, but for oneof members that a later one clears, which
      are not. */
  predicate AllSet(has: Tracked, slots: seq<Slot>, m: Fields)
    decreases slots, 1
  {
    slots != [] ==> SlotSet(has, slots[0], m, ClearedBy(slots[0].fd, slots[1..])) && AllSet(has, slots[1..], m)
  }

  predicate SlotSet(has: Tracked, slot: Slot, m: Fields, cleared: bool)
    decreases slot, 0
  {
    var fd := slot.fd;
    && (has(fd) ==> (fd.name in m <==> !cleared))
    && (fd.kind.Message? ==>
          if cleared then SetAlike(has, slot.composite, map[], FieldsOf(Get(m, fd)))
          else AllSet(has, slot.composite, FieldsOf(Get(m, fd))))
  }

  predicate EntriesSet(has: Tracked, g: Group, items: seq<Value>) {
    items != [] ==> AllSet(has, g.slots, FieldsOf(items[0])) && EntriesSet(has, g, items[1..])
  }

  predicate GroupsSet(has: Tracked, gs: seq<Group>, m: Fields) {
    gs != [] ==> EntriesSet(has, gs[0], ItemsOf(Get(m, gs[0].fd))) && GroupsSet(has, gs[1..], m)
  }

  // Blocks.

  lemma {:induction false} BackMember(c: Floats, slots: seq<Slot>, from: nat, to: nat, m: Fields, acc: Fields, fd: Field)
    requires Tiled(slots, from, to) && Fresh(fd, slots)
    ensures fd.name in BackBlock(c, slots, from, to, m, acc) <==> fd.name in acc && !ClearedBy(fd, slots)
    decreases |slots|
  {
    hide BackSlot, SlotTiled;
    if slots != [] {
      BackMember(c, slots[1..], from + slots[0].size, to, m, Set(acc, slots[0].fd, BackSlot(c, slots[0], Get(m, slots[0].fd))), fd);
    }
  }

  lemma {:induction false} BlockAlike(c: Floats, has: Tracked, slots: seq<Slot>, from: nat, to: nat, m: Fields, acc: Fields)
    requires Tiled(slots, from, to) && Named(slots)
    ensures SetAlike(has, slots, BackBlock(c, slots, from, to, m, acc), m) <==> AllSet(has, slots, m)
    decreases slots, 1
  {
    hide SlotTiled, Get, BackSlot, SlotAlike, SlotSet, Set, ClearedBy;
    if slots != [] {
      var slot := slots[0];
      var v := Get(m, slot.fd);
      var mid := from + slot.size;
      var back := BackSlot(c, slot, v);
      var acc' := Set(acc, slot.fd, back);
      SetGet(acc, slot.fd, back);
      BackMember(c, slots[1..], mid, to, m, acc', slot.fd);
      BackKept(c, slots[1..], mid, to, m, acc', slot.fd);
      OneAlike(c, has, slot, BackBlock(c, slots[1..], mid, to, m, acc'), m, ClearedBy(slot.fd, slots[1..]));
      BlockAlike(c, has, slots[1..], mid, to, m, acc');
    }
  }

  lemma {:induction false} OneAlike(c: Floats, has: Tracked, slot: Slot, r: Fields, m: Fields, cleared: bool)
    requires SlotTiled(slot) && (slot.fd.kind.Message? ==> Named(slot.composite)) && slot.fd.shape.Single?
    requires slot.fd.name in r <==> !cleared
    requires Get(r, slot.fd) == if cleared then Unset(slot.fd) else BackSlot(c, slot, Get(m, slot.fd))
    ensures SlotAlike(has, slot, r, m) <==> SlotSet(has, slot, m, cleared)
    decreases slot, 0
  {
    if slot.fd.kind.Message? && !cleared {
      BlockAlike(c, has, slot.composite, 0, slot.size, FieldsOf(Get(m, slot.fd)), map[]);
    }
    hide Tiled, Named, SetAlike, AllSet, BackBlock;
  }

  // Groups.

  lemma {:induction false} EntriesBack(c: Floats, has: Tracked, g: Group, items: seq<Value>)
    requires GroupTiled(g) && Named(g.slots)
    ensures EntriesAlike(has, g, BackEntries(c, g, items), items) <==> EntriesSet(has, g, items)
    decreases |items|
  {
    hide Tiled, Named, SetAlike, AllSet, BackBlock;
    if items != [] {
      BlockAlike(c, has, g.slots, 0, g.blockLength, FieldsOf(items[0]), map[]);
      EntriesBack(c, has, g, items[1..]);
      assert BackEntries(c, g, items)[1..] == BackEntries(c, g, items[1..]);
    }
  }

  lemma {:induction false} GroupsBack(c: Floats, has: Tracked, gs: seq<Group>, m: Fields, acc: Fields)
    requires GroupsTiled(gs) && GroupsNamed(gs) && forall i :: 0 <= i < |gs| ==> Named(gs[i].slots)
    ensures GroupsAlike(has, gs, BackGroups(c, gs, m, acc), m) <==> GroupsSet(has, gs, m)
    decreases |gs|
  {
    hide GroupTiled, Named, BackEntries, EntriesAlike, EntriesSet;
    if gs != [] {
      var g := gs[0];
      assert GroupTiled(g) && NotNamed(gs[1..], g.fd.name);
      var back := VList(BackEntries(c, g, ItemsOf(Get(m, g.fd))));
      BackGroupsElsewhere(c, gs[1..], m, Set(acc, g.fd, back), g.fd.name);
      EntriesBack(c, has, g, ItemsOf(Get(m, g.fd)));
      GroupsBack(c, has, gs[1..], m, Set(acc, g.fd, back));
    }
  }

  lemma {:induction false} AlikeElsewhere(c: Floats, has: Tracked, slots: seq<Slot>, gs: seq<Group>, m: Fields, acc: Fields)
    requires GroupsTiled(gs) && forall i :: 0 <= i < |slots| ==> NotNamed(gs, slots[i].fd.name)
    ensures SetAlike(has, slots, BackGroups(c, gs, m, acc), m) <==> SetAlike(has, slots, acc, m)
    decreases |slots|
  {
    hide BackGroups, NotNamed, SetAlike;
    if slots != [] {
      BackGroupsElsewhere(c, gs, m, acc, slots[0].fd.name);
      AlikeElsewhere(c, has, slots[1..], gs, m, acc);
      AlikeFirst(has, slots, acc, m);
      AlikeFirst(has, slots, BackGroups(c, gs, m, acc), m);
    } else {
      NothingAlike(has, acc, m);
      NothingAlike(has, BackGroups(c, gs, m, acc), m);
    }
  }

  lemma {:induction false} AlikeFirst(has: Tracked, slots: seq<Slot>, a: Fields, b: Fields)
    requires slots != []
    ensures SetAlike(has, slots, a, b) <==> SlotAlike(has, slots[0], a, b) && SetAlike(has, slots[1..], a, b)
  {}

  lemma {:induction false} NothingAlike(has: Tracked, a: Fields, b: Fields)
    ensures SetAlike(has, [], a, b)
  {}

  /** Unmarshal returns what marshal was given, set fields and unset ones alike, exactly
      when the values come back and the message has every tracked field set that the
      decoder leaves set, and no other. */
  lemma {:induction false} EqualReturns(c: Floats, has: Tracked, desc: Desc, templateId: Option<nat>, schemaId: nat, version: nat,
                                        m: Fields, limits: Limits, acc: Fields)
    requires DescNamed(desc.fields) && BuildTemplate(desc, templateId, schemaId, version).Ok?
    requires var t := BuildTemplate(desc, templateId, schemaId, version).value;
             TypedBlock(t.slots, m) && TypedGroups(t.groups, m)
    ensures var t := BuildTemplate(desc, templateId, schemaId, version).value;
            TemplateTiled(t)
            && (var r := Unmarshal(c, t, Marshalled(c, t, m), limits, acc);
                (r.Done? && Equal(has, t, r.value, m))
                <==> (Representable(c, t, m, limits) && ReadableMessage(t, m)
                      && FitsBlock(c, t.slots, 0, t.blockLength, m) && FitsGroups(c, t.groups, m)
                      && AllSet(has, t.slots, m) && GroupsSet(has, t.groups, m)))
  {
    hide BuildTemplate, Unmarshal, Marshalled, Representable, ReadableMessage, TypedBlock, TypedGroups, FitsBlock, FitsGroups;
    hide SameMessage, DescNamed, SetAlike, GroupsAlike, AllSet, GroupsSet, TemplateNamed, BackMessage, TemplateTiled;
    RoundTrip(c, desc, templateId, schemaId, version, m, limits, acc);
    BuildTemplateNamed(desc, templateId, schemaId, version);
    var t := BuildTemplate(desc, templateId, schemaId, version).value;
    ComesBack(c, t, m, limits, acc);
    MessageAlike(c, has, t, m, acc);
  }

  lemma {:induction false} ComesBack(c: Floats, t: Template, m: Fields, limits: Limits, acc: Fields)
    requires TemplateTiled(t) && TemplateNamed(t) && TypedBlock(t.slots, m) && TypedGroups(t.groups, m)
    ensures Representable(c, t, m, limits) && ReadableMessage(t, m) ==>
              Unmarshal(c, t, Marshalled(c, t, m), limits, acc) == Done(BackMessage(c, t, m, acc))
  {
    hide *;
    NamedGroups(t);
    MessageReadsBack(c, t, m, limits, acc);
  }

  lemma {:induction false} NamedGroups(t: Template)
    requires TemplateNamed(t)
    ensures GroupsNamed(t.groups)
  {}

  lemma {:induction false} MessageAlike(c: Floats, has: Tracked, t: Template, m: Fields, acc: Fields)
    requires TemplateTiled(t) && TemplateNamed(t)
    ensures var r := BackMessage(c, t, m, acc);
            SetAlike(has, t.slots, r, m) && GroupsAlike(has, t.groups, r, m) <==> AllSet(has, t.slots, m) && GroupsSet(has, t.groups, m)
  {
    hide Tiled, Named, NotNamed, BackBlock, BackGroups, SetAlike, GroupsAlike, AllSet, GroupsSet, GroupTiled;
    var block := BackBlock(c, t.slots, 0, t.blockLength, m, acc);
    BlockAlike(c, has, t.slots, 0, t.blockLength, m, acc);
    AlikeElsewhere(c, has, t.slots, t.groups, m, block);
    GroupsBack(c, has, t.groups, m, block);
  }
}
