/** Which messages have an SBE layout, and what the layout lists: every field in
    order of its number, in its block or as a group. */
module SbeBuild {
  import opened Options
  import opened SbeLayout

  // What a layout takes.

  const NAMES: seq<string> :=
    ["int8", "uint8", "int16", "uint16", "int32", "uint32", "int64", "uint64", "float", "double"]

  predicate IsGroup(fd: Field) {
    fd.kind.Message? && fd.shape.List?
  }

  /** The encoding annotation is known, or there is none and text has a length. */
  predicate Encodable(fd: Field) {
    match fd.encoding
    case Some(name) => name in NAMES
    case None => fd.kind.String? || fd.kind.Bytes? ==> fd.length.Some?
  }

  /** At the top no maps, no oneofs, and only messages repeat; in a group nothing
      repeats; in a composite nothing repeats and there are no oneofs. */
  predicate Admitted(level: Level, fd: Field) {
    match level
    case Root => !fd.shape.Map? && !fd.oneof && (fd.shape.List? ==> fd.kind.Message?)
    case InGroup => fd.shape.Single?
    case InComposite => fd.shape.Single? && !fd.oneof
  }

  predicate Takes(level: Level, fd: Field)
    decreases fd, 0
  {
    && Admitted(level, fd)
    && match fd.kind
       case Message(inner) => TakesAll(if fd.shape.List? then InGroup else InComposite, inner.fields)
       case _ => Encodable(fd)
  }

  predicate TakesAll(level: Level, fields: seq<Field>)
    decreases fields, 1
  {
    forall i :: 0 <= i < |fields| ==> Takes(level, fields[i])
  }

  // What it lists.

  function InBlock(fields: seq<Field>): seq<Field> {
    if fields == [] then [] else (if IsGroup(fields[0]) then [] else [fields[0]]) + InBlock(fields[1..])
  }

  function Groups(fields: seq<Field>): seq<Field> {
    if fields == [] then [] else (if IsGroup(fields[0]) then [fields[0]] else []) + Groups(fields[1..])
  }

  /** The slots are of these fields, a composite's of its message's. */
  predicate Slotted(fields: seq<Field>, slots: seq<Slot>)
    decreases slots
  {
    |slots| == |fields| && forall i :: 0 <= i < |slots| ==> slots[i].fd == fields[i] && SlotOf(slots[i])
  }

  predicate SlotOf(slot: Slot)
    decreases slot
  {
    match slot.fd.kind
    case Message(inner) => Slotted(inner.fields, slot.composite)
    case _ => slot.composite == []
  }

  predicate Grouped(fields: seq<Field>, groups: seq<Group>) {
    |groups| == |fields| && forall i :: 0 <= i < |groups| ==> groups[i].fd == fields[i] && GroupListed(groups[i])
  }

  predicate GroupListed(g: Group) {
    g.fd.kind.Message? && Slotted(g.fd.kind.inner.fields, g.slots)
  }

  // Building.

  lemma {:induction false} Encoded(fd: Field)
    requires !fd.kind.Message?
    ensures EncodingOf(fd).Ok? <==> Encodable(fd)
  {
    if fd.encoding.Some? {
      Known(fd.encoding.value);
    }
    hide FromName;
  }

  lemma {:induction false} Known(name: string)
    ensures FromName(name).Some? <==> name in NAMES
  {
    assert name in NAMES <==>
      name == NAMES[0] || name == NAMES[1] || name == NAMES[2] || name == NAMES[3] || name == NAMES[4]
      || name == NAMES[5] || name == NAMES[6] || name == NAMES[7] || name == NAMES[8] || name == NAMES[9];
  }

  lemma {:induction false} AdmittedIs(level: Level, fd: Field)
    ensures Refused(level, fd).None? <==> Admitted(level, fd)
  {}

  lemma {:induction false} NoGroups(level: Level, fields: seq<Field>)
    requires level != Root && TakesAll(level, fields)
    ensures InBlock(fields) == fields && Groups(fields) == []
    decreases |fields|
  {
    if fields != [] {
      assert Takes(level, fields[0]);
      assert forall i :: 0 <= i < |fields[1..]| ==> fields[1..][i] == fields[i + 1];
      NoGroups(level, fields[1..]);
    }
  }

  /** Fields are laid out after a block exactly when all are taken, each in order. */
  lemma {:induction false} FieldsBuilt(level: Level, fields: seq<Field>, before: Block)
    ensures BuildFields(level, fields, before).Ok? <==> TakesAll(level, fields)
    ensures BuildFields(level, fields, before).Ok? ==>
              var b := BuildFields(level, fields, before).value;
              && |b.slots| >= |before.slots| && b.slots[..|before.slots|] == before.slots
              && |b.groups| >= |before.groups| && b.groups[..|before.groups|] == before.groups
              && Slotted(InBlock(fields), b.slots[|before.slots|..]) && Grouped(Groups(fields), b.groups[|before.groups|..])
    decreases fields, 1
  {
    if fields == [] {
      assert before.slots[|before.slots|..] == [] && before.groups[|before.groups|..] == [];
    } else {
      FieldBuilt(level, fields[0], before);
      TakesFirst(level, fields);
      var r := BuildField(level, fields[0], before);
      if r.Ok? {
        FieldsBuilt(level, fields[1..], r.value);
        if TakesAll(level, fields) {
          var b := BuildFields(level, fields, before).value;
          hide BuildFields, BuildField, TakesAll, Takes, SlotOf, GroupListed;
          BlockJoined(fields, before, r.value, b);
        }
      }
      hide BuildField, TakesAll, Takes, Slotted, Grouped;
    }
  }

  lemma {:induction false} TakesFirst(level: Level, fields: seq<Field>)
    requires fields != []
    ensures TakesAll(level, fields) <==> Takes(level, fields[0]) && TakesAll(level, fields[1..])
  {
    hide Takes;
    assert forall i :: 0 < i < |fields| ==> fields[i] == fields[1..][i - 1];
  }

  lemma {:induction false} SlottedJoin(f: seq<Field>, g: seq<Field>, a: seq<Slot>, b: seq<Slot>)
    requires Slotted(f, a) && Slotted(g, b)
    ensures Slotted(f + g, a + b)
  {
    hide SlotOf;
  }

  lemma {:induction false} GroupedJoin(f: seq<Field>, g: seq<Field>, a: seq<Group>, b: seq<Group>)
    requires Grouped(f, a) && Grouped(g, b)
    ensures Grouped(f + g, a + b)
  {
    hide GroupListed;
  }

  lemma {:induction false} FirstListed(fields: seq<Field>)
    requires fields != []
    ensures InBlock(fields) == InBlock([fields[0]]) + InBlock(fields[1..])
    ensures Groups(fields) == Groups([fields[0]]) + Groups(fields[1..])
  {
    assert [fields[0]][1..] == [] && InBlock([]) == [] && Groups([]) == [];
    hide IsGroup;
  }

  lemma {:induction false} Extended<T>(a: seq<T>, b: seq<T>, c: seq<T>)
    requires |a| <= |b| <= |c| && b == a + b[|a|..] && c[..|b|] == b
    ensures c[..|a|] == a && c[|a|..] == b[|a|..] + c[|b|..]
  {
    assert c == b + c[|b|..];
  }

  /** One field's slot or group and those of the rest. */
  lemma {:induction false} BlockJoined(fields: seq<Field>, before: Block, one: Block, all: Block)
    requires fields != []
    requires |before.slots| <= |one.slots| <= |all.slots| && |before.groups| <= |one.groups| <= |all.groups|
    requires one.slots == before.slots + one.slots[|before.slots|..] && one.groups == before.groups + one.groups[|before.groups|..]
    requires all.slots[..|one.slots|] == one.slots && all.groups[..|one.groups|] == one.groups
    requires Slotted(InBlock([fields[0]]), one.slots[|before.slots|..]) && Grouped(Groups([fields[0]]), one.groups[|before.groups|..])
    requires Slotted(InBlock(fields[1..]), all.slots[|one.slots|..]) && Grouped(Groups(fields[1..]), all.groups[|one.groups|..])
    ensures all.slots[..|before.slots|] == before.slots && all.groups[..|before.groups|] == before.groups
    ensures Slotted(InBlock(fields), all.slots[|before.slots|..]) && Grouped(Groups(fields), all.groups[|before.groups|..])
  {
    hide Slotted, Grouped, InBlock, Groups;
    FirstListed(fields);
    Extended(before.slots, one.slots, all.slots);
    Extended(before.groups, one.groups, all.groups);
    SlottedJoin(InBlock([fields[0]]), InBlock(fields[1..]), one.slots[|before.slots|..], all.slots[|one.slots|..]);
    GroupedJoin(Groups([fields[0]]), Groups(fields[1..]), one.groups[|before.groups|..], all.groups[|one.groups|..]);
  }

  lemma {:induction false} FieldBuilt(level: Level, fd: Field, before: Block)
    ensures BuildField(level, fd, before).Ok? <==> Takes(level, fd)
    ensures BuildField(level, fd, before).Ok? ==>
              var b := BuildField(level, fd, before).value;
              && |b.slots| >= |before.slots| && b.slots == before.slots + b.slots[|before.slots|..]
              && |b.groups| >= |before.groups| && b.groups == before.groups + b.groups[|before.groups|..]
              && Slotted(InBlock([fd]), b.slots[|before.slots|..]) && Grouped(Groups([fd]), b.groups[|before.groups|..])
    decreases fd, 0
  {
    AdmittedIs(level, fd);
    assert [fd][1..] == [] && InBlock([]) == [] && Groups([]) == [];
    hide Refused, Admitted;
    if fd.kind.Message? {
      var inner := if fd.shape.List? then InGroup else InComposite;
      var none := Block([], [], 0);
      FieldsBuilt(inner, fd.kind.inner.fields, none);
      if TakesAll(inner, fd.kind.inner.fields) && Takes(level, fd) {
        NoGroups(inner, fd.kind.inner.fields);
        var b := BuildFields(inner, fd.kind.inner.fields, none).value;
        assert b.slots[0..] == b.slots;
        var r := BuildField(level, fd, before).value;
        hide BuildFields, TakesAll, Slotted;
        AddedOne(before, r, fd, b);
      }
    } else {
      Encoded(fd);
      hide EncodingOf, Encodable;
    }
  }

  lemma {:induction false} AddedOne(before: Block, r: Block, fd: Field, b: Block)
    requires fd.kind.Message? && Slotted(fd.kind.inner.fields, b.slots)
    requires if IsGroup(fd) then r == before.(groups := before.groups + [Group(fd, b.length, b.slots)])
             else r == Place(before, fd, b.length, None, b.slots)
    ensures |r.slots| >= |before.slots| && r.slots == before.slots + r.slots[|before.slots|..]
    ensures |r.groups| >= |before.groups| && r.groups == before.groups + r.groups[|before.groups|..]
    ensures Slotted(if IsGroup(fd) then [] else [fd], r.slots[|before.slots|..])
    ensures Grouped(if IsGroup(fd) then [fd] else [], r.groups[|before.groups|..])
  {
    var slot, group := Slot(fd, before.length, b.length, None, b.slots), Group(fd, b.length, b.slots);
    assert SlotOf(slot) && GroupListed(group);
    hide SlotOf, GroupListed;
    if IsGroup(fd) {
      assert r.groups[|before.groups|..] == [group] && r.slots[|before.slots|..] == [];
    } else {
      assert r.slots[|before.slots|..] == [slot] && r.groups[|before.groups|..] == [];
    }
  }

  /** A message has a layout exactly when it has a template id and its fields are
      taken; the layout lists them in order, repeated messages as groups. */
  lemma {:induction false} BuildExactly(desc: Desc, templateId: Option<nat>, schemaId: nat, version: nat)
    ensures BuildTemplate(desc, templateId, schemaId, version).Ok? <==> templateId.Some? && TakesAll(Root, desc.fields)
    ensures BuildTemplate(desc, templateId, schemaId, version).Ok? ==>
              var t := BuildTemplate(desc, templateId, schemaId, version).value;
              && t.templateId == templateId.value && t.schemaId == schemaId && t.version == version
              && Slotted(InBlock(desc.fields), t.slots) && Grouped(Groups(desc.fields), t.groups)
  {
    FieldsBuilt(Root, desc.fields, Block([], [], 0));
    hide BuildFields, TakesAll, Slotted, Grouped;
    if BuildTemplate(desc, templateId, schemaId, version).Ok? {
      var t := BuildTemplate(desc, templateId, schemaId, version).value;
      assert t.slots[0..] == t.slots && t.groups[0..] == t.groups;
    }
  }
}
