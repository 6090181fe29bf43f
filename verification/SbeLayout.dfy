/** SBE layouts: which bytes of a block each field of a message takes. */
module SbeLayout {
  import opened Options

  // Descriptors. The fields of a message are listed by number.

  datatype Kind =
    | Bool | Enum | Int32 | Int64 | Uint32 | Uint64 | Float | Double | String | Bytes
    | Message(inner: Desc)

  datatype Shape = Single | List | Map

  /** A field: the other members of its oneof, and its two annotations. */
  datatype Field = Field(
    name: string, kind: Kind, shape: Shape, oneof: bool, siblings: set<string>, encoding: Option<string>, length: Option<nat>)

  datatype Desc = Desc(fields: seq<Field>)

  // Templates.

  datatype Encoding = Signed(width: nat) | Unsigned(width: nat) | FloatBits | DoubleBits | Char

  /** A field's place in its block. A composite has no encoding. */
  datatype Slot = Slot(fd: Field, offset: nat, size: nat, encoding: Option<Encoding>, composite: seq<Slot>)
  datatype Group = Group(fd: Field, blockLength: nat, slots: seq<Slot>)
  datatype Template = Template(templateId: nat, schemaId: nat, version: nat, blockLength: nat, slots: seq<Slot>, groups: seq<Group>)

  datatype Refusal =
    | MissingTemplateId | MapField | OneofField | RepeatedScalar | NestedRepeat | UnknownEncoding | MissingLength
  datatype Result<T> = Ok(value: T) | Err(refusal: Refusal)

  /** An encoding and its size in bytes. */
  datatype Sized = Sized(encoding: Encoding, size: nat)

  function FromName(s: string): Option<Sized> {
    match s
    case "int8" => Some(Sized(Signed(1), 1))
    case "uint8" => Some(Sized(Unsigned(1), 1))
    case "int16" => Some(Sized(Signed(2), 2))
    case "uint16" => Some(Sized(Unsigned(2), 2))
    case "int32" => Some(Sized(Signed(4), 4))
    case "uint32" => Some(Sized(Unsigned(4), 4))
    case "float" => Some(Sized(FloatBits, 4))
    case "int64" => Some(Sized(Signed(8), 8))
    case "uint64" => Some(Sized(Unsigned(8), 8))
    case "double" => Some(Sized(DoubleBits, 8))
    case _ => None
  }

  /** field_encoding_size: an annotation, or what the kind implies. */
  function EncodingOf(fd: Field): Result<Sized>
    requires !fd.kind.Message?
  {
    if fd.encoding.Some? then
      match FromName(fd.encoding.value)
      case Some(e) => Ok(e)
      case None => Err(UnknownEncoding)
    else
      match fd.kind
      case Enum => Ok(Sized(Unsigned(1), 1))
      case Bool => Ok(Sized(Unsigned(1), 1))
      case Int32 => Ok(Sized(Signed(4), 4))
      case Int64 => Ok(Sized(Signed(8), 8))
      case Uint32 => Ok(Sized(Unsigned(4), 4))
      case Uint64 => Ok(Sized(Unsigned(8), 8))
      case Float => Ok(Sized(FloatBits, 4))
      case Double => Ok(Sized(DoubleBits, 8))
      case _ => if fd.length.Some? then Ok(Sized(Char, fd.length.value)) else Err(MissingLength)
  }

  // Building.

  datatype Level = Root | InGroup | InComposite

  /** What a level refuses. A group does not refuse oneofs. */
  function Refused(level: Level, fd: Field): Option<Refusal> {
    match level
    case Root =>
      if fd.shape.Map? then Some(MapField)
      else if fd.oneof then Some(OneofField)
      else if fd.shape.List? && !fd.kind.Message? then Some(RepeatedScalar)
      else None
    case InGroup =>
      if fd.shape.Map? then Some(MapField) else if fd.shape.List? then Some(NestedRepeat) else None
    case InComposite =>
      if !fd.shape.Single? then Some(NestedRepeat) else if fd.oneof then Some(OneofField) else None
  }

  /** A block laid out so far. */
  datatype Block = Block(slots: seq<Slot>, groups: seq<Group>, length: nat)

  /** Lay out the fields after a block. */
  function BuildFields(level: Level, fields: seq<Field>, before: Block): Result<Block>
    decreases fields, 1
  {
    if fields == [] then Ok(before)
    else
      match BuildField(level, fields[0], before)
      case Err(e) => Err(e)
      case Ok(b) => BuildFields(level, fields[1..], b)
  }

  function BuildField(level: Level, fd: Field, before: Block): Result<Block>
    decreases fd, 0
  {
    if Refused(level, fd).Some? then Err(Refused(level, fd).value)
    else if fd.kind.Message? && fd.shape.List? then
      match BuildFields(InGroup, fd.kind.inner.fields, Block([], [], 0))
      case Err(e) => Err(e)
      case Ok(b) => Ok(before.(groups := before.groups + [Group(fd, b.length, b.slots)]))
    else if fd.kind.Message? then
      match BuildFields(InComposite, fd.kind.inner.fields, Block([], [], 0))
      case Err(e) => Err(e)
      case Ok(b) => Ok(Place(before, fd, b.length, None, b.slots))
    else
      match EncodingOf(fd)
      case Err(e) => Err(e)
      case Ok(e) => Ok(Place(before, fd, e.size, Some(e.encoding), []))
  }

  /** The next slot starts where the block ends. */
  function Place(before: Block, fd: Field, size: nat, encoding: Option<Encoding>, composite: seq<Slot>): Block {
    Block(before.slots + [Slot(fd, before.length, size, encoding, composite)], before.groups, before.length + size)
  }

  function BuildTemplate(desc: Desc, templateId: Option<nat>, schemaId: nat, version: nat): Result<Template> {
    if templateId.None? then Err(MissingTemplateId)
    else
      match BuildFields(Root, desc.fields, Block([], [], 0))
      case Err(e) => Err(e)
      case Ok(b) => Ok(Template(templateId.value, schemaId, version, b.length, b.slots, b.groups))
  }

  // What is built.

  /** Each slot starts where the one before it ends, inside composites too, and a
      scalar has an encoding of its size. */
  predicate Tiled(slots: seq<Slot>, from: nat, to: nat)
    decreases slots
  {
    if slots == [] then from == to
    else slots[0].offset == from && SlotTiled(slots[0]) && Tiled(slots[1..], from + slots[0].size, to)
  }

  predicate SlotTiled(slot: Slot)
    decreases slot
  {
    if slot.fd.kind.Message? then slot.encoding.None? && Tiled(slot.composite, 0, slot.size)
    else
      && slot.composite == [] && slot.encoding.Some?
      && EncodingOf(slot.fd) == Ok(Sized(slot.encoding.value, slot.size))
  }

  predicate GroupTiled(g: Group) {
    g.fd.kind.Message? && g.fd.shape.List? && Tiled(g.slots, 0, g.blockLength)
  }

  ghost predicate TemplateTiled(t: Template) {
    Tiled(t.slots, 0, t.blockLength) && forall i :: 0 <= i < |t.groups| ==> GroupTiled(t.groups[i])
  }

  lemma {:induction false} TiledAppend(slots: seq<Slot>, from: nat, to: nat, slot: Slot)
    requires Tiled(slots, from, to) && SlotTiled(slot) && slot.offset == to
    ensures Tiled(slots + [slot], from, to + slot.size)
    decreases |slots|
  {
    hide SlotTiled;
    if slots == [] {
      assert [] + [slot] == [slot] && [slot][1..] == [];
    } else {
      TiledAppend(slots[1..], from + slots[0].size, to, slot);
      assert (slots + [slot])[1..] == slots[1..] + [slot];
    }
  }

  ghost predicate BlockTiled(level: Level, b: Block) {
    Tiled(b.slots, 0, b.length) && (level != Root ==> b.groups == []) && forall i :: 0 <= i < |b.groups| ==> GroupTiled(b.groups[i])
  }

  lemma {:induction false} BuildFieldsTiled(level: Level, fields: seq<Field>, before: Block)
    requires BlockTiled(level, before)
    ensures BuildFields(level, fields, before).Ok? ==> BlockTiled(level, BuildFields(level, fields, before).value)
    decreases fields, 1
  {
    hide BlockTiled;
    if fields != [] && BuildField(level, fields[0], before).Ok? {
      BuildFieldTiled(level, fields[0], before);
      BuildFieldsTiled(level, fields[1..], BuildField(level, fields[0], before).value);
    }
  }

  lemma {:induction false} BuildFieldTiled(level: Level, fd: Field, before: Block)
    requires BlockTiled(level, before)
    ensures BuildField(level, fd, before).Ok? ==> BlockTiled(level, BuildField(level, fd, before).value)
    decreases fd, 0
  {
    hide Tiled;
    var r := BuildField(level, fd, before);
    if r.Ok? && fd.kind.Message? {
      assert Tiled([], 0, 0) by { EmptyTiled(); }
      var inner := if fd.shape.List? then InGroup else InComposite;
      BuildFieldsTiled(inner, fd.kind.inner.fields, Block([], [], 0));
      if !fd.shape.List? {
        TiledAppend(before.slots, 0, before.length, r.value.slots[|before.slots|]);
      }
    } else if r.Ok? {
      TiledAppend(before.slots, 0, before.length, r.value.slots[|before.slots|]);
    }
  }

  lemma EmptyTiled()
    ensures Tiled([], 0, 0)
  {}

  lemma BuildTemplateTiled(desc: Desc, templateId: Option<nat>, schemaId: nat, version: nat)
    ensures BuildTemplate(desc, templateId, schemaId, version).Ok? ==>
              TemplateTiled(BuildTemplate(desc, templateId, schemaId, version).value)
  {
    BuildFieldsTiled(Root, desc.fields, Block([], [], 0));
  }

  // The leaves.

  datatype Range = Range(start: nat, size: nat)

  /** The bytes each scalar takes, composites opened. */
  function Leaves(slots: seq<Slot>, base: nat): seq<Range>
    decreases slots
  {
    if slots == [] then []
    else SlotLeaves(slots[0], base) + Leaves(slots[1..], base)
  }

  function SlotLeaves(slot: Slot, base: nat): seq<Range>
    decreases slot
  {
    if slot.fd.kind.Message? then Leaves(slot.composite, base + slot.offset) else [Range(base + slot.offset, slot.size)]
  }

  /** The ranges follow each other without a gap. */
  predicate Contiguous(rs: seq<Range>, from: nat, to: nat) {
    if rs == [] then from == to else rs[0].start == from && Contiguous(rs[1..], from + rs[0].size, to)
  }

  lemma {:induction false} ContiguousJoin(a: seq<Range>, b: seq<Range>, from: nat, mid: nat, to: nat)
    requires Contiguous(a, from, mid) && Contiguous(b, mid, to)
    ensures Contiguous(a + b, from, to)
    decreases |a|
  {
    if a == [] {
      assert a + b == b;
    } else {
      ContiguousJoin(a[1..], b, from + a[0].size, mid, to);
      assert (a + b)[1..] == a[1..] + b;
    }
  }

  lemma {:induction false} LeavesContiguous(slots: seq<Slot>, base: nat, from: nat, to: nat)
    requires Tiled(slots, from, to)
    ensures Contiguous(Leaves(slots, base), base + from, base + to)
    decreases slots, 1
  {
    if slots != [] {
      var s := slots[0];
      SlotContiguous(s, base);
      LeavesContiguous(slots[1..], base, from + s.size, to);
      ContiguousJoin(SlotLeaves(s, base), Leaves(slots[1..], base), base + from, base + from + s.size, base + to);
    }
  }

  lemma {:induction false} SlotContiguous(slot: Slot, base: nat)
    requires SlotTiled(slot)
    ensures Contiguous(SlotLeaves(slot, base), base + slot.offset, base + slot.offset + slot.size)
    decreases slot, 0
  {
    if slot.fd.kind.Message? {
      LeavesContiguous(slot.composite, base + slot.offset, 0, slot.size);
    } else {
      var r := Range(base + slot.offset, slot.size);
      assert [r][1..] == [];
      assert Contiguous([r][1..], base + slot.offset + slot.size, base + slot.offset + slot.size);
    }
  }

  predicate Covers(r: Range, p: nat) {
    r.start <= p < r.start + r.size
  }

  ghost predicate CoveredOnce(rs: seq<Range>, p: nat) {
    exists i :: 0 <= i < |rs| && Covers(rs[i], p) && forall j :: 0 <= j < |rs| && Covers(rs[j], p) ==> j == i
  }

  lemma {:induction false} ContiguousCovers(rs: seq<Range>, from: nat, to: nat, p: nat)
    requires Contiguous(rs, from, to)
    ensures from <= to
    ensures from <= p < to ==> CoveredOnce(rs, p)
    ensures !(from <= p < to) ==> forall i :: 0 <= i < |rs| ==> !Covers(rs[i], p)
    decreases |rs|
  {
    if rs != [] {
      var rest := rs[1..];
      ContiguousCovers(rest, from + rs[0].size, to, p);
      assert forall i :: 0 < i < |rs| ==> rs[i] == rest[i - 1];
      if from <= p < to {
        if Covers(rs[0], p) {
          assert forall j :: 0 <= j < |rs| && Covers(rs[j], p) ==> j == 0;
        } else {
          var i :| 0 <= i < |rest| && Covers(rest[i], p) && forall j :: 0 <= j < |rest| && Covers(rest[j], p) ==> j == i;
          assert Covers(rs[i + 1], p);
          assert forall j :: 0 <= j < |rs| && Covers(rs[j], p) ==> j == i + 1;
        }
      }
    }
  }

  /** Every byte of a block belongs to exactly one scalar of the message, however
      deep in composites, and no scalar reaches past the block. */
  lemma EveryByteOnce(desc: Desc, templateId: Option<nat>, schemaId: nat, version: nat, p: nat)
    requires BuildTemplate(desc, templateId, schemaId, version).Ok?
    ensures var t := BuildTemplate(desc, templateId, schemaId, version).value;
            && (p < t.blockLength ==> CoveredOnce(Leaves(t.slots, 0), p))
            && (p >= t.blockLength ==> forall i :: 0 <= i < |Leaves(t.slots, 0)| ==> !Covers(Leaves(t.slots, 0)[i], p))
            && forall g :: 0 <= g < |t.groups| && p < t.groups[g].blockLength ==> CoveredOnce(Leaves(t.groups[g].slots, 0), p)
  {
    hide Tiled, Leaves, BuildFields, CoveredOnce;
    BuildTemplateTiled(desc, templateId, schemaId, version);
    var t := BuildTemplate(desc, templateId, schemaId, version).value;
    LeavesContiguous(t.slots, 0, 0, t.blockLength);
    ContiguousCovers(Leaves(t.slots, 0), 0, t.blockLength, p);
    forall g | 0 <= g < |t.groups| && p < t.groups[g].blockLength
      ensures CoveredOnce(Leaves(t.groups[g].slots, 0), p)
    {
      assert GroupTiled(t.groups[g]);
      LeavesContiguous(t.groups[g].slots, 0, 0, t.groups[g].blockLength);
      ContiguousCovers(Leaves(t.groups[g].slots, 0), 0, t.groups[g].blockLength, p);
    }
  }
}
