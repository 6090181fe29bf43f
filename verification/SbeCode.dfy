/** SBE as it runs: the layout loops, the writer that fills a zeroed buffer at
    offsets, the reader, the view's walks, and the codec's registry. */
module SbeCode {
  import opened Options
  import opened Bytes
  import opened SbeLayout
  import opened SbeValues
  import opened SbeCodec

  // template.rs

  /** The loop of build_composite_fields. */
  method BuildCompositeFields(desc: Desc) returns (r: SbeLayout.Result<Block>)
    ensures r == BuildFields(InComposite, desc.fields, Block([], [], 0))
    decreases desc
  {
    var out: seq<Slot> := [];
    var offset: nat := 0;
    var i := 0;
    while i < |desc.fields|
      invariant i <= |desc.fields|
      invariant BuildFields(InComposite, desc.fields, Block([], [], 0))
             == BuildFields(InComposite, desc.fields[i..], Block(out, [], offset))
    {
      var fd := desc.fields[i];
      assert desc.fields[i..][0] == fd && desc.fields[i..][1..] == desc.fields[i + 1..];
      if fd.shape.List? || fd.shape.Map? {
        return Err(NestedRepeat);
      }
      if fd.oneof {
        return Err(OneofField);
      }
      if fd.kind.Message? {
        var sub := BuildCompositeFields(fd.kind.inner);
        if sub.Err? {
          return Err(sub.refusal);
        }
        out := out + [Slot(fd, offset, sub.value.length, None, sub.value.slots)];
        offset := offset + sub.value.length;
      } else {
        var e := EncodingOf(fd);
        if e.Err? {
          return Err(e.refusal);
        }
        out := out + [Slot(fd, offset, e.value.size, Some(e.value.encoding), [])];
        offset := offset + e.value.size;
      }
      i := i + 1;
    }
    r := SbeLayout.Ok(Block(out, [], offset));
  }

  /** build_group_template */
  method BuildGroupTemplate(fd: Field) returns (r: SbeLayout.Result<Group>)
    requires fd.kind.Message?
    ensures r == match BuildFields(InGroup, fd.kind.inner.fields, Block([], [], 0))
                 case Err(e) => Err(e)
                 case Ok(b) => SbeLayout.Ok(Group(fd, b.length, b.slots))
  {
    hide EncodingOf;
    var fields := fd.kind.inner.fields;
    var slots: seq<Slot> := [];
    var offset: nat := 0;
    var i := 0;
    while i < |fields|
      invariant i <= |fields|
      invariant BuildFields(InGroup, fields, Block([], [], 0)) == BuildFields(InGroup, fields[i..], Block(slots, [], offset))
    {
      var f := fields[i];
      assert fields[i..][0] == f && fields[i..][1..] == fields[i + 1..];
      if f.shape.Map? {
        return Err(MapField);
      }
      if f.shape.List? {
        return Err(NestedRepeat);
      }
      if f.kind.Message? {
        var sub := BuildCompositeFields(f.kind.inner);
        if sub.Err? {
          return Err(sub.refusal);
        }
        slots := slots + [Slot(f, offset, sub.value.length, None, sub.value.slots)];
        offset := offset + sub.value.length;
      } else {
        var e := EncodingOf(f);
        if e.Err? {
          return Err(e.refusal);
        }
        slots := slots + [Slot(f, offset, e.value.size, Some(e.value.encoding), [])];
        offset := offset + e.value.size;
      }
      i := i + 1;
    }
    r := SbeLayout.Ok(Group(fd, offset, slots));
  }

  /** build_template */
  method Build(desc: Desc, templateId: Option<nat>, schemaId: nat, version: nat) returns (r: SbeLayout.Result<Template>)
    ensures r == BuildTemplate(desc, templateId, schemaId, version)
  {
    hide EncodingOf;
    if templateId.None? {
      return Err(MissingTemplateId);
    }
    var slots: seq<Slot>, groups: seq<Group> := [], [];
    var offset: nat := 0;
    var i := 0;
    while i < |desc.fields|
      invariant i <= |desc.fields|
      invariant BuildFields(Root, desc.fields, Block([], [], 0)) == BuildFields(Root, desc.fields[i..], Block(slots, groups, offset))
    {
      var fd := desc.fields[i];
      assert desc.fields[i..][0] == fd && desc.fields[i..][1..] == desc.fields[i + 1..];
      if fd.shape.Map? {
        return Err(MapField);
      }
      if fd.oneof {
        return Err(OneofField);
      }
      if fd.shape.List? {
        if !fd.kind.Message? {
          return Err(RepeatedScalar);
        }
        var g := BuildGroupTemplate(fd);
        if g.Err? {
          return Err(g.refusal);
        }
        groups := groups + [g.value];
      } else if fd.kind.Message? {
        var sub := BuildCompositeFields(fd.kind.inner);
        if sub.Err? {
          return Err(sub.refusal);
        }
        slots := slots + [Slot(fd, offset, sub.value.length, None, sub.value.slots)];
        offset := offset + sub.value.length;
      } else {
        var e := EncodingOf(fd);
        if e.Err? {
          return Err(e.refusal);
        }
        slots := slots + [Slot(fd, offset, e.value.size, Some(e.value.encoding), [])];
        offset := offset + e.value.size;
      }
      i := i + 1;
    }
    r := SbeLayout.Ok(Template(templateId.value, schemaId, version, offset, slots, groups));
  }

  // marshal.rs

  /** cut_string */
  method CutText(s: seq<Byte>, limit: nat) returns (r: seq<Byte>)
    ensures r == CutString(s, limit)
  {
    if |s| <= limit {
      return s;
    }
    var n: nat := limit;
    while n > 0 && !Boundary(s, n)
      invariant n <= |s| && CutPoint(s, limit) == CutPoint(s, n)
    {
      n := n - 1;
    }
    r := s[..n];
  }

  /** Put bytes into the buffer at an offset. */
  method Copy(buf: array<Byte>, at: nat, bytes: seq<Byte>)
    requires at + |bytes| <= buf.Length
    modifies buf
    ensures buf[..] == old(buf[..at]) + bytes + old(buf[at + |bytes|..])
  {
    var i := 0;
    while i < |bytes|
      invariant i <= |bytes|
      invariant buf[..] == old(buf[..at]) + bytes[..i] + old(buf[at + i..])
    {
      buf[at + i] := bytes[i];
      i := i + 1;
    }
  }

  ghost predicate ZeroFrom(s: seq<Byte>, from: nat, to: nat) {
    to <= |s| && forall k :: from <= k < to ==> s[k] == 0
  }

  /** s with the bytes at the position in place of as many. */
  ghost predicate Patched(s: seq<Byte>, before: seq<Byte>, at: nat, bytes: seq<Byte>) {
    at + |bytes| <= |before| && s == before[..at] + bytes + before[at + |bytes|..]
  }

  /** The scalar arm of write_field; a text shorter than its field leaves the zeros
      that are there. */
  method WriteScalar(c: Floats, buf: array<Byte>, off: nat, slot: Slot, v: Value)
    requires SlotTiled(slot) && !slot.fd.kind.Message? && ZeroFrom(buf[..], off, off + slot.size)
    modifies buf
    ensures Patched(buf[..], old(buf[..]), off, Written(c, slot.fd.kind, SizedOf(slot), v))
  {
    var e := SizedOf(slot);
    hide SlotTiled, AsI64, AsU64, Wrap, CharBytes;
    if e.encoding.Char? {
      WriteChars(buf, off, slot.fd.kind, slot.size, v);
    } else {
      var bytes;
      match e.encoding {
        case Signed(w) => bytes := Le(Wrap(AsI64(c, v), w), w);
        case Unsigned(w) => bytes := Le(Wrap(AsU64(c, v), w), w);
        case FloatBits => bytes := Le(if v.VF32? then v.bits else if v.VF64? then c.narrow(v.bits) else 0, 4);
        case DoubleBits => bytes := Le(if v.VF64? then v.bits else if v.VF32? then c.widen(v.bits) else 0, 8);
      }
      hide Le;
      Copy(buf, off, bytes);
    }
  }

  method WriteChars(buf: array<Byte>, off: nat, kind: Kind, size: nat, v: Value)
    requires ZeroFrom(buf[..], off, off + size)
    modifies buf
    ensures Patched(buf[..], old(buf[..]), off, CharBytes(kind, size, v) + Zeros(size - |CharBytes(kind, size, v)|))
  {
    ghost var before := buf[..];
    var bytes: seq<Byte> := [];
    if kind.Bytes? && v.VBytes? {
      bytes := v.bytes[..if |v.bytes| <= size then |v.bytes| else size];
    } else if v.VString? {
      bytes := CutText(v.text, size);
    }
    assert bytes == CharBytes(kind, size, v);
    hide CharBytes, CutString;
    Copy(buf, off, bytes);
    ZerosStay(before, off, bytes, size);
  }

  lemma ZerosStay(before: seq<Byte>, off: nat, bytes: seq<Byte>, size: nat)
    requires |bytes| <= size && ZeroFrom(before, off, off + size)
    ensures before[..off] + bytes + before[off + |bytes|..]
         == before[..off] + (bytes + Zeros(size - |bytes|)) + before[off + size..]
  {
    assert before[off + |bytes|..] == Zeros(size - |bytes|) + before[off + size..];
  }

  /** write_field; false where the source panics, on a composite without fields. */
  method WriteField(c: Floats, buf: array<Byte>, base: nat, slot: Slot, v: Value) returns (ok: bool)
    requires SlotTiled(slot) && ZeroFrom(buf[..], base + slot.offset, base + slot.offset + slot.size)
    modifies buf
    ensures ok <==> (slot.fd.kind.Message? ==> slot.composite != [] && NoEmptyComposite(slot.composite))
    ensures ok ==> Patched(buf[..], old(buf[..]), base + slot.offset, SlotBytes(c, slot, v))
    decreases slot, 0
  {
    hide Written, SizedOf;
    if slot.composite != [] {
      ok := WriteBlock(c, buf, base + slot.offset, slot.composite, 0, slot.size, FieldsOf(v));
    } else if slot.encoding.None? {
      ok := false;
    } else {
      WriteScalar(c, buf, base + slot.offset, slot, v);
      ok := true;
    }
  }

  /** The loop over a block's fields, each at its own offset. */
  method WriteBlock(c: Floats, buf: array<Byte>, base: nat, slots: seq<Slot>, ghost from: nat, ghost to: nat, m: Fields)
    returns (ok: bool)
    requires Tiled(slots, from, to) && from <= to && ZeroFrom(buf[..], base + from, base + to)
    modifies buf
    ensures ok <==> NoEmptyComposite(slots)
    ensures ok ==> Patched(buf[..], old(buf[..]), base + from, BlockBytes(c, slots, from, to, m))
    decreases slots, 1
  {
    hide SlotTiled, SlotBytes, Patched, ZeroFrom, Tiled, BlockBytes, NoEmptyComposite;
    NoSlots(c, m, to);
    assert slots[0..] == slots;
    ghost var before := buf[..];
    ghost var all := BlockBytes(c, slots, from, to, m);
    ghost var done: seq<Byte> := [];
    ghost var at: nat := from;
    var i := 0;
    WithinZeros(before, base + from, base + to);
    PatchedNone(before, base + from);
    while i < |slots|
      invariant i <= |slots| && from <= at <= to && Tiled(slots[i..], at, to) && |done| == at - from
      invariant all == done + BlockBytes(c, slots[i..], at, to, m)
      invariant Patched(buf[..], before, base + from, done)
      invariant NoEmptyComposite(slots) <==> NoEmptyComposite(slots[i..])
    {
      var slot := slots[i];
      BlockStep(c, slots, i, at, to, m);
      ghost var middle := buf[..];
      StillZero(middle, before, base + from, done, base + to);
      LessZero(middle, base + at, base + at + slot.size, base + to);
      ok := WriteField(c, buf, base, slot, Get(m, slot.fd));
      if !ok {
        return;
      }
      ghost var bytes := SlotBytes(c, slot, Get(m, slot.fd));
      ghost var last := BlockBytes(c, slots[i + 1..], at + slot.size, to, m);
      PatchedTwice(buf[..], middle, before, base + from, done, bytes);
      Regroup(done, bytes, last);
      done := done + bytes;
      at := at + slot.size;
      i := i + 1;
    }
    assert slots[|slots|..] == [] && at == to;
    assert all == done;
    ok := true;
  }

  lemma Regroup(a: seq<Byte>, b: seq<Byte>, c: seq<Byte>)
    ensures a + (b + c) == (a + b) + c
  {}

  lemma NoSlots(c: Floats, m: Fields, to: nat)
    ensures Tiled([], to, to) && BlockBytes(c, [], to, to, m) == [] && NoEmptyComposite([])
    ensures forall at: nat :: Tiled([], at, to) ==> at == to
  {}

  lemma BlockStep(c: Floats, slots: seq<Slot>, i: nat, at: nat, to: nat, m: Fields)
    requires i < |slots| && Tiled(slots[i..], at, to)
    ensures var slot := slots[i];
            && SlotTiled(slot) && slot.offset == at && at + slot.size <= to && Tiled(slots[i + 1..], at + slot.size, to)
            && BlockBytes(c, slots[i..], at, to, m)
            == SlotBytes(c, slot, Get(m, slot.fd)) + BlockBytes(c, slots[i + 1..], at + slot.size, to, m)
            && (NoEmptyComposite(slots[i..]) <==>
                  (slot.fd.kind.Message? ==> slot.composite != [] && NoEmptyComposite(slot.composite))
                  && NoEmptyComposite(slots[i + 1..]))
  {
    hide SlotTiled, SlotBytes;
    var rest := slots[i..];
    assert rest[0] == slots[i] && rest[1..] == slots[i + 1..];
    TiledWithin(rest, at, to);
  }

  lemma WithinZeros(s: seq<Byte>, from: nat, to: nat)
    requires ZeroFrom(s, from, to)
    ensures to <= |s|
  {}

  lemma LessZero(s: seq<Byte>, from: nat, mid: nat, to: nat)
    requires ZeroFrom(s, from, to) && mid <= to
    ensures ZeroFrom(s, from, mid)
  {}

  lemma StillZero(s: seq<Byte>, before: seq<Byte>, at: nat, done: seq<Byte>, to: nat)
    requires Patched(s, before, at, done) && at + |done| <= to && ZeroFrom(before, at, to)
    ensures ZeroFrom(s, at + |done|, to)
  {}

  lemma PatchedNone(s: seq<Byte>, at: nat)
    requires at <= |s|
    ensures Patched(s, s, at, [])
  {}

  lemma PatchedTwice(last: seq<Byte>, middle: seq<Byte>, first: seq<Byte>, at: nat, a: seq<Byte>, b: seq<Byte>)
    requires Patched(middle, first, at, a) && Patched(last, middle, at + |a|, b)
    ensures Patched(last, first, at, a + b)
  {
    assert middle[..at + |a|] == first[..at] + a;
    assert middle[at + |a| + |b|..] == first[at + |a| + |b|..];
  }

  method WriteU16(buf: array<Byte>, at: nat, n: nat)
    requires at + 2 <= buf.Length
    modifies buf
    ensures Patched(buf[..], old(buf[..]), at, U16(n))
  {
    Copy(buf, at, Le(n % 0x1_0000, 2));
  }

  /** marshal_group: header, then entry after entry. */
  method MarshalGroup(c: Floats, buf: array<Byte>, pos: nat, m: Fields, g: Group) returns (ok: bool, size: nat)
    requires GroupTiled(g) && ZeroFrom(buf[..], pos, pos + |GroupBytes(c, g, m)|)
    modifies buf
    ensures ok <==> (ItemsOf(Get(m, g.fd)) != [] ==> NoEmptyComposite(g.slots))
    ensures ok ==> Patched(buf[..], old(buf[..]), pos, GroupBytes(c, g, m)) && size == |GroupBytes(c, g, m)|
  {
    hide Tiled, NoEmptyComposite, U16, BlockBytes, Patched, ZeroFrom, EntriesBytes, Get;
    var entries := ItemsOf(Get(m, g.fd));
    var n := |entries|;
    ghost var before := buf[..];
    ghost var all := GroupBytes(c, g, m);
    WithinZeros(before, pos, pos + |all|);
    assert n * g.blockLength == |EntriesBytes(c, g, entries)|;
    WriteU16(buf, pos, g.blockLength);
    ghost var middle := buf[..];
    WriteU16(buf, pos + 2, n);
    PatchedTwice(buf[..], middle, before, pos, U16(g.blockLength), U16(n));
    ghost var done := U16(g.blockLength) + U16(n);
    assert entries[0..] == entries;
    var i := 0;
    while i < n
      invariant i <= n && |done| == GROUP_HEADER + i * g.blockLength
      invariant all == done + EntriesBytes(c, g, entries[i..])
      invariant Patched(buf[..], before, pos, done)
      invariant i > 0 ==> NoEmptyComposite(g.slots)
    {
      middle := buf[..];
      StillZero(middle, before, pos, done, pos + |all|);
      NextEntry(c, g, entries, i);
      ghost var bytes := BlockBytes(c, g.slots, 0, g.blockLength, FieldsOf(entries[i]));
      ghost var last := EntriesBytes(c, g, entries[i + 1..]);
      LessZero(middle, pos + |done|, pos + |done| + |bytes|, pos + |all|);
      ok := WriteBlock(c, buf, pos + GROUP_HEADER + i * g.blockLength, g.slots, 0, g.blockLength, FieldsOf(entries[i]));
      if !ok {
        return ok, 0;
      }
      PatchedTwice(buf[..], middle, before, pos, done, bytes);
      assert done + (bytes + last) == (done + bytes) + last;
      done := done + bytes;
      assert (i + 1) * g.blockLength == i * g.blockLength + g.blockLength;
      i := i + 1;
    }
    assert entries[n..] == [] && EntriesBytes(c, g, []) == [];
    assert all == done;
    ok, size := true, GROUP_HEADER + n * g.blockLength;
  }

  lemma NextEntry(c: Floats, g: Group, entries: seq<Value>, i: nat)
    requires GroupTiled(g) && i < |entries|
    ensures EntriesBytes(c, g, entries[i..])
         == BlockBytes(c, g.slots, 0, g.blockLength, FieldsOf(entries[i])) + EntriesBytes(c, g, entries[i + 1..])
  {
    assert entries[i..][0] == entries[i] && entries[i..][1..] == entries[i + 1..];
  }

  /** The sum of the groups' sizes. */
  lemma {:induction false} GroupsLength(c: Floats, gs: seq<Group>, m: Fields, i: nat)
    requires GroupsTiled(gs) && i < |gs|
    ensures GroupTiled(gs[i]) && GroupsTiled(gs[i..]) && GroupsTiled(gs[i + 1..])
    ensures GroupsBytes(c, gs[i..], m) == GroupBytes(c, gs[i], m) + GroupsBytes(c, gs[i + 1..], m)
  {
    hide GroupBytes;
    assert gs[i..][0] == gs[i] && gs[i..][1..] == gs[i + 1..];
  }

  /** marshal_message: the total size first, then everything at its offset in a
      zeroed buffer. None is the panic on a composite without fields. */
  method Marshal(c: Floats, t: Template, m: Fields) returns (r: Option<array<Byte>>)
    requires TemplateTiled(t)
    ensures r.Some? <==> Writable(t, m)
    ensures r.Some? ==> fresh(r.value) && r.value[..] == Marshalled(c, t, m)
  {
    hide GroupTiled, GroupBytes, BlockBytes, Tiled, NoEmptyComposite, U16, Patched, ZeroFrom, HeaderBytes, GroupsBytes, Get;
    var total := TotalSize(c, t, m);
    var buf := new Byte[total](_ => 0);
    ghost var zeros := buf[..];
    ghost var all := Marshalled(c, t, m);
    AllZero(zeros);
    var ok := WriteHeader(c, buf, t, m);
    if !ok {
      return None;
    }
    ghost var done := HeaderBytes(t) + BlockBytes(c, t.slots, 0, t.blockLength, m);
    var pos := HEADER + t.blockLength;
    var i := 0;
    assert t.groups[0..] == t.groups;
    while i < |t.groups|
      invariant i <= |t.groups| && GroupsTiled(t.groups[i..]) && |done| == pos
      invariant all == done + GroupsBytes(c, t.groups[i..], m)
      invariant Patched(buf[..], zeros, 0, done)
      invariant GroupsWritable(t, m, i)
    {
      GroupsLength(c, t.groups, m, i);
      ghost var bytes := GroupBytes(c, t.groups[i], m);
      ghost var rest := GroupsBytes(c, t.groups[i + 1..], m);
      ghost var middle := buf[..];
      StillZero(middle, zeros, 0, done, total);
      LessZero(middle, pos, pos + |bytes|, total);
      var size;
      ok, size := MarshalGroup(c, buf, pos, m, t.groups[i]);
      if !ok {
        return None;
      }
      PatchedTwice(buf[..], middle, zeros, 0, done, bytes);
      assert done + (bytes + rest) == (done + bytes) + rest;
      done := done + bytes;
      pos := pos + size;
      i := i + 1;
    }
    assert t.groups[|t.groups|..] == [] && GroupsBytes(c, [], m) == [] by { NoGroups(c, m); }
    assert all == done;
    PatchedAll(buf[..], zeros, all);
    r := Some(buf);
  }

  lemma NoGroups(c: Floats, m: Fields)
    ensures GroupsBytes(c, [], m) == []
  {}

  lemma AllZero(s: seq<Byte>)
    requires forall k :: 0 <= k < |s| ==> s[k] == 0
    ensures ZeroFrom(s, 0, |s|)
  {}

  lemma PatchedAll(s: seq<Byte>, before: seq<Byte>, bytes: seq<Byte>)
    requires Patched(s, before, 0, bytes) && |before| == |bytes|
    ensures s == bytes
  {}

  /** The sum at the start of marshal_message. */
  method TotalSize(c: Floats, t: Template, m: Fields) returns (total: nat)
    requires TemplateTiled(t)
    ensures total == |Marshalled(c, t, m)|
  {
    hide GroupTiled, BlockBytes, Tiled;
    total := HEADER + t.blockLength;
    var k := 0;
    assert t.groups[0..] == t.groups;
    while k < |t.groups|
      invariant k <= |t.groups| && GroupsTiled(t.groups[k..])
      invariant total + |GroupsBytes(c, t.groups[k..], m)| == |Marshalled(c, t, m)|
    {
      GroupsLength(c, t.groups, m, k);
      total := total + (GROUP_HEADER + |ItemsOf(Get(m, t.groups[k].fd))| * t.groups[k].blockLength);
      k := k + 1;
    }
  }

  /** The groups before the i-th are written. */
  ghost predicate GroupsWritable(t: Template, m: Fields, i: nat)
    requires i <= |t.groups|
  {
    && NoEmptyComposite(t.slots)
    && forall j :: 0 <= j < i && ItemsOf(Get(m, t.groups[j].fd)) != [] ==> NoEmptyComposite(t.groups[j].slots)
  }

  method WriteHeader(c: Floats, buf: array<Byte>, t: Template, m: Fields) returns (ok: bool)
    requires TemplateTiled(t) && ZeroFrom(buf[..], 0, buf.Length) && HEADER + t.blockLength <= buf.Length
    modifies buf
    ensures ok <==> NoEmptyComposite(t.slots)
    ensures ok ==> Patched(buf[..], old(buf[..]), 0, HeaderBytes(t) + BlockBytes(c, t.slots, 0, t.blockLength, m))
  {
    hide GroupTiled, BlockBytes, Tiled, NoEmptyComposite, U16, Patched, ZeroFrom;
    ghost var zeros := buf[..];
    WriteU16(buf, 0, t.blockLength);
    ghost var one := buf[..];
    WriteU16(buf, 2, t.templateId);
    ghost var two := buf[..];
    PatchedTwice(two, one, zeros, 0, U16(t.blockLength), U16(t.templateId));
    WriteU16(buf, 4, t.schemaId);
    ghost var three := buf[..];
    PatchedTwice(three, two, zeros, 0, U16(t.blockLength) + U16(t.templateId), U16(t.schemaId));
    WriteU16(buf, 6, t.version);
    ghost var four := buf[..];
    PatchedTwice(four, three, zeros, 0, U16(t.blockLength) + U16(t.templateId) + U16(t.schemaId), U16(t.version));
    StillZero(four, zeros, 0, HeaderBytes(t), buf.Length);
    LessZero(four, HEADER, HEADER + t.blockLength, buf.Length);
    ok := WriteBlock(c, buf, HEADER, t.slots, 0, t.blockLength, m);
    if ok {
      PatchedTwice(buf[..], four, zeros, 0, HeaderBytes(t), BlockBytes(c, t.slots, 0, t.blockLength, m));
    }
  }
}
