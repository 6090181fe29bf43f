/** Which buffers unmarshal accepts, header by header, and where it finds each block:
    blocks may be longer than the layout's. */
module SbeBuffers {
  import opened Options
  import opened Bytes
  import opened SbeLayout
  import opened SbeValues
  import opened SbeCodec
  import opened SbeWire
  import opened SbeView

  /** The root block, of a length at least the layout's, stands past a header with the
      template's id. */
  predicate RootHere(t: Template, data: seq<Byte>, limits: Limits, length: nat) {
    && |data| <= limits.maxSize
    && length < 0x1_0000 && t.blockLength <= length && HEADER + length <= |data|
    && t.templateId < 0x1_0000 && Word(data, 0, length) && Word(data, 2, t.templateId)
  }

  /** A group stands past its header: so many entries a stride apart, each at least the
      layout's block, no entries of no bytes. */
  predicate GroupHere(g: Group, data: seq<Byte>, pos: nat, stride: nat, count: nat, maxCount: nat) {
    && stride < 0x1_0000 && count < 0x1_0000 && count <= maxCount
    && pos + GROUP_HEADER + count * stride <= |data|
    && Word(data, pos, stride) && Word(data, pos + 2, count)
    && (count > 0 ==> stride > 0 && stride >= g.blockLength)
  }

  /** The entries are what the blocks at their starts read as. */
  ghost predicate EntriesHere(c: Floats, g: Group, data: seq<Byte>, start: nat, stride: nat, items: seq<Value>)
    requires GroupTiled(g)
  {
    forall i :: 0 <= i < |items| ==> EntryHere(c, g, data, start + i * stride, items[i])
  }

  predicate EntryHere(c: Floats, g: Group, data: seq<Byte>, at: int, item: Value)
    requires GroupTiled(g)
  {
    && 0 <= at && at + g.blockLength <= |data| && item.VMsg?
    && ReadBlock(c, data, at, g.slots, 0, g.blockLength, map[]) == Done(item.fields)
  }

  /** The groups stand one after another, and the message gets each as a list. */
  ghost predicate GroupsHere(c: Floats, gs: seq<Group>, data: seq<Byte>, pos: nat, maxCount: nat, m: Fields, out: Fields)
    requires GroupsTiled(gs)
    decreases |gs|
  {
    if gs == [] then out == m
    else
      assert GroupTiled(gs[0]);
      exists stride: nat, items: seq<Value> ::
        && GroupHere(gs[0], data, pos, stride, |items|, maxCount)
        && EntriesHere(c, gs[0], data, pos + GROUP_HEADER, stride, items)
        && GroupsHere(c, gs[1..], data, pos + GROUP_HEADER + |items| * stride, maxCount, Set(m, gs[0].fd, VList(items)), out)
  }

  lemma {:induction false} WordIs(data: seq<Byte>, at: nat, n: nat)
    requires at + 2 <= |data| && n < 0x1_0000
    ensures U16At(data, at) == n <==> Word(data, at, n)
  {
    assert n == n / 256 * 256 + n % 256;
  }

  lemma {:induction false} RootExactly(t: Template, data: seq<Byte>, limits: Limits, length: nat)
    ensures BlockEnd(t, data, limits) == Some(HEADER + length) <==> RootHere(t, data, limits, length)
  {
    if |data| >= HEADER {
      if length < 0x1_0000 {
        WordIs(data, 0, length);
      }
      if t.templateId < 0x1_0000 {
        WordIs(data, 2, t.templateId);
      }
    }
    hide Word, U16At;
  }

  lemma {:induction false} GroupExactly(g: Group, data: seq<Byte>, pos: nat, maxCount: nat, stride: nat, count: nat)
    ensures CheckGroup(data, pos, g.blockLength, maxCount) == Some(GroupHeader(stride, count, GROUP_HEADER + count * stride))
       <==> GroupHere(g, data, pos, stride, count, maxCount)
  {
    if pos + GROUP_HEADER <= |data| && stride < 0x1_0000 && count < 0x1_0000 {
      WordIs(data, pos, stride);
      WordIs(data, pos + 2, count);
    }
    NotNegative(count, stride);
    hide Word, U16At;
  }

  lemma {:induction false} NotNegative(a: nat, b: nat)
    ensures a * b >= 0
  {}

  lemma {:induction false} Stride(i: int, stride: int)
    ensures (i + 1) * stride == stride + i * stride
  {}

  /** Entries read are those at their starts. */
  lemma {:induction false} EntriesExactly(c: Floats, data: seq<Byte>, start: nat, stride: nat, count: nat, g: Group, items: seq<Value>)
    requires GroupTiled(g) && start + count * stride <= |data| && (count > 0 ==> stride >= g.blockLength)
    ensures ReadEntries(c, data, start, stride, count, g) == Done(items)
       <==> |items| == count && EntriesHere(c, g, data, start, stride, items)
    decreases count
  {
    hide ReadBlock;
    if count > 0 {
      Stride(count - 1, stride);
      NotNegative(count - 1, stride);
      var first := ReadBlock(c, data, start, g.slots, 0, g.blockLength, map[]);
      if items != [] {
        EntriesExactly(c, data, start + stride, stride, count - 1, g, items[1..]);
        FirstEntry(c, g, data, start, stride, items);
        assert items == [items[0]] + items[1..];
      }
    }
  }

  lemma {:induction false} FirstEntry(c: Floats, g: Group, data: seq<Byte>, start: nat, stride: nat, items: seq<Value>)
    requires GroupTiled(g) && items != []
    ensures EntriesHere(c, g, data, start, stride, items)
       <==> EntryHere(c, g, data, start, items[0]) && EntriesHere(c, g, data, start + stride, stride, items[1..])
  {
    hide GroupTiled, EntryHere;
    var rest := items[1..];
    if EntryHere(c, g, data, start, items[0]) && EntriesHere(c, g, data, start + stride, stride, rest) {
      forall i | 0 <= i < |items| ensures EntryHere(c, g, data, start + i * stride, items[i]) {
        if i > 0 {
          Stride(i - 1, stride);
          assert EntryHere(c, g, data, start + stride + (i - 1) * stride, rest[i - 1]);
        }
      }
    }
    if EntriesHere(c, g, data, start, stride, items) {
      assert EntryHere(c, g, data, start + 0 * stride, items[0]);
      forall i | 0 <= i < |rest| ensures EntryHere(c, g, data, start + stride + i * stride, rest[i]) {
        Stride(i, stride);
        assert EntryHere(c, g, data, start + (i + 1) * stride, items[i + 1]);
      }
    }
  }

  lemma {:induction false} GroupsExactly(c: Floats, gs: seq<Group>, data: seq<Byte>, pos: nat, maxCount: nat, m: Fields, out: Fields)
    requires GroupsTiled(gs)
    ensures ReadGroups(c, data, pos, gs, maxCount, m) == Done(out) <==> GroupsHere(c, gs, data, pos, maxCount, m, out)
    decreases |gs|
  {
    hide GroupTiled, EntriesHere, ReadEntries, CheckGroup, GroupHere;
    if gs != [] {
      var g := gs[0];
      assert GroupTiled(g);
      if ReadGroups(c, data, pos, gs, maxCount, m) == Done(out) {
        var h := CheckGroup(data, pos, g.blockLength, maxCount).value;
        GroupExactly(g, data, pos, maxCount, h.blockLength, h.count);
        var items := ReadEntries(c, data, pos + GROUP_HEADER, h.blockLength, h.count, g).value;
        EntriesExactly(c, data, pos + GROUP_HEADER, h.blockLength, h.count, g, items);
        GroupsExactly(c, gs[1..], data, pos + h.total, maxCount, Set(m, g.fd, VList(items)), out);
      }
      forall stride: nat, items: seq<Value> |
        && GroupHere(g, data, pos, stride, |items|, maxCount) && EntriesHere(c, g, data, pos + GROUP_HEADER, stride, items)
        && GroupsHere(c, gs[1..], data, pos + GROUP_HEADER + |items| * stride, maxCount, Set(m, g.fd, VList(items)), out)
        ensures ReadGroups(c, data, pos, gs, maxCount, m) == Done(out)
      {
        GroupExactly(g, data, pos, maxCount, stride, |items|);
        EntriesExactly(c, data, pos + GROUP_HEADER, stride, |items|, g, items);
        GroupsExactly(c, gs[1..], data, pos + GROUP_HEADER + |items| * stride, maxCount, Set(m, g.fd, VList(items)), out);
      }
    }
  }

  /** A buffer is unmarshalled exactly when the root block and every group stand in it so
      and each block is read where it stands. */
  lemma {:induction false} UnmarshalExactly(c: Floats, t: Template, data: seq<Byte>, limits: Limits, m: Fields, out: Fields)
    requires TemplateTiled(t)
    ensures Unmarshal(c, t, data, limits, m) == Done(out)
       <==> exists length: nat, mid: Fields ::
              && RootHere(t, data, limits, length)
              && ReadBlock(c, data, HEADER, t.slots, 0, t.blockLength, m) == Done(mid)
              && GroupsHere(c, t.groups, data, HEADER + length, limits.maxCount, mid, out)
  {
    hide ReadBlock, ReadGroups, GroupsHere, BlockEnd, GroupTiled, Word;
    assert GroupsTiled(t.groups);
    if Unmarshal(c, t, data, limits, m) == Done(out) {
      var end := BlockEnd(t, data, limits).value;
      RootExactly(t, data, limits, end - HEADER);
      var mid := ReadBlock(c, data, HEADER, t.slots, 0, t.blockLength, m).value;
      GroupsExactly(c, t.groups, data, end, limits.maxCount, mid, out);
      assert HEADER + (end - HEADER) == end;
    }
    forall length: nat, mid: Fields |
      && RootHere(t, data, limits, length) && ReadBlock(c, data, HEADER, t.slots, 0, t.blockLength, m) == Done(mid)
      && GroupsHere(c, t.groups, data, HEADER + length, limits.maxCount, mid, out)
      ensures Unmarshal(c, t, data, limits, m) == Done(out)
    {
      RootExactly(t, data, limits, length);
      GroupsExactly(c, t.groups, data, HEADER + length, limits.maxCount, mid, out);
    }
  }

  /** The view opens exactly where the root block of a registered template stands, on
      that block and what follows it. */
  lemma {:induction false} ViewExactly(codec: Codec, data: seq<Byte>, limits: Limits, v: View)
    requires forall id :: id in codec.byId ==> codec.byId[id].templateId == id
    ensures ViewOf(codec, data, limits) == Done(v)
       <==> exists id: nat, length: nat ::
              && id in codec.byId && RootHere(codec.byId[id], data, limits, length)
              && v == View(data, HEADER, HEADER + length, codec.byId[id].slots, codec.byId[id].groups, HEADER + length, limits.maxCount)
  {
    hide Word;
    if ViewOf(codec, data, limits) == Done(v) {
      var id, length := U16At(data, 2), U16At(data, 0);
      WordIs(data, 0, length);
      WordIs(data, 2, id);
      assert RootHere(codec.byId[id], data, limits, length);
    }
    forall id: nat, length: nat |
      && id in codec.byId && RootHere(codec.byId[id], data, limits, length)
      && v == View(data, HEADER, HEADER + length, codec.byId[id].slots, codec.byId[id].groups, HEADER + length, limits.maxCount)
      ensures ViewOf(codec, data, limits) == Done(v)
    {
      WordIs(data, 0, length);
      WordIs(data, 2, id);
    }
  }
}
