/** Reading SBE as it runs: the decoder's loops over a message it fills in place,
    the view's walks, and the codec's registry. */
module SbeReaderCode {
  import opened Options
  import opened Bytes
  import opened SbeLayout
  import opened SbeValues
  import opened SbeCodec
  import opened SbeView

  /** A message whose fields are set one by one. */
  class DynamicMessage {
    var fields: Fields

    constructor ()
      ensures fields == map[]
    {
      fields := map[];
    }

    method SetField(fd: Field, v: Value)
      modifies this
      ensures fields == Set(old(fields), fd, v)
    {
      fields := (fields - fd.siblings)[fd.name := v];
    }
  }

  /** How a read ended. */
  datatype Status = Fine | Refused | Panicked

  function StatusOf<T>(r: Read<T>): Status {
    match r
    case Done(_) => Fine
    case Refuse => Refused
    case Panic => Panicked
  }

  /** The trailing zeros of a text field are padding. */
  method TrimPadding(s: seq<Byte>) returns (r: seq<Byte>)
    ensures r == Strip(s)
  {
    var n: nat := |s|;
    assert s[..n] == s;
    while n > 0 && s[n - 1] == 0
      invariant n <= |s| && Strip(s) == Strip(s[..n])
    {
      assert s[..n][..n - 1] == s[..n - 1];
      n := n - 1;
    }
    r := s[..n];
  }

  /** read_field */
  method ReadField(c: Floats, data: seq<Byte>, base: nat, slot: Slot, parent: DynamicMessage) returns (status: Status)
    requires SlotTiled(slot) && base + slot.offset + slot.size <= |data|
    modifies parent
    ensures status == StatusOf(ReadSlot(c, data, base, slot))
    ensures ReadSlot(c, data, base, slot).Done? ==>
              parent.fields == Set(old(parent.fields), slot.fd, ReadSlot(c, data, base, slot).value)
    decreases slot, 0
  {
    hide ReadScalar, SizedOf;
    if slot.composite != [] {
      var sub := new DynamicMessage();
      status := ReadFields(c, data, base + slot.offset, slot.composite, 0, slot.size, sub);
      if status.Fine? {
        parent.SetField(slot.fd, VMsg(sub.fields));
      }
    } else if slot.encoding.None? {
      status := Panicked;
    } else {
      var off := base + slot.offset;
      var value := ReadScalar(c, slot.fd.kind, SizedOf(slot), data[off..off + slot.size]);
      match value
      case Done(v) =>
        parent.SetField(slot.fd, v);
        status := Fine;
      case Refuse => status := Refused;
      case Panic => status := Panicked;
    }
  }

  /** The loop over a block's fields. */
  method ReadFields(c: Floats, data: seq<Byte>, base: nat, slots: seq<Slot>, ghost from: nat, ghost to: nat, msg: DynamicMessage)
    returns (status: Status)
    requires Tiled(slots, from, to) && base + to <= |data|
    modifies msg
    ensures status == StatusOf(ReadBlock(c, data, base, slots, from, to, old(msg.fields)))
    ensures status.Fine? ==> msg.fields == ReadBlock(c, data, base, slots, from, to, old(msg.fields)).value
    decreases slots, 1
  {
    hide SlotTiled, ReadSlot, Set;
    ghost var all := ReadBlock(c, data, base, slots, from, to, msg.fields);
    ghost var at: nat := from;
    TiledWithin(slots, from, to);
    var i := 0;
    while i < |slots|
      invariant i <= |slots| && at <= to && Tiled(slots[i..], at, to)
      invariant all == ReadBlock(c, data, base, slots[i..], at, to, msg.fields)
    {
      ghost var rest := slots[i..];
      assert rest[0] == slots[i] && rest[1..] == slots[i + 1..];
      TiledWithin(rest, at, to);
      status := ReadField(c, data, base, slots[i], msg);
      if !status.Fine? {
        return;
      }
      at := at + slots[i].size;
      i := i + 1;
    }
    status := Fine;
  }

  /** unmarshal_group: the header is checked, then one entry after another. */
  method UnmarshalGroup(c: Floats, data: seq<Byte>, pos: nat, parent: DynamicMessage, g: Group, maxCount: nat)
    returns (status: Status, total: nat)
    requires GroupTiled(g)
    modifies parent
    ensures var h := CheckGroup(data, pos, g.blockLength, maxCount);
            if h.None? then status == Refused
            else
              var items := ReadEntries(c, data, pos + GROUP_HEADER, h.value.blockLength, h.value.count, g);
              && status == StatusOf(items)
              && (status.Fine? ==> total == h.value.total && parent.fields == Set(old(parent.fields), g.fd, VList(items.value)))
  {
    hide Tiled, ReadBlock, ReadEntries, CheckGroup;
    var header := CheckGroup(data, pos, g.blockLength, maxCount);
    if header.None? {
      return Refused, 0;
    }
    var stride, count := header.value.blockLength, header.value.count;
    var start := pos + GROUP_HEADER;
    ghost var all := ReadEntries(c, data, start, stride, count, g);
    var entries: seq<Value> := [];
    var i: nat := 0;
    while i < count
      invariant parent.fields == old(parent.fields)
      invariant i <= count && start + i * stride + (count - i) * stride <= |data|
      invariant Continues(all, entries, ReadEntries(c, data, start + i * stride, stride, count - i, g))
    {
      EntryStep(c, data, start, stride, count, i, g);
      var entry := new DynamicMessage();
      status := ReadFields(c, data, start + i * stride, g.slots, 0, g.blockLength, entry);
      if !status.Fine? {
        return status, 0;
      }
      ghost var rest := ReadEntries(c, data, start + (i + 1) * stride, stride, count - i - 1, g);
      assert rest.Done? ==> entries + ([VMsg(entry.fields)] + rest.value) == (entries + [VMsg(entry.fields)]) + rest.value;
      entries := entries + [VMsg(entry.fields)];
      i := i + 1;
    }
    NoEntry(c, data, start + i * stride, stride, g);
    assert entries + [] == entries;
    parent.SetField(g.fd, VList(entries));
    status, total := Fine, header.value.total;
  }

  /** The entries read so far, and what reading the rest gives. */
  ghost predicate Continues(all: Read<seq<Value>>, entries: seq<Value>, rest: Read<seq<Value>>) {
    StatusOf(all) == StatusOf(rest) && (all.Done? ==> all.value == entries + rest.value)
  }

  lemma EntryStep(c: Floats, data: seq<Byte>, start: nat, stride: nat, count: nat, i: nat, g: Group)
    requires GroupTiled(g) && i < count && stride >= g.blockLength && start + i * stride + (count - i) * stride <= |data|
    ensures start + i * stride + g.blockLength <= |data|
    ensures start + (i + 1) * stride + (count - i - 1) * stride <= |data|
    ensures var first := ReadBlock(c, data, start + i * stride, g.slots, 0, g.blockLength, map[]);
            var rest := ReadEntries(c, data, start + (i + 1) * stride, stride, count - i - 1, g);
            ReadEntries(c, data, start + i * stride, stride, count - i, g)
            == match first
               case Refuse => Refuse
               case Panic => Panic
               case Done(m) => match rest case Refuse => Refuse case Panic => Panic case Done(r) => Done([VMsg(m)] + r)
  {
    hide ReadBlock, Tiled;
    Strides(count - i, stride);
    Strides(i + 1, stride);
  }

  lemma Strides(n: nat, stride: nat)
    requires n > 0
    ensures n * stride == stride + (n - 1) * stride && (n - 1) * stride >= 0
  {}

  lemma NoEntry(c: Floats, data: seq<Byte>, start: nat, stride: nat, g: Group)
    requires GroupTiled(g) && start <= |data|
    ensures ReadEntries(c, data, start, stride, 0, g) == Done([])
  {}

  /** unmarshal_message */
  method UnmarshalMessage(c: Floats, msg: DynamicMessage, t: Template, data: seq<Byte>, limits: Limits) returns (status: Status)
    requires TemplateTiled(t)
    modifies msg
    ensures status == StatusOf(Unmarshal(c, t, data, limits, old(msg.fields)))
    ensures status.Fine? ==> msg.fields == Unmarshal(c, t, data, limits, old(msg.fields)).value
  {
    hide GroupTiled, ReadBlock, Tiled, ReadEntries, CheckGroup, Set;
    if |data| > limits.maxSize || |data| < HEADER {
      return Refused;
    }
    var blockLength := U16At(data, 0);
    if U16At(data, 2) != t.templateId || blockLength < t.blockLength {
      return Refused;
    }
    var end := HEADER + blockLength;
    if |data| < end {
      return Refused;
    }
    ghost var all := Unmarshal(c, t, data, limits, msg.fields);
    status := ReadFields(c, data, HEADER, t.slots, 0, t.blockLength, msg);
    if !status.Fine? {
      return;
    }
    var pos: nat := end;
    var i := 0;
    assert t.groups[0..] == t.groups;
    while i < |t.groups|
      invariant i <= |t.groups| && GroupsTiled(t.groups[i..])
      invariant all == ReadGroups(c, data, pos, t.groups[i..], limits.maxCount, msg.fields)
    {
      ghost var rest := t.groups[i..];
      assert rest[0] == t.groups[i] && rest[1..] == t.groups[i + 1..] && GroupTiled(t.groups[i]);
      var total;
      status, total := UnmarshalGroup(c, data, pos, msg, t.groups[i], limits.maxCount);
      if !status.Fine? {
        return;
      }
      pos := pos + total;
      i := i + 1;
    }
    status := Fine;
  }

  // The view's loops.

  method FieldByName(slots: seq<Slot>, name: string) returns (r: Option<Slot>)
    ensures r == FindSlot(slots, name)
  {
    var i := 0;
    while i < |slots|
      invariant i <= |slots| && FindSlot(slots, name) == FindSlot(slots[i..], name)
    {
      assert slots[i..][1..] == slots[i + 1..];
      if slots[i].fd.name == name {
        return Some(slots[i]);
      }
      i := i + 1;
    }
    r := None;
  }

  method GroupByName(v: View, name: string) returns (r: Read<GroupView>)
    ensures r == GroupOf(v, name)
  {
    hide CheckGroup;
    var pos: nat := v.groupsStart;
    var i := 0;
    while i < |v.groups|
      invariant i <= |v.groups|
      invariant GroupOf(v, name) == FindGroup(v.data, pos, v.groups[i..], v.maxCount, name)
    {
      var g := v.groups[i];
      assert v.groups[i..][0] == g && v.groups[i..][1..] == v.groups[i + 1..];
      var h := CheckGroup(v.data, pos, g.blockLength, v.maxCount);
      if h.None? {
        return Refuse;
      }
      if g.fd.name == name {
        return Done(GroupView(v.data, pos, h.value.blockLength, h.value.count, g.slots));
      }
      pos := pos + h.value.total;
      i := i + 1;
    }
    r := Refuse;
  }

  method TextField(v: View, name: string) returns (r: Read<seq<Byte>>)
    ensures r == StringField(v, name)
  {
    var slot := FieldByName(v.slots, name);
    if slot.None? {
      return Refuse;
    }
    var bytes := BlockBytesAt(v, slot.value.offset, slot.value.size);
    if !bytes.Done? {
      return Panic;
    }
    var text := TrimPadding(bytes.value);
    r := if ValidUtf8(text) then Done(text) else Refuse;
  }

  // The registry.

  /** The codec's two maps. */
  class Registry {
    var byName: map<string, Template>
    var byId: map<nat, Template>

    function Contents(): Codec
      reads this
    {
      Codec(byName, byId)
    }

    constructor ()
      ensures Contents() == Codec(map[], map[])
    {
      byName, byId := map[], map[];
    }

    method Insert(name: string, t: Template)
      modifies this
      ensures Contents() == Register(old(Contents()), name, t)
    {
      byName := byName[name := t];
      byId := byId[t.templateId := t];
    }

    /** Every message of the files, in order. */
    method InsertAll(entries: seq<Entry>)
      modifies this
      ensures Contents() == RegisterAll(old(Contents()), entries)
    {
      var i := 0;
      while i < |entries|
        invariant i <= |entries|
        invariant RegisterAll(old(Contents()), entries) == RegisterAll(Contents(), entries[i..])
      {
        assert entries[i..][0] == entries[i] && entries[i..][1..] == entries[i + 1..];
        Insert(entries[i].name, entries[i].template);
        i := i + 1;
      }
    }
  }
}
