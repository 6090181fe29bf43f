/** Tree's encoder as it runs: one writer below another for each child and branch. */
module TreeCode {
  import opened Bytes
  import opened Wire
  import opened Codec
  import opened CodecTheorems
  import opened CodecValues
  import opened CodecListings
  import opened WireCode
  import opened MessageWriter
  import opened Envelopes
  import opened EnvelopeCode
  import opened Trees

  lemma {:induction false} TreeFormed(t: TreeData, order: Order)
    requires Enumerates(order)
    ensures WellFormed(Tree, TreeRecords(t, order))
    ensures Listing(Tree, TreeRecords(t, order), EMPTY)
    ensures WellFormedItem(Tree, Node(1, TreeRecords(t, order)))
  {
    TreeLists(t, order);
    hide TreeRecords, WellFormed, TreeMsg, Meaning, Listing, Enumerates;
  }

  lemma {:induction false} BranchFormed(key: Str, t: TreeData, order: Order)
    requires Enumerates(order)
    ensures var items := TreeRecords(t, order);
            var entry := [Leaf(1, key), Node(2, items)];
            && WellFormed(Tree, items) && FieldOf(Tree, 4).kind == BranchEntry
            && WellFormedItem(Tree, BranchRecord(key, items)) && BranchRecord(key, items) == Node(4, entry)
            && WellFormed(BranchEntry, entry) && EntryItems(BranchEntry, entry) && WellFormedItem(BranchEntry, Node(2, items))
  {
    hide ValidUtf8, TreeRecords, Enumerates, Listing;
    TreeFormed(t, order);
    TreeLists(t, order);
    hide Lists;
    EntryRecords(BranchEntry, key, Node(2, TreeRecords(t, order)), VMsg(TreeMsg(t)));
    hide WellFormed, EntryItems;
  }

  /** encode_to */
  method EncodeTree(w: Writer, t: TreeData, order: Order)
    requires w.depth <= w.maxDepth && Enumerates(order)
    modifies w
    ensures WellFormed(Tree, TreeRecords(t, order))
    ensures After(w, old(w.buf), old(w.exceeded), Written(Tree, TreeRecords(t, order), Room(w)))
    decreases t, 2
  {
    hide Written, WellFormed, TextRecord, ChildRecords, BranchRecords, MetadataRecords, ValidUtf8, Enumerates;
    ghost var room := Room(w);
    TreeFormed(t, order);
    WriteChild(w, t, order);
    WriteText(w, Tree, 2, t.caption);
    WriteBranches(w, t, order);
    WriteTags(w, t.tags, order);
    EachOf(order, t.branches.Keys);
    EachOf(order, t.tags.Keys);
    FourWritten(Tree, ChildRecords(t, order), TextRecord(2, t.caption), BranchRecords(t, order(t.branches.Keys), order),
                MetadataRecords(5, t.tags, order(t.tags.Keys)), room, old(w.buf), old(w.exceeded));
  }

  /** write_message of the child, when there is one. */
  method WriteChild(w: Writer, t: TreeData, order: Order)
    requires w.depth <= w.maxDepth && Enumerates(order)
    modifies w
    ensures WellFormed(Tree, ChildRecords(t, order))
    ensures After(w, old(w.buf), old(w.exceeded), Written(Tree, ChildRecords(t, order), Room(w)))
    decreases t, 1
  {
    hide Written, WellFormed, TreeRecords, TagBytes, VarintBytes, Enumerates, WellFormedItem;
    NothingWritten(Tree, Room(w));
    if t.child.None? {
      return;
    }
    TreeFormed(t.child.value, order);
    WrittenOne(Tree, Node(1, TreeRecords(t.child.value, order)), Room(w));
    var inner := w.Nested();
    if inner == null {
      return;
    }
    EncodeTree(inner, t.child.value, order);
    if inner.exceeded {
      w.exceeded := true;
      return;
    }
    w.WriteTag(1, LengthDelimited);
    w.WriteVarint(|inner.buf|);
    w.Raw(inner.buf);
  }

  /** The loop over the branches. */
  method WriteBranches(w: Writer, t: TreeData, order: Order)
    requires w.depth <= w.maxDepth && Enumerates(order)
    modifies w
    ensures forall k :: k in order(t.branches.Keys) ==> k in t.branches
    ensures WellFormed(Tree, BranchRecords(t, order(t.branches.Keys), order))
    ensures After(w, old(w.buf), old(w.exceeded), Written(Tree, BranchRecords(t, order(t.branches.Keys), order), Room(w)))
    decreases t, 1
  {
    hide ValidUtf8, TreeRecords, WrittenItem, WellFormedItem, Written, WellFormed, BranchRecord, Enumerates, Each;
    EachOf(order, t.branches.Keys);
    var keys := order(t.branches.Keys);
    ghost var room := Room(w);
    BranchesFormed(t, keys, order);
    ghost var all := Written(Tree, BranchRecords(t, keys, order), room);
    var i := 0;
    assert keys[0..] == keys;
    while i < |keys|
      invariant i <= |keys| && (forall k :: k in keys ==> k in t.branches) && (forall k :: k in keys[i..] ==> k in t.branches)
      invariant WellFormed(Tree, BranchRecords(t, keys[i..], order))
      invariant var rest := Written(Tree, BranchRecords(t, keys[i..], order), room);
                && w.buf + rest.bytes == old(w.buf) + all.bytes
                && (w.exceeded || rest.exceeded) == (old(w.exceeded) || all.exceeded)
    {
      var key := keys[i];
      ghost var item := BranchRecord(key, TreeRecords(t.branches[key], order));
      BranchHead(t, keys, i, order);
      BranchFormed(key, t.branches[key], order);
      WriteBranch(w, key, t.branches[key], order);
      WrittenOne(Tree, item, room);
      WrittenAppend(Tree, [item], BranchRecords(t, keys[i + 1..], order), room);
      i := i + 1;
    }
    NothingWritten(Tree, room);
    assert keys[|keys|..] == [];
  }

  lemma {:induction false} BranchHead(t: TreeData, keys: seq<Str>, i: nat, order: Order)
    requires Enumerates(order) && (forall k :: k in keys ==> k in t.branches) && i < |keys|
    ensures (forall k :: k in keys[i..] ==> k in t.branches) && (forall k :: k in keys[i + 1..] ==> k in t.branches)
    ensures BranchRecords(t, keys[i..], order)
         == [BranchRecord(keys[i], TreeRecords(t.branches[keys[i]], order))] + BranchRecords(t, keys[i + 1..], order)
    ensures WellFormed(Tree, BranchRecords(t, keys[i + 1..], order))
  {
    hide ValidUtf8, TreeRecords, BranchRecord, Enumerates;
    assert keys[i..][0] == keys[i] && keys[i..][1..] == keys[i + 1..];
    BranchesFormed(t, keys[i + 1..], order);
  }

  lemma {:induction false} BranchesFormed(t: TreeData, keys: seq<Str>, order: Order)
    requires Enumerates(order) && forall k :: k in keys ==> k in t.branches
    ensures WellFormed(Tree, BranchRecords(t, keys, order))
    decreases |keys|
  {
    hide ValidUtf8, TreeRecords, BranchRecord, WellFormedItem, Enumerates;
    if keys != [] {
      BranchFormed(keys[0], t.branches[keys[0]], order);
      BranchesFormed(t, keys[1..], order);
    }
  }

  /** write_map_entry of a branch: its tree is a descent below the entry's. */
  method WriteBranch(w: Writer, key: Str, t: TreeData, order: Order)
    requires w.depth <= w.maxDepth && Enumerates(order)
    modifies w
    ensures WellFormedItem(Tree, BranchRecord(key, TreeRecords(t, order)))
    ensures After(w, old(w.buf), old(w.exceeded), WrittenItem(Tree, BranchRecord(key, TreeRecords(t, order)), Room(w)))
    decreases t, 4
  {
    hide ValidUtf8, TreeRecords, Written, WellFormed, WellFormedItem, TagBytes, VarintBytes, Enumerates, WrittenItem, EntryItems, FieldOf,
         BranchRecord;
    ghost var items := TreeRecords(t, order);
    BranchFormed(key, t, order);
    EntryWritten(Tree, 4, [Leaf(1, key), Node(2, items)], Room(w));
    var entry := w.Nested();
    if entry == null {
      return;
    }
    entry.WriteTag(1, LengthDelimited);
    entry.WriteBytes(key);
    WriteBranchTree(entry, t, order);
    if entry.exceeded {
      w.exceeded := true;
      return;
    }
    w.WriteTag(4, LengthDelimited);
    w.WriteVarint(|entry.buf|);
    w.Raw(entry.buf);
  }

  /** The entry's value: its tag first, and then the tree, unless that is too deep. */
  method WriteBranchTree(w: Writer, t: TreeData, order: Order)
    requires w.depth <= w.maxDepth && Enumerates(order)
    requires WellFormedItem(BranchEntry, Node(2, TreeRecords(t, order)))
    modifies w
    ensures var out := WrittenItem(BranchEntry, Node(2, TreeRecords(t, order)), Room(w));
            && w.exceeded == (old(w.exceeded) || out.exceeded)
            && (!out.exceeded ==> w.buf == old(w.buf) + out.bytes)
    decreases t, 3
  {
    hide TreeRecords, Written, WellFormed, TagBytes, VarintBytes, Enumerates;
    w.WriteTag(2, LengthDelimited);
    var inner := w.Nested();
    if inner == null {
      return;
    }
    EncodeTree(inner, t, order);
    if inner.exceeded {
      w.exceeded := true;
      return;
    }
    w.WriteVarint(|inner.buf|);
    w.Raw(inner.buf);
  }

  /** The loop over the tags. */
  method WriteTags(w: Writer, tags: map<Str, Str>, order: Order)
    requires w.depth <= w.maxDepth && Enumerates(order)
    modifies w
    ensures forall k :: k in order(tags.Keys) ==> k in tags
    ensures WellFormed(Tree, MetadataRecords(5, tags, order(tags.Keys)))
    ensures After(w, old(w.buf), old(w.exceeded), Written(Tree, MetadataRecords(5, tags, order(tags.Keys)), Room(w)))
  {
    hide ValidUtf8, WrittenItem, WellFormedItem, Written, WellFormed, EntryRecord, Enumerates, Each;
    EachOf(order, tags.Keys);
    var keys := order(tags.Keys);
    ghost var room := Room(w);
    TagsFormed(tags, keys);
    ghost var all := Written(Tree, MetadataRecords(5, tags, keys), room);
    var i := 0;
    assert keys[0..] == keys;
    while i < |keys|
      invariant i <= |keys| && (forall k :: k in keys ==> k in tags) && (forall k :: k in keys[i..] ==> k in tags)
      invariant WellFormed(Tree, MetadataRecords(5, tags, keys[i..]))
      invariant var rest := Written(Tree, MetadataRecords(5, tags, keys[i..]), room);
                && w.buf + rest.bytes == old(w.buf) + all.bytes
                && (w.exceeded || rest.exceeded) == (old(w.exceeded) || all.exceeded)
    {
      var key := keys[i];
      TagHead(tags, keys, i);
      TagFormed(key, tags[key]);
      WriteMapEntry(w, Tree, 5, [Leaf(1, key), Leaf(2, tags[key])]);
      WrittenOne(Tree, EntryRecord(5, key, tags[key]), room);
      WrittenAppend(Tree, [EntryRecord(5, key, tags[key])], MetadataRecords(5, tags, keys[i + 1..]), room);
      i := i + 1;
    }
    NothingWritten(Tree, room);
    assert keys[|keys|..] == [];
  }

  lemma {:induction false} TagFormed(k: Str, v: Str)
    ensures EntryRecord(5, k, v) == Node(5, [Leaf(1, k), Leaf(2, v)])
    ensures WellFormedItem(Tree, EntryRecord(5, k, v)) && FieldOf(Tree, 5).kind == TagEntry
    ensures WellFormed(TagEntry, [Leaf(1, k), Leaf(2, v)]) && EntryItems(TagEntry, [Leaf(1, k), Leaf(2, v)])
  {
    hide ValidUtf8;
    EntryRecords(TagEntry, k, Leaf(2, v), VBytes(v));
    hide WellFormed, EntryItems;
  }

  lemma {:induction false} TagsFormed(tags: map<Str, Str>, keys: seq<Str>)
    requires forall k :: k in keys ==> k in tags
    ensures WellFormed(Tree, MetadataRecords(5, tags, keys))
    decreases |keys|
  {
    hide ValidUtf8, EntryRecord, WellFormedItem;
    if keys != [] {
      TagFormed(keys[0], tags[keys[0]]);
      TagsFormed(tags, keys[1..]);
    }
  }

  lemma {:induction false} TagHead(tags: map<Str, Str>, keys: seq<Str>, i: nat)
    requires (forall k :: k in keys ==> k in tags) && i < |keys|
    ensures (forall k :: k in keys[i..] ==> k in tags) && (forall k :: k in keys[i + 1..] ==> k in tags)
    ensures MetadataRecords(5, tags, keys[i..]) == [EntryRecord(5, keys[i], tags[keys[i]])] + MetadataRecords(5, tags, keys[i + 1..])
    ensures WellFormed(Tree, MetadataRecords(5, tags, keys[i + 1..]))
  {
    hide ValidUtf8, EntryRecord;
    assert keys[i..][0] == keys[i] && keys[i..][1..] == keys[i + 1..];
    TagsFormed(tags, keys[i + 1..]);
  }

  /** marshal_with of a tree. */
  method MarshalTree(t: TreeData, order: Order, maxDepth: nat) returns (out: Outcome<seq<Byte>>)
    requires Enumerates(order)
    ensures WellFormed(Tree, TreeRecords(t, order)) && out == Marshal(Tree, TreeRecords(t, order), maxDepth)
  {
    hide Written, WellFormed, TreeRecords, Enumerates;
    var w := new Writer.Root(maxDepth);
    EncodeTree(w, t, order);
    ghost var written := Written(Tree, TreeRecords(t, order), maxDepth);
    assert [] + written.bytes == written.bytes;
    out := if w.exceeded then Err(DepthExceeded) else Ok(w.buf);
  }
}
