/** The conformance checker's recursive Tree: which records each tree writes, and that
    reading them returns it, however deep it is. */
module Trees {
  import opened Options
  import opened Bytes
  import opened Wire
  import opened Codec
  import opened CodecTheorems
  import opened CodecValues
  import opened CodecListings
  import opened Envelopes

  datatype TreeData = TreeData(child: Option<TreeData>, caption: Str, branches: map<Str, TreeData>, tags: map<Str, Str>)

  /** The order in which a map with some keys is walked. */
  type Order = set<Str> -> seq<Str>

  ghost predicate Enumerates(order: Order) {
    forall s: set<Str> :: Each(order(s), s)
  }

  ghost predicate Each(keys: seq<Str>, s: set<Str>) {
    && (forall k: Str :: k in keys <==> k in s)
    && (forall i, j :: 0 <= i < j < |keys| ==> keys[i] != keys[j])
  }

  lemma {:induction false} EachOf(order: Order, s: set<Str>)
    requires Enumerates(order)
    ensures Each(order(s), s) && forall k :: k in order(s) ==> k in s
  {
    hide ValidUtf8;
  }

  ghost function AnyOrder(s: set<Str>): (keys: seq<Str>)
    ensures Each(keys, s)
    decreases |s|
  {
    if s == {} then []
    else
      var k :| k in s;
      [k] + AnyOrder(s - {k})
  }

  /** Maps can be walked. */
  lemma {:induction false} SomeOrder()
    ensures exists order: Order :: Enumerates(order)
  {
    hide ValidUtf8;
    var order: Order := s => AnyOrder(s);
    assert Enumerates(order);
  }

  // As a message value.

  function TreeMsg(t: TreeData): Msg
    decreases t, 1
  {
    With(With(WithText(ChildMsg(t), 2, t.caption), 4, VTable(BranchVals(t))), 5, VTable(MetadataVals(t.tags)))
  }

  function ChildMsg(t: TreeData): Msg
    decreases t, 0
  {
    if t.child.None? then EMPTY else Msg(map[1 := VMsg(TreeMsg(t.child.value))])
  }

  function BranchVals(t: TreeData): map<seq<Byte>, Val>
    decreases t, 0
  {
    map k: Str | k in t.branches :: VMsg(TreeMsg(t.branches[k]))
  }

  // The records, in the order encode_to writes them.

  function TreeRecords(t: TreeData, order: Order): seq<Item>
    requires Enumerates(order)
    decreases t, 2, 0
  {
    EachOf(order, t.branches.Keys);
    EachOf(order, t.tags.Keys);
    ChildRecords(t, order)
    + (TextRecord(2, t.caption)
       + (BranchRecords(t, order(t.branches.Keys), order) + MetadataRecords(5, t.tags, order(t.tags.Keys))))
  }

  function ChildRecords(t: TreeData, order: Order): seq<Item>
    requires Enumerates(order)
    decreases t, 1, 0
  {
    if t.child.None? then [] else [Node(1, TreeRecords(t.child.value, order))]
  }

  function BranchRecords(t: TreeData, keys: seq<Str>, order: Order): seq<Item>
    requires Enumerates(order) && forall k :: k in keys ==> k in t.branches
    decreases t, 1, |keys|
  {
    if keys == [] then []
    else
      [BranchRecord(keys[0], TreeRecords(t.branches[keys[0]], order))] + BranchRecords(t, keys[1..], order)
  }

  function BranchRecord(key: Str, items: seq<Item>): Item {
    Node(4, [Leaf(1, key), Node(2, items)])
  }

  // The records list the value.

  lemma {:induction false} TreeLists(t: TreeData, order: Order)
    requires Enumerates(order)
    ensures Lists(Tree, TreeRecords(t, order), EMPTY, TreeMsg(t))
    decreases t, 3, 0
  {
    EachOf(order, t.branches.Keys);
    EachOf(order, t.tags.Keys);
    assert Walk(order(t.tags.Keys), t.tags);
    hide ValidUtf8, Lists, WithText, With, Before, TextRecord, ChildRecords, BranchRecords, MetadataRecords, MetadataVals, Enumerates,
         ChildMsg, BranchVals, Each, Walk;
    var m1, m2 := ChildMsg(t), WithText(ChildMsg(t), 2, t.caption);
    var m4 := With(m2, 4, VTable(BranchVals(t)));
    var r2, r4 := TextRecord(2, t.caption), BranchRecords(t, order(t.branches.Keys), order);
    var r5 := MetadataRecords(5, t.tags, order(t.tags.Keys));
    ChildLists(t, order);
    TextLists(Tree, 2, t.caption, m1);
    WiderBefore(m2, 3, 4);
    AllBranches(t, order, m2);
    AllEntries(Tree, 5, t.tags, order(t.tags.Keys), m4);
    ListsAppend(Tree, r4, r5, m2, m4, TreeMsg(t));
    ListsAppend(Tree, r2, r4 + r5, m1, m2, TreeMsg(t));
    ListsAppend(Tree, ChildRecords(t, order), r2 + (r4 + r5), EMPTY, m1, TreeMsg(t));
  }

  lemma {:induction false} WiderBefore(m: Msg, a: nat, b: nat)
    requires Before(m, a) && a <= b
    ensures Before(m, b)
  {}

  lemma {:induction false} ChildLists(t: TreeData, order: Order)
    requires Enumerates(order)
    ensures Lists(Tree, ChildRecords(t, order), EMPTY, ChildMsg(t)) && Before(ChildMsg(t), 2)
    decreases t, 2, 0
  {
    hide Lists, TreeRecords, TreeMsg, Enumerates;
    if t.child.None? {
      ListsNothing(Tree, EMPTY);
    } else {
      TreeLists(t.child.value, order);
      NothingBefore(1);
      SubLists(Tree, 1, TreeRecords(t.child.value, order), EMPTY, TreeMsg(t.child.value));
      assert EMPTY.fields[1 := VMsg(TreeMsg(t.child.value))] == map[1 := VMsg(TreeMsg(t.child.value))];
    }
  }

  function PickedBranches(t: TreeData, keys: seq<Str>): (r: map<seq<Byte>, Val>)
    requires forall k :: k in keys ==> k in t.branches
  {
    if keys == [] then map[] else map[keys[0] := VMsg(TreeMsg(t.branches[keys[0]]))] + PickedBranches(t, keys[1..])
  }

  lemma {:induction false} PickedBranchesAre(t: TreeData, keys: seq<Str>)
    requires forall k :: k in keys ==> k in t.branches
    ensures forall k :: k in PickedBranches(t, keys) <==> k in keys
    ensures forall k :: k in keys ==> PickedBranches(t, keys)[k] == VMsg(TreeMsg(t.branches[k]))
    decreases |keys|
  {
    hide ValidUtf8, TreeMsg;
    if keys != [] {
      PickedBranchesAre(t, keys[1..]);
      assert keys == [keys[0]] + keys[1..];
    }
  }

  lemma {:induction false} BranchesList(t: TreeData, keys: seq<Str>, order: Order, m: Msg, done: map<seq<Byte>, Val>)
    requires Enumerates(order) && 4 !in m.fields && (forall k :: k in keys ==> k in t.branches) && Distinct(keys, done)
    ensures Lists(Tree, BranchRecords(t, keys, order), With(m, 4, VTable(done)),
                  With(m, 4, VTable(done + PickedBranches(t, keys))))
    decreases t, 1, |keys|
  {
    hide Lists, With, Distinct, ValidUtf8, TreeRecords, TreeMsg, BranchRecord, Enumerates;
    if keys == [] {
      assert done + map[] == done;
      ListsNothing(Tree, With(m, 4, VTable(done)));
    } else {
      var key := keys[0];
      var sub := t.branches[key];
      var v := VMsg(TreeMsg(sub));
      DistinctRest(keys, done, v);
      TreeLists(sub, order);
      OneBranch(key, TreeRecords(sub, order), TreeMsg(sub), m, done);
      BranchesList(t, keys[1..], order, m, done[key := v]);
      JoinEntry(done, key, v, PickedBranches(t, keys[1..]));
      ListsAppend(Tree, [BranchRecord(key, TreeRecords(sub, order))], BranchRecords(t, keys[1..], order), With(m, 4, VTable(done)),
                  With(m, 4, VTable(done[key := v])), With(m, 4, VTable(done + PickedBranches(t, keys))));
    }
  }

  lemma {:induction false} OneBranch(key: Str, items: seq<Item>, sub: Msg, m: Msg, done: map<seq<Byte>, Val>)
    requires 4 !in m.fields && key !in done && Lists(Tree, items, EMPTY, sub)
    ensures Lists(Tree, [BranchRecord(key, items)], With(m, 4, VTable(done)), With(m, 4, VTable(done[key := VMsg(sub)])))
  {
    var from := With(m, 4, VTable(done));
    assert TableIn(from, 4) == done;
    assert key in done[key := VMsg(sub)];
    hide ValidUtf8;
    EntryRecords(BranchEntry, key, Node(2, items), VMsg(sub));
    hide EntryItems, Meaning, WellFormed;
    ListsOne(Tree, BranchRecord(key, items), from, With(m, 4, VTable(done[key := VMsg(sub)])));
  }

  lemma {:induction false} AllBranches(t: TreeData, order: Order, m: Msg)
    requires Enumerates(order) && Before(m, 4)
    ensures forall k :: k in order(t.branches.Keys) ==> k in t.branches
    ensures Lists(Tree, BranchRecords(t, order(t.branches.Keys), order), m, With(m, 4, VTable(BranchVals(t))))
    ensures Before(With(m, 4, VTable(BranchVals(t))), 5)
    decreases t, 2, 0
  {
    assert With(m, 4, VTable(map[])) == m;
    hide Lists, BranchRecords, ValidUtf8, Enumerates, Each, PickedBranches, BranchVals, Before, With;
    var keys := order(t.branches.Keys);
    EachOf(order, t.branches.Keys);
    NotThere(m, 4);
    BranchKeys(t, keys);
    BranchesList(t, keys, order, m, map[]);
    JoinBefore(m, 4, VTable(BranchVals(t)));
  }

  lemma {:induction false} BranchKeys(t: TreeData, keys: seq<Str>)
    requires Each(keys, t.branches.Keys)
    ensures Distinct(keys, map[]) && (forall k :: k in keys ==> k in t.branches)
    ensures map[] + PickedBranches(t, keys) == BranchVals(t)
  {
    hide ValidUtf8, TreeMsg, PickedBranches;
    PickedBranchesAre(t, keys);
    assert PickedBranches(t, keys) == BranchVals(t);
    assert map[] + PickedBranches(t, keys) == PickedBranches(t, keys);
  }

  lemma {:induction false} JoinBefore(m: Msg, num: nat, v: Val)
    requires Before(m, num)
    ensures Before(With(m, num, v), num + 1)
  {}

  // Reading the tree off its message.

  function TreeOf(m: Msg): TreeData
    decreases m
  {
    var table := TableIn(m, 4);
    TreeData(if 1 in m.fields && m.fields[1].VMsg? then Some(TreeOf(m.fields[1].msg)) else None, TextOf(m, 2),
             map k | k in table && ValidUtf8(k) && table[k].VMsg? :: k := TreeOf(table[k].msg),
             map k | k in TableIn(m, 5) && ValidUtf8(k) :: k := TextIn(TableIn(m, 5)[k]))
  }

  lemma {:induction false} TreeFields(t: TreeData)
    ensures var m := TreeMsg(t);
            && (1 in m.fields <==> t.child.Some?) && (t.child.Some? ==> m.fields[1] == VMsg(TreeMsg(t.child.value)))
            && BytesIn(m, 2) == t.caption && TableIn(m, 4) == BranchVals(t) && TableIn(m, 5) == MetadataVals(t.tags)
  {
    hide ValidUtf8, MetadataVals, BranchVals, TreeMsg;
    var m2 := WithText(ChildMsg(t), 2, t.caption);
    assert TreeMsg(t) == With(With(m2, 4, VTable(BranchVals(t))), 5, VTable(MetadataVals(t.tags))) by { TreeMsgIs(t); }
  }

  lemma {:induction false} TreeMsgIs(t: TreeData)
    ensures TreeMsg(t)
         == With(With(WithText(ChildMsg(t), 2, t.caption), 4, VTable(BranchVals(t))), 5, VTable(MetadataVals(t.tags)))
  {
    hide With, WithText, ChildMsg, BranchVals, MetadataVals, ValidUtf8;
  }

  lemma {:induction false} TreeBack(t: TreeData)
    ensures TreeOf(TreeMsg(t)) == t
    decreases t
  {
    hide ValidUtf8, TreeMsg;
    TreeFields(t);
    if t.child.Some? {
      TreeBack(t.child.value);
    }
    forall k: Str | k in t.branches ensures TreeOf(TreeMsg(t.branches[k])) == t.branches[k] {
      TreeBack(t.branches[k]);
    }
    TreeFrom(TreeMsg(t), t);
  }

  lemma {:induction false} TreeFrom(m: Msg, t: TreeData)
    requires 1 in m.fields <==> t.child.Some?
    requires t.child.Some? ==> m.fields[1].VMsg? && TreeOf(m.fields[1].msg) == t.child.value
    requires BytesIn(m, 2) == t.caption && TableIn(m, 4).Keys == t.branches.Keys && TableIn(m, 5) == MetadataVals(t.tags)
    requires forall k :: k in t.branches ==> TableIn(m, 4)[k].VMsg? && TreeOf(TableIn(m, 4)[k].msg) == t.branches[k]
    ensures TreeOf(m) == t
  {
    hide ValidUtf8, BytesIn, TableIn;
    var back := TreeOf(m);
    assert back.branches == t.branches;
    assert back.tags == t.tags;
  }

  // Limits.

  /** The tree needs at most room descents: a child is one, a branch two, its entry and
      its tree, and a tag one. */
  predicate TreeFits(t: TreeData, room: nat)
    decreases t, 1
  {
    ChildFits(t, room) && BranchesFit(t, room) && (t.tags != map[] ==> room > 0)
  }

  predicate ChildFits(t: TreeData, room: nat)
    decreases t, 0
  {
    t.child.Some? ==> room > 0 && TreeFits(t.child.value, room - 1)
  }

  predicate BranchesFit(t: TreeData, room: nat)
    decreases t, 0
  {
    forall k :: k in t.branches ==> room > 1 && TreeFits(t.branches[k], room - 2)
  }

  /** No map of the tree has more than n entries. */
  predicate TreeCounts(t: TreeData, n: nat)
    decreases t, 1
  {
    ChildCounts(t, n) && BranchesCount(t, n) && |t.tags| <= n
  }

  predicate ChildCounts(t: TreeData, n: nat)
    decreases t, 0
  {
    t.child.Some? ==> TreeCounts(t.child.value, n)
  }

  predicate BranchesCount(t: TreeData, n: nat)
    decreases t, 0
  {
    |t.branches| <= n && forall k :: k in t.branches ==> TreeCounts(t.branches[k], n)
  }

  lemma {:induction false} BranchLimits(t: TreeData, room: nat, n: nat)
    ensures t.branches != map[] ==>
              (FitsVal(VTable(BranchVals(t)), room) <==> BranchesFit(t, room))
    ensures t.branches == map[] ==> BranchesFit(t, room) && BranchesCount(t, n)
    ensures WithinVal(VTable(BranchVals(t)), n) <==> BranchesCount(t, n)
    ensures BranchVals(t) == map[] <==> t.branches == map[]
    decreases t, 0
  {
    hide ValidUtf8, TreeMsg, TreeFits, TreeCounts, Fits, Within;
    var vals := BranchVals(t);
    assert vals.Keys == t.branches.Keys;
    assert |vals| == |t.branches| by { assert |vals.Keys| == |t.branches.Keys|; }
    forall k: Str | k in t.branches
      ensures (room > 0 && FitsVal(vals[k], room - 1) <==> room > 1 && TreeFits(t.branches[k], room - 2))
      ensures WithinVal(vals[k], n) <==> TreeCounts(t.branches[k], n)
    {
      TreeLimits(t.branches[k], if room > 1 then room - 2 else 0, n);
      BoundedMeans(TreeMsg(t.branches[k]), if room > 1 then room - 2 else 0, n,
                   TreeFits(t.branches[k], if room > 1 then room - 2 else 0), TreeCounts(t.branches[k], n));
    }
    hide BranchVals, FitsVal;
    TableFits(vals, room);
    if t.branches != map[] {
      var k :| k in t.branches;
      assert k in vals;
    }
  }

  lemma {:induction false} TableFits(vals: map<seq<Byte>, Val>, room: nat)
    ensures FitsVal(VTable(vals), room) <==> room > 0 && forall k :: k in vals ==> FitsVal(vals[k], room - 1)
  {}

  lemma {:induction false} TreeLimits(t: TreeData, room: nat, n: nat)
    ensures Bounded(TreeMsg(t), room, n, TreeFits(t, room), TreeCounts(t, n))
    decreases t, 1
  {
    hide ValidUtf8, Bounded, FitsVal, WithinVal, With, WithText, Before, ChildMsg, BranchVals, MetadataVals;
    hide ChildFits, ChildCounts, BranchesFit, BranchesCount;
    var m1, m2 := ChildMsg(t), WithText(ChildMsg(t), 2, t.caption);
    var m4 := With(m2, 4, VTable(BranchVals(t)));
    ChildLimits(t, room, n);
    TextLimits(m1, 2, t.caption, room, n, ChildFits(t, room), ChildCounts(t, n));
    WiderBefore(m2, 3, 4);
    BranchLimits(t, room, n);
    JoinLimits(m2, 4, VTable(BranchVals(t)), room, n, ChildFits(t, room), ChildCounts(t, n));
    MetadataLimits(t.tags, room, n);
    JoinLimits(m4, 5, VTable(MetadataVals(t.tags)), room, n, ChildFits(t, room) && BranchesFit(t, room),
               ChildCounts(t, n) && BranchesCount(t, n));
  }

  lemma {:induction false} ChildLimits(t: TreeData, room: nat, n: nat)
    ensures Before(ChildMsg(t), 2)
    ensures Bounded(ChildMsg(t), room, n, ChildFits(t, room), ChildCounts(t, n))
    decreases t, 0
  {
    hide TreeFits, TreeCounts, TreeMsg, Fits, Within;
    NothingBounded(room, n);
    if t.child.Some? {
      TreeLimits(t.child.value, if room > 0 then room - 1 else 0, n);
      var v := VMsg(TreeMsg(t.child.value));
      PutLimits(EMPTY, 1, v, room, n);
      assert EMPTY.fields[1 := v] == map[1 := v];
    }
  }

  // The theorem.

  /** A tree is written exactly when it is within the writer's depth, whatever order its
      maps are walked in. What is written is read back as it exactly when its size,
      depth and counts are within the reader's limits. */
  lemma {:induction false} TreeReturns(t: TreeData, order: Order, maxDepth: nat, limits: Limits)
    requires Enumerates(order)
    ensures WellFormed(Tree, TreeRecords(t, order))
    ensures var bytes := Encode(Tree, TreeRecords(t, order));
            && Marshal(Tree, TreeRecords(t, order), maxDepth) == (if TreeFits(t, maxDepth) then Ok(bytes) else Err(DepthExceeded))
            && (|bytes| < U64_SIZE ==>
                  var r := Unmarshal(Tree, bytes, limits);
                  && (r.Ok? <==> |bytes| <= limits.maxSize && TreeFits(t, limits.maxDepth) && TreeCounts(t, limits.maxCount))
                  && (r.Ok? ==> TreeOf(r.value) == t))
  {
    hide *;
    var items := TreeRecords(t, order);
    TreeLists(t, order);
    ListsMean(Tree, items, TreeMsg(t));
    MarshalFailsByDepth(Tree, items, maxDepth);
    TreeLimits(t, maxDepth, 0);
    BoundedMeans(TreeMsg(t), maxDepth, 0, TreeFits(t, maxDepth), TreeCounts(t, 0));
    TreeBack(t);
    if |Encode(Tree, items)| < U64_SIZE {
      TreeLimits(t, limits.maxDepth, limits.maxCount);
      BoundedMeans(TreeMsg(t), limits.maxDepth, limits.maxCount, TreeFits(t, limits.maxDepth), TreeCounts(t, limits.maxCount));
      EmptyLimits(Tree, limits.maxDepth, limits.maxCount);
      ListingLimits(Tree, items, EMPTY, limits.maxDepth, limits.maxCount);
      DecodesToMeaning(Tree, items, limits);
    }
  }
}
