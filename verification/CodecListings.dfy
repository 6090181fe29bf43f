/** Every value a program can hold has a listing, so writing it and reading it
    back returns it. */
module CodecListings {
  import opened Bytes
  import opened Codec
  import opened CodecTheorems
  import opened CodecValues
  import opened MessageWriter

  /** The records take the value from one state to another. */
  ghost predicate Lists(kind: Kind, items: seq<Item>, from: Msg, to: Msg) {
    WellFormed(kind, items) && Listing(kind, items, from) && Meaning(kind, items, from) == to
  }

  lemma {:induction false} ListsAppend(kind: Kind, a: seq<Item>, b: seq<Item>, from: Msg, mid: Msg, to: Msg)
    requires Lists(kind, a, from, mid) && Lists(kind, b, mid, to)
    ensures Lists(kind, a + b, from, to)
    decreases |a|
  {
    hide WellFormedItem, Fresh, MergeItem;
    if a == [] {
      assert a + b == b;
    } else {
      ListsAppend(kind, a[1..], b, MergeItem(kind, a[0], from), mid, to);
      assert (a + b)[1..] == a[1..] + b;
    }
  }

  lemma ListsOne(kind: Kind, item: Item, from: Msg, to: Msg)
    requires WellFormedItem(kind, item) && Fresh(kind, item, from) && to == MergeItem(kind, item, from)
    ensures Lists(kind, [item], from, to)
  {
    hide WellFormedItem, Fresh, MergeItem;
    var items := [item];
    var rest := items[1..];
    assert items[0] == item && rest == [];
    assert WellFormed(kind, rest) && Listing(kind, rest, to) && Meaning(kind, rest, to) == to;
    assert WellFormed(kind, items) && Listing(kind, items, from) && Meaning(kind, items, from) == to;
  }

  /** A field joins the value; an empty list or map does not. */
  function With(m: Msg, num: nat, v: Val): Msg {
    if v == VList([]) || v == VTable(map[]) then m else Msg(m.fields[num := v])
  }

  /** The element of a list as a record. */
  lemma ListElement(kind: Kind, num: nat, m: Msg, done: seq<Val>, v: Val) returns (item: Item)
    requires num !in m.fields && 0 < num <= LAST_FIELD
    requires var f := FieldOf(kind, num);
             (f.TextList? && StorableText(v)) || (f.SubList? && StorableMsg(f.kind, v))
    ensures Lists(kind, [item], With(m, num, VList(done)), With(m, num, VList(done + [v])))
    decreases v, 3
  {
    var from := With(m, num, VList(done));
    assert ListIn(from, num) == done;
    if FieldOf(kind, num).TextList? {
      item := Leaf(num, v.bytes);
    } else {
      var sub := ListingExists(FieldOf(kind, num).kind, v.msg);
      item := Node(num, sub);
    }
    hide FieldOf, ValidUtf8;
    ListsOne(kind, item, from, With(m, num, VList(done + [v])));
  }

  lemma ListElements(kind: Kind, num: nat, m: Msg, list: seq<Val>, i: nat) returns (items: seq<Item>)
    requires num !in m.fields && 0 < num <= LAST_FIELD && i <= |list|
    requires var f := FieldOf(kind, num);
             (f.TextList? && forall k :: 0 <= k < |list| ==> StorableText(list[k]))
             || (f.SubList? && forall k :: 0 <= k < |list| ==> StorableMsg(f.kind, list[k]))
    ensures Lists(kind, items, With(m, num, VList(list[..i])), With(m, num, VList(list)))
    decreases list, 4, |list| - i
  {
    hide FieldOf, With, StorableText, StorableMsg, Lists;
    assert list[..|list|] == list;
    if i == |list| {
      items := [];
      ListsNothing(kind, With(m, num, VList(list)));
    } else {
      var item := ListElement(kind, num, m, list[..i], list[i]);
      assert list[..i] + [list[i]] == list[..i + 1];
      var rest := ListElements(kind, num, m, list, i + 1);
      items := [item] + rest;
      ListsAppend(kind, [item], rest, With(m, num, VList(list[..i])), With(m, num, VList(list[..i + 1])),
                  With(m, num, VList(list)));
    }
  }

  lemma ListsNothing(kind: Kind, m: Msg)
    ensures Lists(kind, [], m, m)
  {}

  /** A map entry as a record: its key and its value. */
  lemma ListEntry(kind: Kind, num: nat, m: Msg, done: map<seq<Byte>, Val>, key: seq<Byte>, v: Val) returns (item: Item)
    requires num !in m.fields && 0 < num <= LAST_FIELD && key !in done
    requires FieldOf(kind, num).Table? && ValidUtf8(key) && StorableEntry(FieldOf(FieldOf(kind, num).kind, 2), v)
    ensures Lists(kind, [item], With(m, num, VTable(done)), With(m, num, VTable(done[key := v])))
    decreases v, 3
  {
    var from := With(m, num, VTable(done));
    assert TableIn(from, num) == done;
    assert key in done[key := v];
    var entry := FieldOf(kind, num).kind;
    EntryFields(kind, num);
    var value: Item;
    if FieldOf(entry, 2).Sub? {
      var sub := ListingExists(FieldOf(entry, 2).kind, v.msg);
      value := Node(2, sub);
    } else {
      value := Leaf(2, v.bytes);
    }
    item := Node(num, [Leaf(1, key), value]);
    EntryRecords(entry, key, value, v);
    hide FieldOf, ValidUtf8, EntryItems, Meaning, WellFormed;
    ListsOne(kind, item, from, With(m, num, VTable(done[key := v])));
  }

  lemma EntryRecords(entry: Kind, key: seq<Byte>, value: Item, v: Val)
    requires FieldOf(entry, 1).Text? && ValidUtf8(key) && WellFormedItem(entry, value)
    requires if FieldOf(entry, 2).Sub? then
               value.Node? && value.num == 2 && v.VMsg? && Lists(FieldOf(entry, 2).kind, value.items, EMPTY, v.msg)
             else FieldOf(entry, 2).Text? && v.VBytes? && value == Leaf(2, v.bytes)
    ensures var items := [Leaf(1, key), value];
            && WellFormed(entry, items) && EntryItems(entry, items)
            && EntryKey(Meaning(entry, items, EMPTY)) == key && EntryValue(entry, Meaning(entry, items, EMPTY)) == v
  {
    var items := [Leaf(1, key), value];
    assert items[1..] == [value] && items[1..][1..] == [];
    hide ValidUtf8;
    assert WellFormed(entry, items[1..]);
    EntryMeaning(entry, items, 0, 0);
  }

  /** A table that can be stored in a map field, entry by entry. */
  ghost predicate StorableTable(kind: Kind, num: nat, v: Val) {
    && 0 < num <= LAST_FIELD && FieldOf(kind, num).Table? && v.VTable?
    && (forall k :: k in v.table ==>
          ValidUtf8(k) && StorableEntry(FieldOf(FieldOf(kind, num).kind, 2), v.table[k]))
  }

  lemma ListEntries(kind: Kind, num: nat, m: Msg, done: map<seq<Byte>, Val>, rest: map<seq<Byte>, Val>, v: Val)
    returns (items: seq<Item>)
    requires num !in m.fields && StorableTable(kind, num, v)
    requires done.Keys !! rest.Keys && v.table == done + rest
    ensures Lists(kind, items, With(m, num, VTable(done)), With(m, num, v))
    decreases v, 4, |rest|
  {
    hide FieldOf, With, StorableEntry, ValidUtf8, Lists, StorableTable;
    if rest == map[] {
      TableDone(kind, num, v, done);
      items := [];
      ListsNothing(kind, With(m, num, v));
    } else {
      var key :| key in rest;
      var item, done', rest' := ListMoved(kind, num, m, done, rest, v, key);
      var more := ListEntries(kind, num, m, done', rest', v);
      items := [item] + more;
      ListsAppend(kind, [item], more, With(m, num, VTable(done)), With(m, num, VTable(done')), With(m, num, v));
    }
  }

  lemma TableDone(kind: Kind, num: nat, v: Val, done: map<seq<Byte>, Val>)
    requires StorableTable(kind, num, v) && v.table == done + map[]
    ensures v == VTable(done)
  {
    assert done == v.table;
  }

  /** One entry of the table, moved to the entries already listed. */
  lemma ListMoved(kind: Kind, num: nat, m: Msg, done: map<seq<Byte>, Val>, rest: map<seq<Byte>, Val>, v: Val, key: seq<Byte>)
    returns (item: Item, done': map<seq<Byte>, Val>, rest': map<seq<Byte>, Val>)
    requires num !in m.fields && StorableTable(kind, num, v) && key in rest
    requires done.Keys !! rest.Keys && v.table == done + rest
    ensures done'.Keys !! rest'.Keys && v.table == done' + rest' && |rest'| < |rest|
    ensures Lists(kind, [item], With(m, num, VTable(done)), With(m, num, VTable(done')))
    decreases v, 3, 1
  {
    hide FieldOf, With, StorableEntry, ValidUtf8, Lists;
    MoveKey(done, rest, v.table, key);
    item := ListEntry(kind, num, m, done, key, v.table[key]);
    done', rest' := done[key := v.table[key]], rest - {key};
  }

  lemma MoveKey<V>(done: map<seq<Byte>, V>, rest: map<seq<Byte>, V>, table: map<seq<Byte>, V>, key: seq<Byte>)
    requires done.Keys !! rest.Keys && table == done + rest && key in rest
    ensures key in table && key !in done && key in table.Keys
    ensures var done', rest' := done[key := table[key]], rest - {key};
            done'.Keys !! rest'.Keys && table == done' + rest' && |rest'| < |rest|
  {
    var done', rest' := done[key := table[key]], rest - {key};
    assert rest'.Keys == rest.Keys - {key};
    assert rest == rest'[key := rest[key]];
    assert table == done' + rest';
  }

  /** The records of one field. */
  lemma ListField(kind: Kind, num: nat, m: Msg, v: Val) returns (items: seq<Item>)
    requires num !in m.fields && StorableVal(FieldOf(kind, num), v)
    ensures Lists(kind, items, m, Msg(m.fields[num := v]))
    decreases v, 5
  {
    EntryFields(kind, num);
    var to := Msg(m.fields[num := v]);
    match FieldOf(kind, num)
    case Text =>
      items := [Leaf(num, v.bytes)];
      ListsOne(kind, items[0], m, to);
    case Blob =>
      items := [Leaf(num, v.bytes)];
      ListsOne(kind, items[0], m, to);
    case Int32 =>
      items := [Number(num, v.number)];
      ListsOne(kind, items[0], m, to);
    case Sub(kind') =>
      var sub := ListingExists(kind', v.msg);
      items := [Node(num, sub)];
      ListsOne(kind, items[0], m, to);
    case TextList => items := ListElements(kind, num, m, v.list, 0);
    case SubList(_) => items := ListElements(kind, num, m, v.list, 0);
    case Table(_) => items := ListEntries(kind, num, m, map[], v.table, v);
  }

  function Below(m: Msg, n: nat): Msg {
    Msg(map k | k in m.fields && k < n :: m.fields[k])
  }

  lemma ListFields(kind: Kind, m: Msg, n: nat) returns (items: seq<Item>)
    requires Storable(kind, m) && n <= LAST_FIELD + 1
    ensures Lists(kind, items, Below(m, n), m)
    decreases m, 2, LAST_FIELD + 1 - n
  {
    hide FieldOf, StorableVal, Lists;
    if n == LAST_FIELD + 1 {
      AllBelow(kind, m);
      items := [];
      ListsNothing(kind, m);
    } else {
      var rest := ListFields(kind, m, n + 1);
      if n in m.fields {
        var first := ListField(kind, n, Below(m, n), m.fields[n]);
        assert Below(m, n + 1).fields == Below(m, n).fields[n := m.fields[n]];
        items := first + rest;
        ListsAppend(kind, first, rest, Below(m, n), Below(m, n + 1), m);
      } else {
        assert Below(m, n + 1).fields == Below(m, n).fields;
        items := rest;
      }
    }
  }

  lemma AllBelow(kind: Kind, m: Msg)
    requires Storable(kind, m)
    ensures Below(m, LAST_FIELD + 1) == m
  {
    hide FieldOf;
    forall n | n in m.fields ensures n < LAST_FIELD + 1 {
      EntryFields(kind, n);
    }
    assert Below(m, LAST_FIELD + 1).fields == m.fields;
  }

  /** A value has a listing. */
  lemma ListingExists(kind: Kind, m: Msg) returns (items: seq<Item>)
    requires Storable(kind, m)
    ensures Lists(kind, items, EMPTY, m)
    decreases m, 3
  {
    items := ListFields(kind, m, 0);
    assert Below(m, 0).fields == map[];
  }
}
