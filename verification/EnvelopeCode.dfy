/** The envelope's encoders as they run: each field tested and written in turn, and
    the map walked in any order. */
module EnvelopeCode {
  import opened Options
  import opened Bytes
  import opened Wire
  import opened Codec
  import opened CodecTheorems
  import opened CodecValues
  import opened CodecListings
  import opened WireCode
  import opened MessageWriter
  import opened Envelopes

  /** The room a writer has left. */
  function Room(w: Writer): nat
    requires w.depth <= w.maxDepth
  {
    w.maxDepth - w.depth
  }

  lemma {:induction false} WrittenAppend(kind: Kind, a: seq<Item>, b: seq<Item>, room: nat)
    requires WellFormed(kind, a) && WellFormed(kind, b)
    ensures WellFormed(kind, a + b)
    ensures Written(kind, a + b, room) == Both(Written(kind, a, room), Written(kind, b, room))
    decreases |a|
  {
    hide *;
    if a == [] {
      assert a + b == b;
      NothingWritten(kind, room);
      NothingFirst(Written(kind, b, room));
    } else {
      Headed(kind, a);
      WrittenAppend(kind, a[1..], b, room);
      assert a + b == [a[0]] + (a[1..] + b) && a == [a[0]] + a[1..];
      WrittenFirst(kind, a[0], a[1..], room);
      WrittenFirst(kind, a[0], a[1..] + b, room);
      Three(WrittenItem(kind, a[0], room), Written(kind, a[1..], room), Written(kind, b, room));
    }
  }

  /** One output after another. */
  function Both(x: Out, y: Out): Out {
    Out(x.bytes + y.bytes, x.exceeded || y.exceeded)
  }

  lemma NothingFirst(x: Out)
    ensures Both(Out([], false), x) == x
  {}

  lemma Three(x: Out, y: Out, z: Out)
    ensures Both(x, Both(y, z)) == Both(Both(x, y), z)
  {
    Regroup(x.bytes, y.bytes, z.bytes);
  }

  /** Four outputs in a row are that of the records together. */
  lemma FourWritten(kind: Kind, a: seq<Item>, b: seq<Item>, c: seq<Item>, d: seq<Item>, room: nat, buf: seq<Byte>, over: bool)
    requires WellFormed(kind, a) && WellFormed(kind, b) && WellFormed(kind, c) && WellFormed(kind, d)
    ensures WellFormed(kind, a + (b + (c + d)))
    ensures var all := Written(kind, a + (b + (c + d)), room);
            var x, y, z, u := Written(kind, a, room), Written(kind, b, room), Written(kind, c, room), Written(kind, d, room);
            && buf + x.bytes + y.bytes + z.bytes + u.bytes == buf + all.bytes
            && (over || x.exceeded || y.exceeded || z.exceeded || u.exceeded <==> over || all.exceeded)
  {
    hide *;
    WrittenAppend(kind, c, d, room);
    WrittenAppend(kind, b, c + d, room);
    WrittenAppend(kind, a, b + (c + d), room);
    FourOutputs(Written(kind, a, room), Written(kind, b, room), Written(kind, c, room), Written(kind, d, room), buf, over);
  }

  lemma FourOutputs(x: Out, y: Out, z: Out, u: Out, buf: seq<Byte>, over: bool)
    ensures var all := Both(x, Both(y, Both(z, u)));
            && buf + x.bytes + y.bytes + z.bytes + u.bytes == buf + all.bytes
            && (over || x.exceeded || y.exceeded || z.exceeded || u.exceeded <==> over || all.exceeded)
  {}

  lemma Headed(kind: Kind, items: seq<Item>)
    requires WellFormed(kind, items) && items != []
    ensures WellFormedItem(kind, items[0]) && WellFormed(kind, items[1..])
  {}

  lemma Regroup(a: seq<Byte>, b: seq<Byte>, c: seq<Byte>)
    ensures a + (b + c) == (a + b) + c
  {}

  lemma WrittenFirst(kind: Kind, item: Item, rest: seq<Item>, room: nat)
    requires WellFormedItem(kind, item) && WellFormed(kind, rest)
    ensures WellFormed(kind, [item] + rest)
    ensures Written(kind, [item] + rest, room) == Both(WrittenItem(kind, item, room), Written(kind, rest, room))
  {
    hide WellFormedItem, WrittenItem;
    assert ([item] + rest)[1..] == rest;
  }

  lemma WrittenOne(kind: Kind, item: Item, room: nat)
    requires WellFormedItem(kind, item)
    ensures WellFormed(kind, [item]) && Written(kind, [item], room) == WrittenItem(kind, item, room)
  {
    hide WellFormedItem, WrittenItem;
    assert [item][1..] == [];
  }

  /** A string or bytes field, left out when it is empty. */
  method WriteText(w: Writer, ghost kind: Kind, num: nat, s: seq<Byte>)
    requires w.depth <= w.maxDepth && 0 < num <= MAX_FIELD_NUMBER
    requires FieldOf(kind, num).Blob? || (FieldOf(kind, num).Text? && ValidUtf8(s))
    modifies w
    ensures WellFormed(kind, TextRecord(num, s))
    ensures After(w, old(w.buf), old(w.exceeded), Written(kind, TextRecord(num, s), Room(w)))
  {
    hide FieldOf, ValidUtf8, TagBytes, Framed, WrittenItem;
    if s != [] {
      TextWritten(kind, num, s, Room(w));
      w.WriteTag(num, LengthDelimited);
      w.WriteBytes(s);
    }
  }

  lemma TextWritten(kind: Kind, num: nat, s: seq<Byte>, room: nat)
    requires 0 < num <= MAX_FIELD_NUMBER
    requires FieldOf(kind, num).Blob? || ((FieldOf(kind, num).Text? || FieldOf(kind, num).TextList?) && ValidUtf8(s))
    ensures WellFormed(kind, [Leaf(num, s)])
    ensures Written(kind, [Leaf(num, s)], room) == Out(TagBytes(num, LengthDelimited) + Framed(s), false)
  {
    WrittenOne(kind, Leaf(num, s), room);
    hide FieldOf, ValidUtf8, TagBytes, Framed, Written, WellFormed;
  }

  /** The loop over a repeated string. */
  method WriteTexts(w: Writer, ghost kind: Kind, num: nat, xs: seq<Str>)
    requires w.depth <= w.maxDepth && 0 < num <= MAX_FIELD_NUMBER && FieldOf(kind, num).TextList?
    modifies w
    ensures WellFormed(kind, TextRecords(num, xs))
    ensures After(w, old(w.buf), old(w.exceeded), Written(kind, TextRecords(num, xs), Room(w)))
  {
    hide FieldOf, ValidUtf8, TagBytes, Framed, WrittenItem, Written, WellFormed;
    var i := 0;
    ghost var room := Room(w);
    TextsFormed(kind, num, xs);
    ghost var all := Written(kind, TextRecords(num, xs), room);
    assert xs[0..] == xs;
    while i < |xs|
      invariant i <= |xs| && WellFormed(kind, TextRecords(num, xs[i..])) && w.exceeded == old(w.exceeded) && !all.exceeded
      invariant w.buf + Written(kind, TextRecords(num, xs[i..]), room).bytes == old(w.buf) + all.bytes
    {
      TextsFormed(kind, num, xs[i + 1..]);
      assert xs[i..][0] == xs[i] && xs[i..][1..] == xs[i + 1..];
      TextWritten(kind, num, xs[i], room);
      WrittenAppend(kind, [Leaf(num, xs[i])], TextRecords(num, xs[i + 1..]), room);
      w.WriteTag(num, LengthDelimited);
      w.WriteBytes(xs[i]);
      i := i + 1;
    }
    NothingWritten(kind, room);
  }

  lemma NothingWritten(kind: Kind, room: nat)
    ensures WellFormed(kind, []) && Written(kind, [], room) == Out([], false)
  {}

  lemma {:induction false} TextsFormed(kind: Kind, num: nat, xs: seq<Str>)
    requires 0 < num <= MAX_FIELD_NUMBER && FieldOf(kind, num).TextList?
    ensures WellFormed(kind, TextRecords(num, xs))
    ensures forall room :: !Written(kind, TextRecords(num, xs), room).exceeded
    decreases |xs|
  {
    hide FieldOf, ValidUtf8, TagBytes, Framed;
    if xs != [] {
      TextsFormed(kind, num, xs[1..]);
    }
  }

  /** FieldError's encode_to. */
  method EncodeFieldError(w: Writer, e: FieldErrorData)
    requires w.depth <= w.maxDepth
    modifies w
    ensures WellFormed(FieldError, FieldErrorRecords(e))
    ensures After(w, old(w.buf), old(w.exceeded), Written(FieldError, FieldErrorRecords(e), Room(w)))
  {
    hide Written, WellFormed, TextRecord, TextRecords, ValidUtf8;
    ghost var room := Room(w);
    WriteText(w, FieldError, 1, e.field);
    WriteText(w, FieldError, 2, e.code);
    WriteText(w, FieldError, 3, e.message);
    WriteTexts(w, FieldError, 4, e.args);
    FourWritten(FieldError, TextRecord(1, e.field), TextRecord(2, e.code), TextRecord(3, e.message), TextRecords(4, e.args),
                room, old(w.buf), old(w.exceeded));
  }

  /** write_message of a FieldError. */
  method WriteFieldError(w: Writer, e: FieldErrorData)
    requires w.depth <= w.maxDepth
    modifies w
    ensures WellFormedItem(AppError, Node(4, FieldErrorRecords(e)))
    ensures After(w, old(w.buf), old(w.exceeded), WrittenItem(AppError, Node(4, FieldErrorRecords(e)), Room(w)))
  {
    hide Written, WellFormed, FieldErrorRecords, TagBytes, VarintBytes;
    FieldErrorFormed(e);
    var inner := w.Nested();
    if inner == null {
      return;
    }
    EncodeFieldError(inner, e);
    if inner.exceeded {
      w.exceeded := true;
      return;
    }
    w.WriteTag(4, LengthDelimited);
    w.WriteVarint(|inner.buf|);
    w.Raw(inner.buf);
  }

  lemma FieldErrorFormed(e: FieldErrorData)
    ensures WellFormed(FieldError, FieldErrorRecords(e)) && WellFormedItem(AppError, Node(4, FieldErrorRecords(e)))
  {
    FieldErrorLists(e);
    hide FieldErrorRecords, WellFormed, FieldErrorMsg, Meaning, Listing;
  }

  /** The loop over a repeated message. */
  method WriteDetails(w: Writer, ds: seq<FieldErrorData>)
    requires w.depth <= w.maxDepth
    modifies w
    ensures WellFormed(AppError, DetailRecords(4, ds))
    ensures After(w, old(w.buf), old(w.exceeded), Written(AppError, DetailRecords(4, ds), Room(w)))
  {
    hide FieldErrorRecords, WrittenItem, WellFormedItem, Written, WellFormed;
    var i := 0;
    ghost var room := Room(w);
    DetailsFormed(ds);
    ghost var all := Written(AppError, DetailRecords(4, ds), room);
    assert ds[0..] == ds;
    while i < |ds|
      invariant i <= |ds| && WellFormed(AppError, DetailRecords(4, ds[i..]))
      invariant var rest := Written(AppError, DetailRecords(4, ds[i..]), room);
                && w.buf + rest.bytes == old(w.buf) + all.bytes
                && (w.exceeded || rest.exceeded) == (old(w.exceeded) || all.exceeded)
    {
      DetailsFormed(ds[i + 1..]);
      assert ds[i..][0] == ds[i] && ds[i..][1..] == ds[i + 1..];
      WriteFieldError(w, ds[i]);
      WrittenOne(AppError, Node(4, FieldErrorRecords(ds[i])), room);
      WrittenAppend(AppError, [Node(4, FieldErrorRecords(ds[i]))], DetailRecords(4, ds[i + 1..]), room);
      i := i + 1;
    }
    NothingWritten(AppError, room);
  }

  lemma {:induction false} DetailsFormed(ds: seq<FieldErrorData>)
    ensures WellFormed(AppError, DetailRecords(4, ds))
    decreases |ds|
  {
    hide FieldErrorRecords, WellFormedItem;
    if ds != [] {
      FieldErrorFormed(ds[0]);
      DetailsFormed(ds[1..]);
    }
  }

  /** The loop over the map, its keys in whatever order they come. */
  method WriteMetadata(w: Writer, t: map<Str, Str>) returns (ghost keys: seq<Str>)
    requires w.depth <= w.maxDepth
    modifies w
    ensures Walk(keys, t)
    ensures WellFormed(AppError, MetadataRecords(5, t, keys))
    ensures After(w, old(w.buf), old(w.exceeded), Written(AppError, MetadataRecords(5, t, keys), Room(w)))
  {
    hide ValidUtf8, WrittenItem, WellFormedItem, Written, WellFormed, EntryRecord, MetadataRecords;
    keys := [];
    ghost var room := Room(w);
    var rest := t.Keys;
    NothingWalked(t, room);
    while rest != {}
      invariant rest <= t.Keys && Walked(keys, rest, t)
      invariant forall k :: k in keys ==> k in t
      invariant WellFormed(AppError, MetadataRecords(5, t, keys))
      invariant After(w, old(w.buf), old(w.exceeded), Written(AppError, MetadataRecords(5, t, keys), room))
      decreases |rest|
    {
      var k :| k in rest;
      ghost var item := EntryRecord(5, k, t[k]);
      EntryFormed(k, t[k]);
      WriteMapEntry(w, AppError, 5, [Leaf(1, k), Leaf(2, t[k])]);
      EntryIs(k, t[k]);
      WrittenOne(AppError, item, room);
      MetadataMore(t, keys, k);
      WrittenAppend(AppError, MetadataRecords(5, t, keys), [item], room);
      WalkedOne(keys, rest, t, k);
      keys := keys + [k];
      rest := rest - {k};
    }
  }

  /** Each key is walked once, or is still to come. */
  ghost predicate Walked(keys: seq<Str>, rest: set<Str>, t: map<Str, Str>) {
    && (forall k: Str :: k in keys <==> k in t && k !in rest)
    && (forall i, j :: 0 <= i < j < |keys| ==> keys[i] != keys[j])
  }

  lemma NothingWalked(t: map<Str, Str>, room: nat)
    ensures Walked([], t.Keys, t) && MetadataRecords(5, t, []) == []
    ensures WellFormed(AppError, []) && Written(AppError, [], room) == Out([], false)
  {}

  lemma WalkedOne(keys: seq<Str>, rest: set<Str>, t: map<Str, Str>, k: Str)
    requires Walked(keys, rest, t) && k in rest && rest <= t.Keys
    ensures Walked(keys + [k], rest - {k}, t)
  {
    hide ValidUtf8;
  }

  lemma EntryIs(k: Str, v: Str)
    ensures EntryRecord(5, k, v) == Node(5, [Leaf(1, k), Leaf(2, v)])
  {}

  lemma EntryFormed(k: Str, v: Str)
    ensures WellFormedItem(AppError, EntryRecord(5, k, v)) && WellFormedItem(AppError, Node(5, [Leaf(1, k), Leaf(2, v)]))
    ensures FieldOf(AppError, 5).kind == MetadataEntry
    ensures WellFormed(MetadataEntry, [Leaf(1, k), Leaf(2, v)]) && EntryItems(MetadataEntry, [Leaf(1, k), Leaf(2, v)])
  {
    hide ValidUtf8;
    EntryRecords(MetadataEntry, k, Leaf(2, v), VBytes(v));
    hide WellFormed, EntryItems;
  }

  lemma {:induction false} MetadataMore(t: map<Str, Str>, keys: seq<Str>, k: Str)
    requires (forall j :: j in keys ==> j in t) && k in t
    ensures forall j :: j in keys + [k] ==> j in t
    ensures MetadataRecords(5, t, keys + [k]) == MetadataRecords(5, t, keys) + [EntryRecord(5, k, t[k])]
    decreases |keys|
  {
    hide ValidUtf8, EntryRecord;
    if keys == [] {
      assert keys + [k] == [k] && [k][1..] == [];
    } else {
      MetadataMore(t, keys[1..], k);
      assert (keys + [k])[1..] == keys[1..] + [k];
    }
  }

  /** AppError's encode_to. */
  method EncodeAppError(w: Writer, e: AppErrorData) returns (ghost keys: seq<Str>)
    requires w.depth <= w.maxDepth
    modifies w
    ensures Walk(keys, e.metadata) && WellFormed(AppError, AppErrorRecords(e, keys))
    ensures After(w, old(w.buf), old(w.exceeded), Written(AppError, AppErrorRecords(e, keys), Room(w)))
  {
    hide Written, WellFormed, TextRecord, TextRecords, DetailRecords, MetadataRecords, ValidUtf8;
    ghost var room := Room(w);
    WriteText(w, AppError, 1, e.code);
    ghost var first, over := w.buf, w.exceeded;
    WriteText(w, AppError, 2, e.message);
    WriteTexts(w, AppError, 3, e.args);
    WriteDetails(w, e.details);
    keys := WriteMetadata(w, e.metadata);
    ghost var rest := TextRecord(2, e.message) + (TextRecords(3, e.args)
      + (DetailRecords(4, e.details) + MetadataRecords(5, e.metadata, keys)));
    FourWritten(AppError, TextRecord(2, e.message), TextRecords(3, e.args), DetailRecords(4, e.details),
                MetadataRecords(5, e.metadata, keys), room, first, over);
    WrittenAppend(AppError, TextRecord(1, e.code), rest, room);
    Regroup(old(w.buf), Written(AppError, TextRecord(1, e.code), room).bytes, Written(AppError, rest, room).bytes);
  }

  /** write_message of an AppError. */
  method WriteAppError(w: Writer, e: AppErrorData) returns (ghost keys: seq<Str>)
    requires w.depth <= w.maxDepth
    modifies w
    ensures Walk(keys, e.metadata) && WellFormedItem(Envelope, Node(4, AppErrorRecords(e, keys)))
    ensures After(w, old(w.buf), old(w.exceeded), WrittenItem(Envelope, Node(4, AppErrorRecords(e, keys)), Room(w)))
  {
    hide Written, WellFormed, AppErrorRecords, TagBytes, VarintBytes, Walk;
    var inner := w.Nested();
    if inner == null {
      keys := SomeWalk(e.metadata);
      AppErrorFormed(e, keys);
      return;
    }
    keys := EncodeAppError(inner, e);
    AppErrorFormed(e, keys);
    if inner.exceeded {
      w.exceeded := true;
      return;
    }
    w.WriteTag(4, LengthDelimited);
    w.WriteVarint(|inner.buf|);
    w.Raw(inner.buf);
  }

  lemma SomeWalk(t: map<Str, Str>) returns (keys: seq<Str>)
    ensures Walk(keys, t)
  {
    hide ValidUtf8;
    keys := [];
    var rest := t.Keys;
    while rest != {}
      invariant rest <= t.Keys && Walked(keys, rest, t)
      decreases |rest|
    {
      var k :| k in rest;
      WalkedOne(keys, rest, t, k);
      keys := keys + [k];
      rest := rest - {k};
    }
  }

  lemma AppErrorFormed(e: AppErrorData, keys: seq<Str>)
    requires Walk(keys, e.metadata)
    ensures WellFormed(AppError, AppErrorRecords(e, keys)) && WellFormedItem(Envelope, Node(4, AppErrorRecords(e, keys)))
  {
    AppErrorLists(e, keys);
    hide AppErrorRecords, WellFormed, AppErrorMsg, Meaning, Listing, Walk;
  }

  /** An int32 field, left out when it is zero. */
  method WriteStatus(w: Writer, status: I32) returns (ghost items: seq<Item>)
    requires w.depth <= w.maxDepth
    modifies w
    ensures items == if status == 0 then [] else [Number(1, status)]
    ensures WellFormed(Envelope, items)
    ensures After(w, old(w.buf), old(w.exceeded), Written(Envelope, items, Room(w)))
  {
    hide Written, WellFormed, TagBytes, VarintBytes;
    items := [];
    NothingWritten(Envelope, Room(w));
    if status != 0 {
      items := [Number(1, status)];
      StatusWritten(status, Room(w));
      w.WriteTag(1, Varint);
      w.WriteVarint(SignExtended(status));
    }
  }

  /** The submessage, left out when there is none. */
  method WriteError(w: Writer, error: Option<AppErrorData>) returns (ghost keys: seq<Str>, ghost items: seq<Item>)
    requires w.depth <= w.maxDepth
    modifies w
    ensures error.Some? ==> Walk(keys, error.value.metadata)
    ensures items == if error.None? then [] else [Node(4, AppErrorRecords(error.value, keys))]
    ensures WellFormed(Envelope, items)
    ensures After(w, old(w.buf), old(w.exceeded), Written(Envelope, items, Room(w)))
  {
    hide Written, WellFormed, AppErrorRecords, Walk, WrittenItem, WellFormedItem;
    keys, items := [], [];
    NothingWritten(Envelope, Room(w));
    if error.Some? {
      keys := WriteAppError(w, error.value);
      items := [Node(4, AppErrorRecords(error.value, keys))];
      WrittenOne(Envelope, items[0], Room(w));
    }
  }

  /** Envelope's encode_to. */
  method EncodeEnvelope(w: Writer, e: EnvelopeData) returns (ghost keys: seq<Str>)
    requires w.depth <= w.maxDepth
    modifies w
    ensures WalkOf(keys, e) && WellFormed(Envelope, EnvelopeRecords(e, keys))
    ensures After(w, old(w.buf), old(w.exceeded), Written(Envelope, EnvelopeRecords(e, keys), Room(w)))
  {
    hide Written, WellFormed, TextRecord, AppErrorRecords, ValidUtf8, Walk;
    ghost var room := Room(w);
    ghost var r1 := WriteStatus(w, e.status);
    WriteText(w, Envelope, 2, e.transportError);
    WriteText(w, Envelope, 3, e.data);
    ghost var r4: seq<Item>;
    keys, r4 := WriteError(w, e.error);
    FourWritten(Envelope, r1, TextRecord(2, e.transportError), TextRecord(3, e.data), r4, room, old(w.buf), old(w.exceeded));
  }

  lemma StatusWritten(status: I32, room: nat)
    ensures WellFormed(Envelope, [Number(1, status)])
    ensures Written(Envelope, [Number(1, status)], room)
         == Out(TagBytes(1, Varint) + VarintBytes(SignExtended(status)), false)
  {
    WrittenOne(Envelope, Number(1, status), room);
    hide Written, WellFormed, TagBytes, VarintBytes;
  }

  /** marshal_with of an envelope. */
  method MarshalEnvelope(e: EnvelopeData, maxDepth: nat) returns (out: Outcome<seq<Byte>>, ghost keys: seq<Str>)
    ensures WalkOf(keys, e) && WellFormed(Envelope, EnvelopeRecords(e, keys))
    ensures out == Marshal(Envelope, EnvelopeRecords(e, keys), maxDepth)
  {
    hide Written, WellFormed, EnvelopeRecords, WalkOf;
    var w := new Writer.Root(maxDepth);
    keys := EncodeEnvelope(w, e);
    ghost var written := Written(Envelope, EnvelopeRecords(e, keys), maxDepth);
    assert [] + written.bytes == written.bytes;
    out := if w.exceeded then Err(DepthExceeded) else Ok(w.buf);
  }
}
