/** The envelope's own types: which records each writes, in its field order and with
    zero fields left out, and that reading them returns the value. */
module Envelopes {
  import opened Options
  import opened Bytes
  import opened Wire
  import opened Codec
  import opened CodecTheorems
  import opened CodecValues
  import opened CodecListings

  type Str = s: seq<Byte> | ValidUtf8(s)
  type I32 = v: int | -0x8000_0000 <= v < 0x8000_0000

  datatype FieldErrorData = FieldErrorData(field: Str, code: Str, message: Str, args: seq<Str>)

  datatype AppErrorData =
    AppErrorData(code: Str, message: Str, args: seq<Str>, details: seq<FieldErrorData>, metadata: map<Str, Str>)

  datatype EnvelopeData =
    EnvelopeData(status: I32, transportError: Str, data: seq<Byte>, error: Option<AppErrorData>)

  // As message values.

  function WithText(m: Msg, num: nat, s: seq<Byte>): Msg {
    if s == [] then m else Msg(m.fields[num := VBytes(s)])
  }

  function Texts(xs: seq<Str>): (r: seq<Val>)
    ensures |r| == |xs|
  {
    seq(|xs|, i requires 0 <= i < |xs| => VBytes(xs[i]))
  }

  function FieldErrorMsg(e: FieldErrorData): Msg {
    With(WithText(WithText(WithText(EMPTY, 1, e.field), 2, e.code), 3, e.message), 4, VList(Texts(e.args)))
  }

  function DetailVals(ds: seq<FieldErrorData>): (r: seq<Val>)
    ensures |r| == |ds|
  {
    seq(|ds|, i requires 0 <= i < |ds| => VMsg(FieldErrorMsg(ds[i])))
  }

  function MetadataVals(t: map<Str, Str>): map<seq<Byte>, Val> {
    map k: Str | k in t :: VBytes(t[k])
  }

  function AppErrorMsg(e: AppErrorData): Msg {
    With(With(With(WithText(WithText(EMPTY, 1, e.code), 2, e.message), 3, VList(Texts(e.args))),
              4, VList(DetailVals(e.details))),
         5, VTable(MetadataVals(e.metadata)))
  }

  function WithInt(m: Msg, num: nat, v: I32): Msg {
    if v == 0 then m else Msg(m.fields[num := VInt(v)])
  }

  function EnvelopeMsg(e: EnvelopeData): Msg {
    var m := WithText(WithText(WithInt(EMPTY, 1, e.status), 2, e.transportError), 3, e.data);
    if e.error.None? then m else Msg(m.fields[4 := VMsg(AppErrorMsg(e.error.value))])
  }

  // The records, in the order encode_to writes them.

  function TextRecord(num: nat, s: seq<Byte>): seq<Item> {
    if s == [] then [] else [Leaf(num, s)]
  }

  function TextRecords(num: nat, xs: seq<Str>): seq<Item> {
    if xs == [] then [] else [Leaf(num, xs[0])] + TextRecords(num, xs[1..])
  }

  function FieldErrorRecords(e: FieldErrorData): seq<Item> {
    TextRecord(1, e.field) + (TextRecord(2, e.code) + (TextRecord(3, e.message) + TextRecords(4, e.args)))
  }

  function DetailRecords(num: nat, ds: seq<FieldErrorData>): seq<Item> {
    if ds == [] then [] else [Node(num, FieldErrorRecords(ds[0]))] + DetailRecords(num, ds[1..])
  }

  /** The map's keys, each once, in the order the map is walked. */
  ghost predicate Walk(keys: seq<Str>, t: map<Str, Str>) {
    && (forall k: Str :: k in keys <==> k in t)
    && (forall i, j :: 0 <= i < j < |keys| ==> keys[i] != keys[j])
  }

  function EntryRecord(num: nat, key: Str, v: Str): Item {
    Node(num, [Leaf(1, key), Leaf(2, v)])
  }

  function MetadataRecords(num: nat, t: map<Str, Str>, keys: seq<Str>): seq<Item>
    requires forall k :: k in keys ==> k in t
  {
    if keys == [] then [] else [EntryRecord(num, keys[0], t[keys[0]])] + MetadataRecords(num, t, keys[1..])
  }

  function AppErrorRecords(e: AppErrorData, keys: seq<Str>): seq<Item>
    requires Walk(keys, e.metadata)
  {
    TextRecord(1, e.code) + (TextRecord(2, e.message) + (TextRecords(3, e.args) + (DetailRecords(4, e.details)
      + MetadataRecords(5, e.metadata, keys))))
  }

  /** The keys of the envelope's map are those of its error. */
  ghost predicate WalkOf(keys: seq<Str>, e: EnvelopeData) {
    e.error.Some? ==> Walk(keys, e.error.value.metadata)
  }

  function EnvelopeRecords(e: EnvelopeData, keys: seq<Str>): seq<Item>
    requires WalkOf(keys, e)
  {
    var last := if e.error.None? then [] else [Node(4, AppErrorRecords(e.error.value, keys))];
    (if e.status == 0 then [] else [Number(1, e.status)]) + (TextRecord(2, e.transportError) + (TextRecord(3, e.data) + last))
  }

  // The records list the value.

  ghost predicate Before(m: Msg, num: nat) {
    forall n :: n in m.fields ==> n < num
  }

  lemma TextLists(kind: Kind, num: nat, s: seq<Byte>, m: Msg)
    requires Before(m, num) && 0 < num <= MAX_FIELD_NUMBER
    requires FieldOf(kind, num).Blob? || (FieldOf(kind, num).Text? && ValidUtf8(s))
    ensures Lists(kind, TextRecord(num, s), m, WithText(m, num, s)) && Before(WithText(m, num, s), num + 1)
  {
    if s == [] {
      ListsNothing(kind, m);
    } else {
      hide ValidUtf8, FieldOf;
      ListsOne(kind, Leaf(num, s), m, WithText(m, num, s));
    }
  }

  lemma {:induction false} TextsList(kind: Kind, num: nat, xs: seq<Str>, m: Msg, done: seq<Val>)
    requires num !in m.fields && 0 < num <= MAX_FIELD_NUMBER && FieldOf(kind, num).TextList?
    ensures Lists(kind, TextRecords(num, xs), With(m, num, VList(done)), With(m, num, VList(done + Texts(xs))))
    decreases |xs|
  {
    hide FieldOf, Lists, ValidUtf8;
    var from := With(m, num, VList(done));
    if xs == [] {
      assert done + Texts(xs) == done;
      ListsNothing(kind, from);
    } else {
      var v := VBytes(xs[0]);
      OneText(kind, num, xs[0], m, done);
      TextsList(kind, num, xs[1..], m, done + [v]);
      assert done + [v] + Texts(xs[1..]) == done + Texts(xs);
      ListsAppend(kind, [Leaf(num, xs[0])], TextRecords(num, xs[1..]), from, With(m, num, VList(done + [v])),
                  With(m, num, VList(done + Texts(xs))));
    }
  }

  lemma OneText(kind: Kind, num: nat, s: Str, m: Msg, done: seq<Val>)
    requires num !in m.fields && 0 < num <= MAX_FIELD_NUMBER && FieldOf(kind, num).TextList?
    ensures Lists(kind, [Leaf(num, s)], With(m, num, VList(done)), With(m, num, VList(done + [VBytes(s)])))
  {
    hide ValidUtf8, FieldOf;
    var from := With(m, num, VList(done));
    assert ListIn(from, num) == done;
    ListsOne(kind, Leaf(num, s), from, With(m, num, VList(done + [VBytes(s)])));
  }

  lemma FieldErrorLists(e: FieldErrorData)
    ensures Lists(FieldError, FieldErrorRecords(e), EMPTY, FieldErrorMsg(e))
  {
    hide Lists, WithText, With, TextRecord, TextRecords, Before, ValidUtf8;
    var m1 := WithText(EMPTY, 1, e.field);
    var m2 := WithText(m1, 2, e.code);
    var m3 := WithText(m2, 3, e.message);
    NothingBefore(1);
    TextLists(FieldError, 1, e.field, EMPTY);
    TextLists(FieldError, 2, e.code, m1);
    TextLists(FieldError, 3, e.message, m2);
    AllTexts(FieldError, 4, e.args, m3);
    ListsAppend(FieldError, TextRecord(3, e.message), TextRecords(4, e.args), m2, m3, FieldErrorMsg(e));
    ListsAppend(FieldError, TextRecord(2, e.code), TextRecord(3, e.message) + TextRecords(4, e.args), m1, m2, FieldErrorMsg(e));
    ListsAppend(FieldError, TextRecord(1, e.field),
                TextRecord(2, e.code) + (TextRecord(3, e.message) + TextRecords(4, e.args)), EMPTY, m1, FieldErrorMsg(e));
  }

  lemma NothingBefore(num: nat)
    ensures Before(EMPTY, num)
  {}

  /** A list from its first element on. */
  lemma AllTexts(kind: Kind, num: nat, xs: seq<Str>, m: Msg)
    requires Before(m, num) && 0 < num <= MAX_FIELD_NUMBER && FieldOf(kind, num).TextList?
    ensures Lists(kind, TextRecords(num, xs), m, With(m, num, VList(Texts(xs)))) && Before(With(m, num, VList(Texts(xs))), num + 1)
  {
    hide FieldOf, Lists;
    TextsList(kind, num, xs, m, []);
    assert [] + Texts(xs) == Texts(xs);
  }

  lemma {:induction false} DetailsList(ds: seq<FieldErrorData>, m: Msg, done: seq<Val>)
    requires 4 !in m.fields
    ensures Lists(AppError, DetailRecords(4, ds), With(m, 4, VList(done)), With(m, 4, VList(done + DetailVals(ds))))
    decreases |ds|
  {
    hide Lists, FieldErrorRecords, FieldErrorMsg;
    var from := With(m, 4, VList(done));
    if ds == [] {
      assert done + DetailVals(ds) == done;
      ListsNothing(AppError, from);
    } else {
      var v := VMsg(FieldErrorMsg(ds[0]));
      OneDetail(ds[0], m, done);
      DetailsList(ds[1..], m, done + [v]);
      assert done + [v] + DetailVals(ds[1..]) == done + DetailVals(ds);
      ListsAppend(AppError, [Node(4, FieldErrorRecords(ds[0]))], DetailRecords(4, ds[1..]), from, With(m, 4, VList(done + [v])),
                  With(m, 4, VList(done + DetailVals(ds))));
    }
  }

  lemma OneDetail(d: FieldErrorData, m: Msg, done: seq<Val>)
    requires 4 !in m.fields
    ensures Lists(AppError, [Node(4, FieldErrorRecords(d))], With(m, 4, VList(done)),
                  With(m, 4, VList(done + [VMsg(FieldErrorMsg(d))])))
  {
    FieldErrorLists(d);
    hide FieldErrorRecords, FieldErrorMsg, Meaning, WellFormed, Listing;
    var from := With(m, 4, VList(done));
    assert ListIn(from, 4) == done;
    ListsOne(AppError, Node(4, FieldErrorRecords(d)), from, With(m, 4, VList(done + [VMsg(FieldErrorMsg(d))])));
  }

  /** The entries of some keys. */
  function Picked(t: map<Str, Str>, keys: seq<Str>): (r: map<seq<Byte>, Val>)
    requires forall k :: k in keys ==> k in t
  {
    if keys == [] then map[] else map[keys[0] := VBytes(t[keys[0]])] + Picked(t, keys[1..])
  }

  lemma {:induction false} PickedIs(t: map<Str, Str>, keys: seq<Str>)
    requires forall k :: k in keys ==> k in t
    ensures forall k :: k in Picked(t, keys) <==> k in keys
    ensures forall k :: k in keys ==> Picked(t, keys)[k] == VBytes(t[k])
    decreases |keys|
  {
    hide ValidUtf8;
    if keys != [] {
      PickedIs(t, keys[1..]);
      assert keys == [keys[0]] + keys[1..];
    }
  }

  lemma PickedAll(t: map<Str, Str>, keys: seq<Str>)
    requires Walk(keys, t)
    ensures Picked(t, keys) == MetadataVals(t)
  {
    hide Picked, ValidUtf8;
    PickedIs(t, keys);
  }

  lemma JoinEntry(done: map<seq<Byte>, Val>, key: seq<Byte>, v: Val, rest: map<seq<Byte>, Val>)
    ensures done[key := v] + rest == done + (map[key := v] + rest)
  {}

  ghost predicate Distinct(keys: seq<Str>, done: map<seq<Byte>, Val>) {
    && (forall i :: 0 <= i < |keys| ==> keys[i] !in done)
    && (forall i, j :: 0 <= i < j < |keys| ==> keys[i] != keys[j])
  }

  lemma DistinctRest(keys: seq<Str>, done: map<seq<Byte>, Val>, v: Val)
    requires Distinct(keys, done) && keys != []
    ensures keys[0] !in done && Distinct(keys[1..], done[keys[0] := v])
  {
    hide ValidUtf8;
  }

  /** A map whose entries are pairs of strings. */
  predicate TextTable(kind: Kind, num: nat) {
    && 0 < num <= MAX_FIELD_NUMBER && FieldOf(kind, num).Table?
    && FieldOf(FieldOf(kind, num).kind, 1).Text? && FieldOf(FieldOf(kind, num).kind, 2).Text?
  }

  lemma {:induction false} MetadataList(kind: Kind, num: nat, t: map<Str, Str>, keys: seq<Str>, m: Msg, done: map<seq<Byte>, Val>)
    requires TextTable(kind, num) && num !in m.fields && (forall k :: k in keys ==> k in t) && Distinct(keys, done)
    ensures Lists(kind, MetadataRecords(num, t, keys), With(m, num, VTable(done)), With(m, num, VTable(done + Picked(t, keys))))
    decreases |keys|
  {
    hide Lists, EntryRecord, With, Distinct, ValidUtf8, TextTable;
    if keys == [] {
      assert done + map[] == done;
      ListsNothing(kind, With(m, num, VTable(done)));
    } else {
      var key, v := keys[0], VBytes(t[keys[0]]);
      DistinctRest(keys, done, v);
      OneEntry(kind, num, key, t[key], m, done);
      MetadataList(kind, num, t, keys[1..], m, done[key := v]);
      JoinEntry(done, key, v, Picked(t, keys[1..]));
      ListsAppend(kind, [EntryRecord(num, key, t[key])], MetadataRecords(num, t, keys[1..]), With(m, num, VTable(done)),
                  With(m, num, VTable(done[key := v])), With(m, num, VTable(done + Picked(t, keys))));
    }
  }

  lemma OneEntry(kind: Kind, num: nat, key: Str, v: Str, m: Msg, done: map<seq<Byte>, Val>)
    requires TextTable(kind, num) && num !in m.fields && key !in done
    ensures Lists(kind, [EntryRecord(num, key, v)], With(m, num, VTable(done)), With(m, num, VTable(done[key := VBytes(v)])))
  {
    var from := With(m, num, VTable(done));
    assert TableIn(from, num) == done;
    assert key in done[key := VBytes(v)];
    hide ValidUtf8, FieldOf;
    EntryRecords(FieldOf(kind, num).kind, key, Leaf(2, v), VBytes(v));
    hide EntryItems, Meaning, WellFormed;
    ListsOne(kind, EntryRecord(num, key, v), from, With(m, num, VTable(done[key := VBytes(v)])));
  }

  /** Each of these joins a value that has nothing from its field on. */
  lemma AllDetails(ds: seq<FieldErrorData>, m: Msg)
    requires Before(m, 4)
    ensures Lists(AppError, DetailRecords(4, ds), m, With(m, 4, VList(DetailVals(ds)))) && Before(With(m, 4, VList(DetailVals(ds))), 5)
  {
    hide Lists, DetailRecords, DetailVals;
    DetailsList(ds, m, []);
    assert [] + DetailVals(ds) == DetailVals(ds);
  }

  lemma AllEntries(kind: Kind, num: nat, t: map<Str, Str>, keys: seq<Str>, m: Msg)
    requires TextTable(kind, num) && Before(m, num) && Walk(keys, t)
    ensures Lists(kind, MetadataRecords(num, t, keys), m, With(m, num, VTable(MetadataVals(t))))
  {
    hide Lists, MetadataRecords, MetadataVals, Picked, ValidUtf8, TextTable;
    MetadataList(kind, num, t, keys, m, map[]);
    PickedAll(t, keys);
    assert map[] + MetadataVals(t) == MetadataVals(t);
  }

  lemma AppErrorLists(e: AppErrorData, keys: seq<Str>)
    requires Walk(keys, e.metadata)
    ensures Lists(AppError, AppErrorRecords(e, keys), EMPTY, AppErrorMsg(e))
  {
    assert forall k :: k in keys ==> k in e.metadata;
    hide Lists, WithText, With, TextRecord, TextRecords, DetailRecords, MetadataRecords, Before, ValidUtf8, Walk;
    hide Texts, DetailVals, MetadataVals;
    var m1 := WithText(EMPTY, 1, e.code);
    var m2 := WithText(m1, 2, e.message);
    var m3 := With(m2, 3, VList(Texts(e.args)));
    var m4 := With(m3, 4, VList(DetailVals(e.details)));
    var r5 := MetadataRecords(5, e.metadata, keys);
    var r4, r3, r2 := DetailRecords(4, e.details), TextRecords(3, e.args), TextRecord(2, e.message);
    NothingBefore(1);
    TextLists(AppError, 1, e.code, EMPTY);
    TextLists(AppError, 2, e.message, m1);
    AllTexts(AppError, 3, e.args, m2);
    AllDetails(e.details, m3);
    AllEntries(AppError, 5, e.metadata, keys, m4);
    ListsAppend(AppError, r4, r5, m3, m4, AppErrorMsg(e));
    ListsAppend(AppError, r3, r4 + r5, m2, m3, AppErrorMsg(e));
    ListsAppend(AppError, r2, r3 + (r4 + r5), m1, m2, AppErrorMsg(e));
    ListsAppend(AppError, TextRecord(1, e.code), r2 + (r3 + (r4 + r5)), EMPTY, m1, AppErrorMsg(e));
  }

  lemma EnvelopeLists(e: EnvelopeData, keys: seq<Str>)
    requires WalkOf(keys, e)
    ensures Lists(Envelope, EnvelopeRecords(e, keys), EMPTY, EnvelopeMsg(e))
  {
    hide Lists, WithText, WithInt, TextRecord, AppErrorRecords, AppErrorMsg, Before, ValidUtf8, Walk;
    var m1 := WithInt(EMPTY, 1, e.status);
    var m2 := WithText(m1, 2, e.transportError);
    var m3 := WithText(m2, 3, e.data);
    var r1 := if e.status == 0 then [] else [Number(1, e.status)];
    var r2, r3 := TextRecord(2, e.transportError), TextRecord(3, e.data);
    var r4 := if e.error.None? then [] else [Node(4, AppErrorRecords(e.error.value, keys))];
    StatusLists(e.status);
    TextLists(Envelope, 2, e.transportError, m1);
    TextLists(Envelope, 3, e.data, m2);
    ErrorLists(e, keys, m3);
    ListsAppend(Envelope, r3, r4, m2, m3, EnvelopeMsg(e));
    ListsAppend(Envelope, r2, r3 + r4, m1, m2, EnvelopeMsg(e));
    ListsAppend(Envelope, r1, r2 + (r3 + r4), EMPTY, m1, EnvelopeMsg(e));
  }

  lemma StatusLists(status: I32)
    ensures var m := WithInt(EMPTY, 1, status);
            Lists(Envelope, if status == 0 then [] else [Number(1, status)], EMPTY, m) && Before(m, 2)
  {
    if status == 0 {
      ListsNothing(Envelope, EMPTY);
    } else {
      ListsOne(Envelope, Number(1, status), EMPTY, WithInt(EMPTY, 1, status));
    }
  }

  lemma ErrorLists(e: EnvelopeData, keys: seq<Str>, m: Msg)
    requires WalkOf(keys, e) && Before(m, 4)
    ensures if e.error.None? then Lists(Envelope, [], m, m)
            else Lists(Envelope, [Node(4, AppErrorRecords(e.error.value, keys))], m, Msg(m.fields[4 := VMsg(AppErrorMsg(e.error.value))]))
  {
    hide AppErrorRecords, AppErrorMsg, Walk, Lists, Before, ValidUtf8;
    if e.error.None? {
      ListsNothing(Envelope, m);
    } else {
      AppErrorLists(e.error.value, keys);
      SubLists(Envelope, 4, AppErrorRecords(e.error.value, keys), m, AppErrorMsg(e.error.value));
    }
  }

  lemma SubLists(kind: Kind, num: nat, items: seq<Item>, m: Msg, sub: Msg)
    requires FieldOf(kind, num).Sub? && 0 < num <= MAX_FIELD_NUMBER && Before(m, num)
    requires Lists(FieldOf(kind, num).kind, items, EMPTY, sub)
    ensures Lists(kind, [Node(num, items)], m, Msg(m.fields[num := VMsg(sub)]))
  {
    hide FieldOf, Meaning, WellFormed, Listing;
    ListsOne(kind, Node(num, items), m, Msg(m.fields[num := VMsg(sub)]));
  }

  // Reading the value off its message.

  function TextOf(m: Msg, num: nat): Str {
    if ValidUtf8(BytesIn(m, num)) then BytesIn(m, num) else []
  }

  function TextIn(v: Val): Str {
    if v.VBytes? && ValidUtf8(v.bytes) then v.bytes else []
  }

  function TextsOf(m: Msg, num: nat): seq<Str> {
    var list := ListIn(m, num);
    seq(|list|, i requires 0 <= i < |list| => TextIn(list[i]))
  }

  function FieldErrorOf(m: Msg): FieldErrorData {
    FieldErrorData(TextOf(m, 1), TextOf(m, 2), TextOf(m, 3), TextsOf(m, 4))
  }

  function AppErrorOf(m: Msg): AppErrorData {
    var details, table := ListIn(m, 4), TableIn(m, 5);
    AppErrorData(TextOf(m, 1), TextOf(m, 2), TextsOf(m, 3),
                 seq(|details|, i requires 0 <= i < |details| => FieldErrorOf(if details[i].VMsg? then details[i].msg else EMPTY)),
                 map k | k in table && ValidUtf8(k) :: k := TextIn(table[k]))
  }

  function EnvelopeOf(m: Msg): EnvelopeData {
    EnvelopeData(if 1 in m.fields && m.fields[1].VInt? && -0x8000_0000 <= m.fields[1].number < 0x8000_0000
                 then m.fields[1].number else 0,
                 TextOf(m, 2), BytesIn(m, 3),
                 if 4 in m.fields && m.fields[4].VMsg? then Some(AppErrorOf(m.fields[4].msg)) else None)
  }

  lemma TextsBack(m: Msg, num: nat, xs: seq<Str>)
    requires ListIn(m, num) == Texts(xs)
    ensures TextsOf(m, num) == xs
  {
    hide ValidUtf8;
    assert |TextsOf(m, num)| == |xs|;
    forall i | 0 <= i < |xs| ensures TextsOf(m, num)[i] == xs[i] {}
  }

  lemma FieldErrorBack(e: FieldErrorData)
    ensures FieldErrorOf(FieldErrorMsg(e)) == e
  {
    hide ValidUtf8;
    var m := FieldErrorMsg(e);
    assert BytesIn(m, 1) == e.field && BytesIn(m, 2) == e.code && BytesIn(m, 3) == e.message;
    assert ListIn(m, 4) == Texts(e.args);
    TextsBack(m, 4, e.args);
  }

  lemma AppErrorFields(e: AppErrorData)
    ensures var m := AppErrorMsg(e);
            && BytesIn(m, 1) == e.code && BytesIn(m, 2) == e.message && ListIn(m, 3) == Texts(e.args)
            && ListIn(m, 4) == DetailVals(e.details) && TableIn(m, 5) == MetadataVals(e.metadata)
  {
    hide ValidUtf8, Texts, DetailVals, MetadataVals;
  }

  lemma AppErrorBack(e: AppErrorData)
    ensures AppErrorOf(AppErrorMsg(e)) == e
  {
    hide ValidUtf8, FieldErrorOf, FieldErrorMsg, AppErrorMsg;
    var m := AppErrorMsg(e);
    AppErrorFields(e);
    TextsBack(m, 3, e.args);
    var back := AppErrorOf(m);
    forall i | 0 <= i < |e.details| ensures back.details[i] == e.details[i] {
      FieldErrorBack(e.details[i]);
    }
    assert back.details == e.details;
    assert back.metadata == e.metadata;
  }

  lemma EnvelopeBack(e: EnvelopeData)
    ensures EnvelopeOf(EnvelopeMsg(e)) == e
  {
    hide ValidUtf8, AppErrorOf, AppErrorMsg;
    if e.error.Some? {
      AppErrorBack(e.error.value);
    }
  }

  // Limits.

  /** An error is one descent, and anything repeated in it of message type, or a map
      entry, a second. */
  function EnvelopeDepth(e: EnvelopeData): nat {
    if e.error.None? then 0
    else if e.error.value.details == [] && e.error.value.metadata == map[] then 1
    else 2
  }

  predicate AppErrorCounts(e: AppErrorData, n: nat) {
    && |e.args| <= n && |e.details| <= n && |e.metadata| <= n
    && forall i :: 0 <= i < |e.details| ==> |e.details[i].args| <= n
  }

  predicate EnvelopeCounts(e: EnvelopeData, n: nat) {
    e.error.Some? ==> AppErrorCounts(e.error.value, n)
  }

  predicate Bounded(m: Msg, room: nat, n: nat, fits: bool, counts: bool) {
    (Fits(m, room) <==> fits) && (Within(m, n) <==> counts)
  }

  lemma TextLimits(m: Msg, num: nat, s: seq<Byte>, room: nat, n: nat, fits: bool, counts: bool)
    requires Before(m, num) && Bounded(m, room, n, fits, counts)
    ensures Bounded(WithText(m, num, s), room, n, fits, counts) && Before(WithText(m, num, s), num + 1)
  {
    hide Fits, Within;
    PutLimits(m, num, VBytes(s), room, n);
  }

  lemma JoinLimits(m: Msg, num: nat, v: Val, room: nat, n: nat, fits: bool, counts: bool)
    requires Before(m, num) && Bounded(m, room, n, fits, counts)
    ensures Before(With(m, num, v), num + 1)
    ensures var drop := v == VList([]) || v == VTable(map[]);
            Bounded(With(m, num, v), room, n, fits && (drop || FitsVal(v, room)), counts && (drop || WithinVal(v, n)))
  {
    hide Fits, Within, FitsVal, WithinVal;
    PutLimits(m, num, v, room, n);
  }

  lemma TextsLimits(xs: seq<Str>, room: nat, n: nat)
    ensures FitsVal(VList(Texts(xs)), room) && (WithinVal(VList(Texts(xs)), n) <==> |xs| <= n)
  {
    hide ValidUtf8;
  }

  lemma FieldErrorLimits(e: FieldErrorData, room: nat, n: nat)
    ensures Bounded(FieldErrorMsg(e), room, n, true, |e.args| <= n)
  {
    var m1 := WithText(EMPTY, 1, e.field);
    var m2 := WithText(m1, 2, e.code);
    var m3 := WithText(m2, 3, e.message);
    hide ValidUtf8, Bounded, FitsVal, WithinVal, With, WithText, Before, Texts, DetailVals, MetadataVals;
    NothingBefore(1);
    NothingBounded(room, n);
    TextLimits(EMPTY, 1, e.field, room, n, true, true);
    TextLimits(m1, 2, e.code, room, n, true, true);
    TextLimits(m2, 3, e.message, room, n, true, true);
    TextsLimits(e.args, room, n);
    JoinLimits(m3, 4, VList(Texts(e.args)), room, n, true, true);
  }

  lemma NothingBounded(room: nat, n: nat)
    ensures Bounded(EMPTY, room, n, true, true)
  {}

  lemma DetailsLimits(ds: seq<FieldErrorData>, room: nat, n: nat)
    ensures FitsVal(VList(DetailVals(ds)), room) <==> ds == [] || room > 0
    ensures WithinVal(VList(DetailVals(ds)), n) <==> |ds| <= n && forall i :: 0 <= i < |ds| ==> |ds[i].args| <= n
  {
    hide FieldErrorMsg, Fits, Within;
    var vs := DetailVals(ds);
    forall i | 0 <= i < |ds|
      ensures (FitsVal(vs[i], room) <==> room > 0) && (WithinVal(vs[i], n) <==> |ds[i].args| <= n) {
      FieldErrorLimits(ds[i], if room > 0 then room - 1 else 0, n);
    }
    hide DetailVals;
    if ds != [] && FitsVal(VList(vs), room) {
      assert FitsVal(vs[0], room);
    }
  }

  lemma MetadataLimits(t: map<Str, Str>, room: nat, n: nat)
    ensures t != map[] ==> (FitsVal(VTable(MetadataVals(t)), room) <==> room > 0)
    ensures WithinVal(VTable(MetadataVals(t)), n) <==> |t| <= n
    ensures MetadataVals(t) == map[] <==> t == map[]
  {
    hide ValidUtf8;
    assert MetadataVals(t).Keys == t.Keys;
    assert |MetadataVals(t)| == |t| by {
      assert |MetadataVals(t).Keys| == |t.Keys|;
    }
  }

  lemma AppErrorLimits(e: AppErrorData, room: nat, n: nat)
    ensures Bounded(AppErrorMsg(e), room, n, (e.details == [] && e.metadata == map[]) || room > 0, AppErrorCounts(e, n))
  {
    var m1 := WithText(EMPTY, 1, e.code);
    var m2 := WithText(m1, 2, e.message);
    var m3 := With(m2, 3, VList(Texts(e.args)));
    var m4 := With(m3, 4, VList(DetailVals(e.details)));
    hide ValidUtf8, Bounded, FitsVal, WithinVal, With, WithText, Before, Texts, DetailVals, MetadataVals;
    NothingBefore(1);
    NothingBounded(room, n);
    TextLimits(EMPTY, 1, e.code, room, n, true, true);
    TextLimits(m1, 2, e.message, room, n, true, true);
    TextsLimits(e.args, room, n);
    JoinLimits(m2, 3, VList(Texts(e.args)), room, n, true, true);
    DetailsLimits(e.details, room, n);
    JoinLimits(m3, 4, VList(DetailVals(e.details)), room, n, true, |e.args| <= n);
    MetadataLimits(e.metadata, room, n);
    JoinLimits(m4, 5, VTable(MetadataVals(e.metadata)), room, n, e.details == [] || room > 0,
               |e.args| <= n && |e.details| <= n && forall i :: 0 <= i < |e.details| ==> |e.details[i].args| <= n);
  }

  lemma EnvelopeLimits(e: EnvelopeData, room: nat, n: nat)
    ensures Bounded(EnvelopeMsg(e), room, n, EnvelopeDepth(e) <= room, EnvelopeCounts(e, n))
  {
    var m1 := WithInt(EMPTY, 1, e.status);
    var m2 := WithText(m1, 2, e.transportError);
    var m3 := WithText(m2, 3, e.data);
    hide ValidUtf8, AppErrorMsg, AppErrorCounts, Fits, Within, WithText, Before;
    NothingBounded(room, n);
    StatusLists(e.status);
    PutLimits(EMPTY, 1, VInt(e.status), room, n);
    TextLimits(m1, 2, e.transportError, room, n, true, true);
    TextLimits(m2, 3, e.data, room, n, true, true);
    if e.error.Some? {
      AppErrorLimits(e.error.value, if room > 0 then room - 1 else 0, n);
      NotThere(m3, 4);
      PutLimits(m3, 4, VMsg(AppErrorMsg(e.error.value)), room, n);
    }
  }

  lemma NotThere(m: Msg, num: nat)
    requires Before(m, num)
    ensures num !in m.fields
  {}

  // The theorem.

  /** An envelope is written exactly when its depth is within the writer's limit,
      whatever order its map is walked in. What is written is read back as it exactly
      when its size, depth and counts are within the reader's limits. */
  lemma EnvelopeReturns(e: EnvelopeData, keys: seq<Str>, maxDepth: nat, limits: Limits)
    requires WalkOf(keys, e)
    ensures WellFormed(Envelope, EnvelopeRecords(e, keys))
    ensures var bytes := Encode(Envelope, EnvelopeRecords(e, keys));
            && Marshal(Envelope, EnvelopeRecords(e, keys), maxDepth)
               == (if EnvelopeDepth(e) <= maxDepth then Ok(bytes) else Err(DepthExceeded))
            && (|bytes| < U64_SIZE ==>
                  var r := Unmarshal(Envelope, bytes, limits);
                  && (r.Ok? <==> |bytes| <= limits.maxSize && EnvelopeDepth(e) <= limits.maxDepth
                                 && EnvelopeCounts(e, limits.maxCount))
                  && (r.Ok? ==> EnvelopeOf(r.value) == e))
  {
    hide *;
    var items := EnvelopeRecords(e, keys);
    EnvelopeLists(e, keys);
    ListsMean(Envelope, items, EnvelopeMsg(e));
    MarshalFailsByDepth(Envelope, items, maxDepth);
    EnvelopeLimits(e, maxDepth, 0);
    BoundedMeans(EnvelopeMsg(e), maxDepth, 0, EnvelopeDepth(e) <= maxDepth, EnvelopeCounts(e, 0));
    EnvelopeBack(e);
    if |Encode(Envelope, items)| < U64_SIZE {
      EnvelopeLimits(e, limits.maxDepth, limits.maxCount);
      BoundedMeans(EnvelopeMsg(e), limits.maxDepth, limits.maxCount, EnvelopeDepth(e) <= limits.maxDepth,
                   EnvelopeCounts(e, limits.maxCount));
      EmptyLimits(Envelope, limits.maxDepth, limits.maxCount);
      ListingLimits(Envelope, items, EMPTY, limits.maxDepth, limits.maxCount);
      DecodesToMeaning(Envelope, items, limits);
    }
  }

  lemma ListsMean(kind: Kind, items: seq<Item>, m: Msg)
    requires Lists(kind, items, EMPTY, m)
    ensures WellFormed(kind, items) && Listing(kind, items, EMPTY) && Meaning(kind, items, EMPTY) == m
  {}

  lemma BoundedMeans(m: Msg, room: nat, n: nat, fits: bool, counts: bool)
    requires Bounded(m, room, n, fits, counts)
    ensures (Fits(m, room) <==> fits) && (Within(m, n) <==> counts)
  {}
}
