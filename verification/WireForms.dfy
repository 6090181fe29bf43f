/** The bytes on the wire: varints, tags, signed numbers and skipped values by the
    protobuf encoding, and the bytes of an envelope and of a tree. */
module WireForms {
  import opened Powers
  import opened Options
  import opened Bytes
  import opened Wire
  import opened Codec
  import opened Envelopes
  import opened Trees

  // Varints.

  /** The number the low seven bits of the bytes make, least significant first. */
  function Sevens(b: seq<Byte>): nat {
    if b == [] then 0 else b[0] % 0x80 + 0x80 * Sevens(b[1..])
  }

  /** All bytes but the last say that more follow. */
  predicate Chained(b: seq<Byte>) {
    b != [] && b[|b| - 1] < 0x80 && forall i :: 0 <= i < |b| - 1 ==> b[i] >= 0x80
  }

  /** No shorter bytes make the number. */
  predicate Shortest(b: seq<Byte>) {
    Chained(b) && (|b| > 1 ==> b[|b| - 1] != 0)
  }

  /** A number's varint is the one shortest chain of its seven-bit groups. */
  lemma {:induction false} VarintExactly(v: nat, b: seq<Byte>)
    ensures b == VarintBytes(v) <==> Shortest(b) && Sevens(b) == v
    decreases v
  {
    VarintShortest(v);
    if Shortest(b) && Sevens(b) == v {
      ShortestOnce(b, VarintBytes(v));
    }
  }

  lemma {:induction false} VarintShortest(v: nat)
    ensures Shortest(VarintBytes(v)) && Sevens(VarintBytes(v)) == v
    decreases v
  {
    var b := VarintBytes(v);
    if v >= 0x80 {
      VarintShortest(v / 0x80);
      var rest := VarintBytes(v / 0x80);
      assert b[1..] == rest && b[|b| - 1] == rest[|rest| - 1];
      assert forall i :: 0 < i < |b| ==> b[i] == rest[i - 1];
    } else {
      assert b[1..] == [] && Sevens([]) == 0;
    }
  }

  lemma {:induction false} RestShortest(b: seq<Byte>)
    requires Shortest(b) && |b| > 1
    ensures Shortest(b[1..]) && Sevens(b) == b[0] % 0x80 + 0x80 * Sevens(b[1..])
  {
    var rest := b[1..];
    assert rest[|rest| - 1] == b[|b| - 1];
    assert forall i :: 0 <= i < |rest| ==> rest[i] == b[i + 1];
  }

  lemma {:induction false} OneByte(b: seq<Byte>)
    requires Shortest(b) && |b| == 1
    ensures b == [b[0]] && Sevens(b) == b[0] < 0x80
  {
    assert b[1..] == [] && Sevens([]) == 0;
  }

  lemma {:induction false} NotZero(b: seq<Byte>)
    requires Shortest(b) && |b| > 1
    ensures Sevens(b) >= 0x80
    decreases |b|
  {
    RestShortest(b);
    if |b| > 2 {
      NotZero(b[1..]);
    } else {
      OneByte(b[1..]);
      assert b[1..][0] == b[|b| - 1];
    }
  }

  lemma {:induction false} ShortestOnce(a: seq<Byte>, b: seq<Byte>)
    requires Shortest(a) && Shortest(b) && Sevens(a) == Sevens(b)
    ensures a == b
    decreases |a|
  {
    if |a| > 1 {
      NotZero(a);
      RestShortest(a);
    } else {
      OneByte(a);
    }
    if |b| > 1 {
      NotZero(b);
      RestShortest(b);
    } else {
      OneByte(b);
    }
    hide Sevens, Shortest;
    if |a| > 1 {
      assert a[0] % 0x80 == b[0] % 0x80 && Sevens(a[1..]) == Sevens(b[1..]);
      ShortestOnce(a[1..], b[1..]);
      FirstByte(a, b);
    }
  }

  lemma {:induction false} FirstByte(a: seq<Byte>, b: seq<Byte>)
    requires Shortest(a) && Shortest(b) && |a| > 1 && |b| > 1 && a[0] % 0x80 == b[0] % 0x80 && a[1..] == b[1..]
    ensures a == b
  {
    assert a == [a[0]] + a[1..] && b == [b[0]] + b[1..];
  }

  /** A chain of at most ten bytes is read as its number, cut to 64 bits, and no other
      bytes are. */
  lemma {:induction false} ReadExactly(data: seq<Byte>, pos: nat, v: nat, next: nat)
    ensures ReadVarint(data, pos) == Got(v, next)
       <==> pos < next <= |data| && next - pos <= 10 && Chained(data[pos..next]) && v == Sevens(data[pos..next]) % U64_SIZE
  {
    if pos < next <= |data| && next - pos <= 10 && Chained(data[pos..next]) {
      ChainRead(data, pos, next, 0);
      ShiftedSum(data[pos..next], 0);
      assert Pow(2, 7 * 0) == 1;
    }
    if ReadVarint(data, pos).Got? {
      var end := ReadVarint(data, pos).next;
      ReadChained(data, pos, 0);
      ChainRead(data, pos, end, 0);
      ShiftedSum(data[pos..end], 0);
      assert Pow(2, 7 * 0) == 1;
    }
  }

  /** The groups in place, each cut to 64 bits. */
  function Shifts(b: seq<Byte>, i: nat): nat {
    if b == [] then 0 else Shifted(b[0], i) + Shifts(b[1..], i + 1)
  }

  lemma {:induction false} ChainRead(data: seq<Byte>, pos: nat, next: nat, i: nat)
    requires pos < next <= |data| && i + (next - pos) <= 10 && Chained(data[pos..next])
    ensures VarintAt(data, pos, i) == Got(Shifts(data[pos..next], i), next)
    decreases next - pos
  {
    hide Shifted;
    var b := data[pos..next];
    assert b[0] == data[pos] && b[1..] == data[pos + 1..next];
    if next == pos + 1 {
      assert Shifts(b[1..], i + 1) == 0;
    } else {
      assert b[|b| - 1] == data[pos + 1..next][|b| - 2];
      assert forall k :: 0 <= k < |b| - 1 ==> b[1..][k] == b[k + 1];
      ChainRead(data, pos + 1, next, i + 1);
    }
  }

  lemma {:induction false} ReadChained(data: seq<Byte>, pos: nat, i: nat)
    requires i <= 10 && VarintAt(data, pos, i).Got?
    ensures var next := VarintAt(data, pos, i).next;
            pos < next <= |data| && next - pos + i <= 10 && Chained(data[pos..next])
    decreases 10 - i
  {
    var next := VarintAt(data, pos, i).next;
    var b := data[pos..next];
    assert b[0] == data[pos];
    if data[pos] >= 0x80 {
      ReadChained(data, pos + 1, i + 1);
      var rest := data[pos + 1..next];
      assert b[|b| - 1] == rest[|rest| - 1];
      assert forall k :: 0 < k < |b| ==> b[k] == rest[k - 1];
    }
  }

  lemma {:induction false} WholePowers(i: nat)
    requires i < 9
    ensures Pow(2, 7 * i) > 0 && Pow(2, 7 * (i + 1)) == 0x80 * Pow(2, 7 * i)
    ensures U64_SIZE == Pow(2, 7 * (i + 1)) * Pow(2, 64 - 7 * (i + 1))
  {
    Seven();
    PowAdd(2, 7, 7 * i);
    PowAdd(2, 7 * (i + 1), 64 - 7 * (i + 1));
    SixtyFour();
  }

  lemma {:induction false} SixtyFour()
    ensures Pow(2, 64) == U64_SIZE
  {
    assert Pow(2, 8) == 0x100;
    PowAdd(2, 8, 8);
    PowAdd(2, 16, 16);
    PowAdd(2, 32, 32);
  }

  lemma {:induction false} Units(s: nat, unit: nat, q: nat)
    requires q > 0
    ensures s * unit == s / q * (unit * q) + unit * (s % q)
  {
    assert s == s / q * q + s % q;
    Spread(unit, s / q * q, s % q);
    assert unit * (s / q * q) == s / q * (unit * q) by {
      Assoc(unit, s / q, q);
      Assoc(s / q, unit, q);
    }
  }

  lemma {:induction false} Below(low: nat, s: nat, unit: nat, q: nat)
    requires low < unit && q > 0
    ensures unit * q > 0 && unit * (s % q) + low < unit * q
  {
    MulLe(unit, unit, s % q, q - 1);
    Less(unit, q);
    MulLe(unit, unit, 0, s % q);
  }

  /** Low bits below a unit that divides the size are not cut. */
  lemma {:induction false} LowBits(low: nat, s: nat, unit: nat, q: nat)
    requires low < unit && q > 0
    ensures unit * q > 0 && low + (s * unit) % (unit * q) == (low + s * unit) % (unit * q)
  {
    Units(s, unit, q);
    Below(low, s, unit, q);
    var m, high, n := unit * q, unit * (s % q), s * unit;
    MulLe(0, unit, s % q, s % q);
    Cut(n, m, s / q, high, low);
  }

  lemma {:induction false} Cut(n: nat, m: nat, k: nat, high: int, low: nat)
    requires m > 0 && n == k * m + high && 0 <= high && high + low < m
    ensures low + n % m == (low + n) % m
  {
    DivModUnique(n, m, k, high);
    DivModUnique(low + n, m, k, low + high);
  }

  lemma {:induction false} Less(unit: nat, q: nat)
    requires q > 0
    ensures unit * (q - 1) == unit * q - unit
  {}

  lemma {:induction false} Spread(unit: nat, a: nat, b: nat)
    ensures (a + b) * unit == unit * a + unit * b
  {}

  /** The groups in place are the number, cut to 64 bits. */
  lemma {:induction false} ShiftedSum(b: seq<Byte>, i: nat)
    requires |b| + i <= 10
    ensures Shifts(b, i) == Sevens(b) * Pow(2, 7 * i) % U64_SIZE
    decreases |b|
  {
    hide Pow;
    var p := Pow(2, 7 * i);
    if b == [] {
      assert 0 * p % U64_SIZE == 0;
    } else if i == 9 {
      assert |b| == 1 && b[1..] == [] && Shifts([], 10) == 0 && Sevens([]) == 0;
    } else {
      var r, rest := b[0] % 0x80, b[1..];
      ShiftedSum(rest, i + 1);
      WholePowers(i);
      var unit, q := Pow(2, 7 * (i + 1)), Pow(2, 64 - 7 * (i + 1));
      MulLt(r, 0x80, p);
      PositiveFactor(unit, q);
      LowBits(r * p, Sevens(rest), unit, q);
      Grouped(r, Sevens(rest), p);
      MulLe(1, q, unit, unit);
      ModSmall(r * p, U64_SIZE);
    }
  }

  lemma {:induction false} PositiveFactor(unit: nat, q: nat)
    requires unit * q > 0
    ensures q > 0
  {}

  lemma {:induction false} Grouped(r: nat, s: nat, p: nat)
    ensures (r + 0x80 * s) * p == r * p + s * (0x80 * p)
  {}

  // Tags and signed numbers.

  /** A tag is the varint of the field number over three bits for the wire type. */
  lemma {:induction false} TagExactly(num: nat)
    ensures TagBytes(num, Varint) == VarintBytes(8 * num)
    ensures TagBytes(num, Fixed64) == VarintBytes(8 * num + 1)
    ensures TagBytes(num, LengthDelimited) == VarintBytes(8 * num + 2)
    ensures TagBytes(num, StartGroup) == VarintBytes(8 * num + 3)
    ensures TagBytes(num, EndGroup) == VarintBytes(8 * num + 4)
    ensures TagBytes(num, Fixed32) == VarintBytes(8 * num + 5)
  {}

  /** A 32-bit number is its 64-bit two's complement, and the low 32 bits of any are
      read as one. */
  lemma {:induction false} SignedExactly(v: int, u: nat)
    requires -0x8000_0000 <= v < 0x8000_0000
    ensures SignExtended(v) == (v + U64_SIZE) % U64_SIZE
    ensures AsI32(u) == v <==> u % U32_SIZE == (v + U32_SIZE) % U32_SIZE
  {}

  /** Past a value: a varint's chain, eight or four bytes, or a length and as many
      bytes. Groups are refused. */
  lemma {:induction false} SkipExactly(data: seq<Byte>, pos: nat, next: nat)
    requires pos <= |data|
    ensures Skip(data, pos, Fixed64) == Got((), next) <==> next == pos + 8 <= |data|
    ensures Skip(data, pos, Fixed32) == Got((), next) <==> next == pos + 4 <= |data|
    ensures Skip(data, pos, StartGroup).Fail? && Skip(data, pos, EndGroup).Fail?
    ensures Skip(data, pos, Varint) == Got((), next) <==> exists v :: ReadVarint(data, pos) == Got(v, next)
    ensures Skip(data, pos, LengthDelimited) == Got((), next)
       <==> var r := ReadVarint(data, pos); r.Got? && next == r.next + r.value <= |data|
  {
    hide ReadVarint;
  }

  // Merging.

  /** A known field is read by its number alone, whatever wire type its tag gives. */
  lemma {:induction false} WireTypeIgnored(kind: Kind, m: Msg, tag: Tag, wire: WireType, data: seq<Byte>, pos: nat, depth: nat, limits: Limits)
    requires pos <= |data| && FieldOf(kind, tag.num) != NoField
    ensures MergeField(kind, m, tag, data, pos, depth, limits) == MergeField(kind, m, tag.(wire := wire), data, pos, depth, limits)
  {
    hide ReadMessage;
  }

  /** The record's field is no list and no map. */
  predicate Singular(kind: Kind, num: nat) {
    var f := FieldOf(kind, num);
    f.Text? || f.Blob? || f.Int32? || f.Sub?
  }

  function NumberOf(item: Item): nat
    requires !item.Opaque?
  {
    item.num
  }

  /** The last record of a singular field replaces what was there, a submessage too. */
  lemma {:induction false} LastWins(kind: Kind, item: Item, m: Msg, room: nat, maxCount: nat)
    requires WellFormedItem(kind, item) && !item.Opaque? && Singular(kind, NumberOf(item))
    ensures BuildItem(kind, item, m, room, maxCount) == BuildItem(kind, item, Msg(m.fields - {NumberOf(item)}), room, maxCount)
  {
    var num := NumberOf(item);
    match item
    case Leaf(_, b) => Replaced(m, num, VBytes(b));
    case Number(_, v) => Replaced(m, num, VInt(v));
    case Node(_, items) =>
      var r := Build(FieldOf(kind, num).kind, items, EMPTY, if room == 0 then 0 else room - 1, maxCount);
      if r.Ok? {
        Replaced(m, num, VMsg(r.value));
      }
      hide Build;
  }

  lemma {:induction false} Replaced(m: Msg, num: nat, v: Val)
    ensures m.fields[num := v] == (m.fields - {num})[num := v] && m.fields - {num} == m.fields - {num} - {num}
  {}

  // The bytes of an envelope.

  function Prefixed(tag: Byte, b: seq<Byte>): seq<Byte> {
    [tag] + (VarintBytes(|b|) + b)
  }

  function TextBytes(tag: Byte, s: seq<Byte>): seq<Byte> {
    if s == [] then [] else Prefixed(tag, s)
  }

  function TextsBytes(tag: Byte, xs: seq<Str>): seq<Byte> {
    if xs == [] then [] else Prefixed(tag, xs[0]) + TextsBytes(tag, xs[1..])
  }

  function FieldErrorBytes(e: FieldErrorData): seq<Byte> {
    TextBytes(0x0a, e.field) + (TextBytes(0x12, e.code) + (TextBytes(0x1a, e.message) + TextsBytes(0x22, e.args)))
  }

  function DetailsBytes(ds: seq<FieldErrorData>): seq<Byte> {
    if ds == [] then [] else Prefixed(0x22, FieldErrorBytes(ds[0])) + DetailsBytes(ds[1..])
  }

  /** A map entry has its key and its value, empty or not. */
  function EntriesBytes(t: map<Str, Str>, keys: seq<Str>): seq<Byte>
    requires forall k :: k in keys ==> k in t
  {
    if keys == [] then []
    else Prefixed(0x2a, Prefixed(0x0a, keys[0]) + Prefixed(0x12, t[keys[0]])) + EntriesBytes(t, keys[1..])
  }

  function AppErrorBytes(e: AppErrorData, keys: seq<Str>): seq<Byte>
    requires Walk(keys, e.metadata)
  {
    TextBytes(0x0a, e.code) + (TextBytes(0x12, e.message) + (TextsBytes(0x1a, e.args) + (DetailsBytes(e.details)
      + EntriesBytes(e.metadata, keys))))
  }

  function EnvelopeBytes(e: EnvelopeData, keys: seq<Str>): seq<Byte>
    requires WalkOf(keys, e)
  {
    (if e.status == 0 then [] else [0x08] + VarintBytes((e.status + U64_SIZE) % U64_SIZE))
    + (TextBytes(0x12, e.transportError) + (TextBytes(0x1a, e.data)
       + (if e.error.None? then [] else Prefixed(0x22, AppErrorBytes(e.error.value, keys)))))
  }

  lemma {:induction false} EncodeJoin(kind: Kind, a: seq<Item>, b: seq<Item>)
    requires WellFormed(kind, a + b)
    ensures WellFormed(kind, a) && WellFormed(kind, b) && Encode(kind, a + b) == Encode(kind, a) + Encode(kind, b)
    decreases |a|
  {
    hide WellFormedItem, EncodeItem;
    if a == [] {
      assert a + b == b;
    } else {
      assert (a + b)[0] == a[0] && (a + b)[1..] == a[1..] + b;
      EncodeJoin(kind, a[1..], b);
    }
  }

  lemma {:induction false} EncodeFour(kind: Kind, a: seq<Item>, b: seq<Item>, c: seq<Item>, d: seq<Item>)
    requires WellFormed(kind, a + (b + (c + d)))
    ensures WellFormed(kind, a) && WellFormed(kind, b) && WellFormed(kind, c) && WellFormed(kind, d)
    ensures Encode(kind, a + (b + (c + d))) == Encode(kind, a) + (Encode(kind, b) + (Encode(kind, c) + Encode(kind, d)))
  {
    hide WellFormed, Encode;
    EncodeJoin(kind, a, b + (c + d));
    EncodeJoin(kind, b, c + d);
    EncodeJoin(kind, c, d);
  }

  lemma {:induction false} EncodeOne(kind: Kind, item: Item)
    requires WellFormed(kind, [item])
    ensures WellFormedItem(kind, item) && Encode(kind, [item]) == EncodeItem(kind, item)
  {
    hide WellFormedItem, EncodeItem;
    assert [item][1..] == [];
    assert Encode(kind, []) == [];
  }

  /** A field's records before the rest. */
  lemma {:induction false} EncodeFirst(kind: Kind, item: Item, rest: seq<Item>)
    requires WellFormed(kind, [item] + rest)
    ensures WellFormedItem(kind, item) && WellFormed(kind, rest)
    ensures Encode(kind, [item] + rest) == EncodeItem(kind, item) + Encode(kind, rest)
  {
    EncodeJoin(kind, [item], rest);
    EncodeOne(kind, item);
  }

  lemma {:induction false} LeafBytes(kind: Kind, num: nat, s: seq<Byte>)
    requires 0 < num < 16 && WellFormedItem(kind, Leaf(num, s))
    ensures EncodeItem(kind, Leaf(num, s)) == Prefixed((8 * num + 2) as Byte, s)
  {
    TagExactly(num);
  }

  lemma {:induction false} NodeBytes(kind: Kind, num: nat, items: seq<Item>)
    requires 0 < num < 16 && WellFormedItem(kind, Node(num, items))
    ensures HasMessage(FieldOf(kind, num)) && WellFormed(FieldOf(kind, num).kind, items)
    ensures EncodeItem(kind, Node(num, items)) == Prefixed((8 * num + 2) as Byte, Encode(FieldOf(kind, num).kind, items))
  {
    TagExactly(num);
  }

  lemma {:induction false} TextLayout(kind: Kind, num: nat, s: seq<Byte>)
    requires 0 < num < 16 && WellFormed(kind, TextRecord(num, s))
    ensures Encode(kind, TextRecord(num, s)) == TextBytes((8 * num + 2) as Byte, s)
  {
    hide WellFormed, Encode, EncodeItem, Prefixed, WellFormedItem;
    if s == [] {
      EncodeNothing(kind);
    } else {
      EncodeOne(kind, Leaf(num, s));
      LeafBytes(kind, num, s);
    }
  }

  lemma {:induction false} EncodeNothing(kind: Kind)
    ensures WellFormed(kind, []) && Encode(kind, []) == []
  {}

  lemma {:induction false} TextsLayout(kind: Kind, num: nat, xs: seq<Str>)
    requires 0 < num < 16 && WellFormed(kind, TextRecords(num, xs))
    ensures Encode(kind, TextRecords(num, xs)) == TextsBytes((8 * num + 2) as Byte, xs)
    decreases |xs|
  {
    hide WellFormed, Encode, EncodeItem, Prefixed, WellFormedItem;
    if xs == [] {
      EncodeNothing(kind);
    } else {
      EncodeFirst(kind, Leaf(num, xs[0]), TextRecords(num, xs[1..]));
      LeafBytes(kind, num, xs[0]);
      TextsLayout(kind, num, xs[1..]);
    }
  }

  lemma {:induction false} FieldErrorLayout(e: FieldErrorData)
    requires WellFormed(FieldError, FieldErrorRecords(e))
    ensures Encode(FieldError, FieldErrorRecords(e)) == FieldErrorBytes(e)
  {
    hide WellFormed, Encode, TextRecord, TextRecords, TextBytes, TextsBytes;
    var a, b, c, d := TextRecord(1, e.field), TextRecord(2, e.code), TextRecord(3, e.message), TextRecords(4, e.args);
    EncodeFour(FieldError, a, b, c, d);
    TextLayout(FieldError, 1, e.field);
    TextLayout(FieldError, 2, e.code);
    TextLayout(FieldError, 3, e.message);
    TextsLayout(FieldError, 4, e.args);
  }

  lemma {:induction false} DetailsLayout(ds: seq<FieldErrorData>)
    requires WellFormed(AppError, DetailRecords(4, ds))
    ensures Encode(AppError, DetailRecords(4, ds)) == DetailsBytes(ds)
    decreases |ds|
  {
    hide WellFormed, Encode, EncodeItem, Prefixed, WellFormedItem, FieldErrorRecords;
    if ds == [] {
      EncodeNothing(AppError);
    } else {
      EncodeFirst(AppError, Node(4, FieldErrorRecords(ds[0])), DetailRecords(4, ds[1..]));
      NodeBytes(AppError, 4, FieldErrorRecords(ds[0]));
      FieldErrorLayout(ds[0]);
      DetailsLayout(ds[1..]);
    }
  }

  lemma {:induction false} EntryLayout(kind: Kind, num: nat, k: Str, v: Str)
    requires 0 < num < 16 && FieldOf(kind, num) in {Table(MetadataEntry), Table(TagEntry)}
    requires WellFormedItem(kind, EntryRecord(num, k, v))
    ensures EncodeItem(kind, EntryRecord(num, k, v)) == Prefixed((8 * num + 2) as Byte, Prefixed(0x0a, k) + Prefixed(0x12, v))
  {
    var items := [Leaf(1, k), Leaf(2, v)];
    NodeBytes(kind, num, items);
    hide WellFormed, Encode, EncodeItem, Prefixed, WellFormedItem;
    var inner := FieldOf(kind, num).kind;
    assert items == [Leaf(1, k)] + [Leaf(2, v)];
    EncodeFirst(inner, Leaf(1, k), [Leaf(2, v)]);
    EncodeOne(inner, Leaf(2, v));
    LeafBytes(inner, 1, k);
    LeafBytes(inner, 2, v);
  }

  lemma {:induction false} EntriesLayout(kind: Kind, t: map<Str, Str>, keys: seq<Str>)
    requires (forall k :: k in keys ==> k in t) && FieldOf(kind, 5) in {Table(MetadataEntry), Table(TagEntry)}
    requires WellFormed(kind, MetadataRecords(5, t, keys))
    ensures Encode(kind, MetadataRecords(5, t, keys)) == EntriesBytes(t, keys)
    decreases |keys|
  {
    hide WellFormed, Encode, EncodeItem, Prefixed, WellFormedItem, EntryRecord, FieldOf;
    if keys == [] {
      EncodeNothing(kind);
    } else {
      EncodeFirst(kind, EntryRecord(5, keys[0], t[keys[0]]), MetadataRecords(5, t, keys[1..]));
      EntryLayout(kind, 5, keys[0], t[keys[0]]);
      EntriesLayout(kind, t, keys[1..]);
    }
  }

  lemma {:induction false} AppErrorLayout(e: AppErrorData, keys: seq<Str>)
    requires Walk(keys, e.metadata) && WellFormed(AppError, AppErrorRecords(e, keys))
    ensures Encode(AppError, AppErrorRecords(e, keys)) == AppErrorBytes(e, keys)
  {
    var a, b, c, d, f := TextRecord(1, e.code), TextRecord(2, e.message), TextRecords(3, e.args), DetailRecords(4, e.details),
      MetadataRecords(5, e.metadata, keys);
    hide WellFormed, Encode, TextRecord, TextRecords, DetailRecords, MetadataRecords, TextBytes, TextsBytes, DetailsBytes, EntriesBytes;
    EncodeJoin(AppError, a, b + (c + (d + f)));
    EncodeJoin(AppError, b, c + (d + f));
    EncodeJoin(AppError, c, d + f);
    EncodeJoin(AppError, d, f);
    TextLayout(AppError, 1, e.code);
    TextLayout(AppError, 2, e.message);
    TextsLayout(AppError, 3, e.args);
    DetailsLayout(e.details);
    EntriesLayout(AppError, e.metadata, keys);
  }

  lemma {:induction false} StatusLayout(status: I32)
    requires status != 0 && WellFormed(Envelope, [Number(1, status)])
    ensures Encode(Envelope, [Number(1, status)]) == [0x08] + VarintBytes((status + U64_SIZE) % U64_SIZE)
  {
    EncodeOne(Envelope, Number(1, status));
    TagExactly(1);
    SignedExactly(status, 0);
    hide WellFormed, Encode;
  }

  /** Every envelope is these bytes. */
  lemma {:induction false} EnvelopeLayout(e: EnvelopeData, keys: seq<Str>)
    requires WalkOf(keys, e) && WellFormed(Envelope, EnvelopeRecords(e, keys))
    ensures Encode(Envelope, EnvelopeRecords(e, keys)) == EnvelopeBytes(e, keys)
  {
    hide WellFormed, Encode, TextRecord, TextBytes, AppErrorRecords, AppErrorBytes, Prefixed, FieldOf, ValidUtf8, VarintBytes;
    var a := if e.status == 0 then [] else [Number(1, e.status)];
    var b, c := TextRecord(2, e.transportError), TextRecord(3, e.data);
    var d := if e.error.None? then [] else [Node(4, AppErrorRecords(e.error.value, keys))];
    assert EnvelopeRecords(e, keys) == a + (b + (c + d));
    var w := if e.status == 0 then [] else [0x08] + VarintBytes((e.status + U64_SIZE) % U64_SIZE);
    var x, y := TextBytes(0x12, e.transportError), TextBytes(0x1a, e.data);
    var z := if e.error.None? then [] else Prefixed(0x22, AppErrorBytes(e.error.value, keys));
    assert EnvelopeBytes(e, keys) == w + (x + (y + z));
    hide *;
    EncodeFour(Envelope, a, b, c, d);
    TextLayout(Envelope, 2, e.transportError);
    TextLayout(Envelope, 3, e.data);
    StatusPart(e.status, a);
    ErrorLayout(e, keys, d);
  }

  lemma {:induction false} StatusPart(status: I32, a: seq<Item>)
    requires a == (if status == 0 then [] else [Number(1, status)]) && WellFormed(Envelope, a)
    ensures Encode(Envelope, a) == if status == 0 then [] else [0x08] + VarintBytes((status + U64_SIZE) % U64_SIZE)
  {
    if status != 0 {
      StatusLayout(status);
    } else {
      EncodeNothing(Envelope);
    }
    hide Encode, WellFormed;
  }

  lemma {:induction false} ErrorLayout(e: EnvelopeData, keys: seq<Str>, d: seq<Item>)
    requires WalkOf(keys, e) && d == (if e.error.None? then [] else [Node(4, AppErrorRecords(e.error.value, keys))])
    requires WellFormed(Envelope, d)
    ensures Encode(Envelope, d) == if e.error.None? then [] else Prefixed(0x22, AppErrorBytes(e.error.value, keys))
  {
    hide WellFormed, Encode, EncodeItem, WellFormedItem, AppErrorRecords, AppErrorBytes, Prefixed;
    if e.error.None? {
      EncodeNothing(Envelope);
    } else {
      EncodeOne(Envelope, d[0]);
      NodeBytes(Envelope, 4, AppErrorRecords(e.error.value, keys));
      AppErrorLayout(e.error.value, keys);
    }
  }

  /** An error of one map entry with an empty key and value. */
  lemma {:induction false} ZeroEntryBytes(e: EnvelopeData, keys: seq<Str>)
    requires WalkOf(keys, e) && e == EnvelopeData(0, [], [], Some(AppErrorData([], [], [], [], map[[] := []]))) && keys == [[]]
    ensures EnvelopeBytes(e, keys) == [0x22, 0x06, 0x2a, 0x04, 0x0a, 0x00, 0x12, 0x00]
  {
    var t := e.error.value.metadata;
    assert keys[1..] == [];
    assert Prefixed(0x0a, []) == [0x0a, 0x00] && Prefixed(0x12, []) == [0x12, 0x00];
    assert EntriesBytes(t, keys) == Prefixed(0x2a, [0x0a, 0x00, 0x12, 0x00]) == [0x2a, 0x04, 0x0a, 0x00, 0x12, 0x00];
  }

  // The bytes of a tree.

  function TreeBytes(t: TreeData, order: Order): seq<Byte>
    requires Enumerates(order)
    decreases t, 2, 0
  {
    EachOf(order, t.branches.Keys);
    EachOf(order, t.tags.Keys);
    (if t.child.None? then [] else Prefixed(0x0a, TreeBytes(t.child.value, order)))
    + (TextBytes(0x12, t.caption) + (BranchesBytes(t, order(t.branches.Keys), order) + EntriesBytes(t.tags, order(t.tags.Keys))))
  }

  function BranchesBytes(t: TreeData, keys: seq<Str>, order: Order): seq<Byte>
    requires Enumerates(order) && forall k :: k in keys ==> k in t.branches
    decreases t, 1, |keys|
  {
    if keys == [] then []
    else
      Prefixed(0x22, Prefixed(0x0a, keys[0]) + Prefixed(0x12, TreeBytes(t.branches[keys[0]], order)))
      + BranchesBytes(t, keys[1..], order)
  }

  /** Every tree is these bytes. */
  lemma {:induction false} TreeLayout(t: TreeData, order: Order)
    requires Enumerates(order) && WellFormed(Tree, TreeRecords(t, order))
    ensures Encode(Tree, TreeRecords(t, order)) == TreeBytes(t, order)
    decreases t, 2, 0
  {
    hide WellFormed, Encode, TextRecord, TextBytes, ChildRecords, BranchRecords, MetadataRecords, EntriesBytes, BranchesBytes,
      Prefixed, FieldOf, ValidUtf8, Enumerates;
    EachOf(order, t.branches.Keys);
    EachOf(order, t.tags.Keys);
    var branches, tags := order(t.branches.Keys), order(t.tags.Keys);
    var a, b := ChildRecords(t, order), TextRecord(2, t.caption);
    var c, d := BranchRecords(t, branches, order), MetadataRecords(5, t.tags, tags);
    assert TreeRecords(t, order) == a + (b + (c + d));
    var w := if t.child.None? then [] else Prefixed(0x0a, TreeBytes(t.child.value, order));
    assert TreeBytes(t, order) == w + (TextBytes(0x12, t.caption) + (BranchesBytes(t, branches, order) + EntriesBytes(t.tags, tags)));
    TagsField();
    hide *;
    EncodeFour(Tree, a, b, c, d);
    ChildLayout(t, order);
    TextLayout(Tree, 2, t.caption);
    BranchesLayout(t, branches, order);
    EntriesLayout(Tree, t.tags, tags);
  }

  lemma {:induction false} TagsField()
    ensures FieldOf(Tree, 5) == Table(TagEntry) && FieldOf(AppError, 5) == Table(MetadataEntry)
  {}

  lemma {:induction false} ChildLayout(t: TreeData, order: Order)
    requires Enumerates(order) && WellFormed(Tree, ChildRecords(t, order))
    ensures Encode(Tree, ChildRecords(t, order))
         == if t.child.None? then [] else Prefixed(0x0a, TreeBytes(t.child.value, order))
    decreases t, 1, 0
  {
    hide WellFormed, Encode, EncodeItem, WellFormedItem, TreeRecords, TreeBytes, Prefixed;
    if t.child.None? {
      EncodeNothing(Tree);
    } else {
      var items := TreeRecords(t.child.value, order);
      EncodeOne(Tree, Node(1, items));
      NodeBytes(Tree, 1, items);
      TreeLayout(t.child.value, order);
    }
  }

  lemma {:induction false} BranchesLayout(t: TreeData, keys: seq<Str>, order: Order)
    requires Enumerates(order) && (forall k :: k in keys ==> k in t.branches) && WellFormed(Tree, BranchRecords(t, keys, order))
    ensures Encode(Tree, BranchRecords(t, keys, order)) == BranchesBytes(t, keys, order)
    decreases t, 1, |keys|
  {
    hide WellFormed, Encode, EncodeItem, WellFormedItem, TreeRecords, TreeBytes, Prefixed;
    if keys == [] {
      EncodeNothing(Tree);
    } else {
      var items := TreeRecords(t.branches[keys[0]], order);
      EncodeFirst(Tree, BranchRecord(keys[0], items), BranchRecords(t, keys[1..], order));
      BranchInner(keys[0], items);
      TreeLayout(t.branches[keys[0]], order);
      BranchLayout(keys[0], items);
      BranchesLayout(t, keys[1..], order);
    }
  }

  lemma {:induction false} BranchInner(key: Str, items: seq<Item>)
    requires WellFormedItem(Tree, BranchRecord(key, items))
    ensures WellFormed(Tree, items)
  {
    var pair := [Leaf(1, key), Node(2, items)];
    assert pair == [Leaf(1, key)] + [Node(2, items)];
    assert WellFormed(BranchEntry, pair);
    EncodeFirst(BranchEntry, Leaf(1, key), [Node(2, items)]);
    EncodeOne(BranchEntry, Node(2, items));
  }

  lemma {:induction false} BranchLayout(key: Str, items: seq<Item>)
    requires WellFormedItem(Tree, BranchRecord(key, items)) && WellFormed(Tree, items)
    ensures EncodeItem(Tree, BranchRecord(key, items))
         == Prefixed(0x22, Prefixed(0x0a, key) + Prefixed(0x12, Encode(Tree, items)))
  {
    var pair := [Leaf(1, key), Node(2, items)];
    NodeBytes(Tree, 4, pair);
    hide WellFormed, Encode, EncodeItem, Prefixed, WellFormedItem;
    assert pair == [Leaf(1, key)] + [Node(2, items)];
    EncodeFirst(BranchEntry, Leaf(1, key), [Node(2, items)]);
    EncodeOne(BranchEntry, Node(2, items));
    LeafBytes(BranchEntry, 1, key);
    NodeBytes(BranchEntry, 2, items);
  }
}
