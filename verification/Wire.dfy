/** Protobuf wire primitives: what the writer appends and the reader takes, as
    functions of the bytes and a position. */
module Wire {
  import opened Powers
  import opened Bytes

  const U64_SIZE: nat := 0x1_0000_0000_0000_0000
  const U32_SIZE: nat := 0x1_0000_0000
  const MAX_FIELD_NUMBER: nat := 0x1fff_ffff

  datatype WireType = Varint | Fixed64 | LengthDelimited | StartGroup | EndGroup | Fixed32

  datatype WireError =
    | TruncatedVarint
    | VarintTooLong
    | TruncatedFixed32
    | TruncatedFixed64
    | TruncatedLengthDelim
    | InvalidTag
    | UnknownWireType
    | GroupNotSupported
    | InvalidUtf8
    | NestedExceedsBuffer
    | Overrun
    | DepthExceeded
    | MessageTooLarge
    | RepeatedCountExceeded

  /** What was read, and where the reader stands after it. */
  datatype Read<+T> = Got(value: T, next: nat) | Fail(error: WireError)

  datatype Tag = Tag(num: nat, wire: WireType)

  function WireCode(w: WireType): (c: nat)
    ensures c < 6
  {
    match w
    case Varint => 0
    case Fixed64 => 1
    case LengthDelimited => 2
    case StartGroup => 3
    case EndGroup => 4
    case Fixed32 => 5
  }

  function WireOf(c: nat): (w: WireType)
    requires c < 6
    ensures WireCode(w) == c
  {
    if c == 0 then Varint
    else if c == 1 then Fixed64
    else if c == 2 then LengthDelimited
    else if c == 3 then StartGroup
    else if c == 4 then EndGroup
    else Fixed32
  }

  // Writing.

  /** Seven bits a byte, least significant first, the top bit set on all but the
      last. */
  function VarintBytes(v: nat): (b: seq<Byte>)
    ensures |b| > 0
  {
    if v < 0x80 then [v] else [v % 0x80 + 0x80] + VarintBytes(v / 0x80)
  }

  function TagBytes(num: nat, wire: WireType): (b: seq<Byte>)
    ensures |b| > 0
  {
    VarintBytes(8 * num + WireCode(wire))
  }

  /** Length-prefixed bytes. */
  function Framed(b: seq<Byte>): (f: seq<Byte>)
    ensures |f| > |b|
  {
    VarintBytes(|b|) + b
  }

  // Reading.

  /** The seven bits of the i-th byte in place; what passes 64 bits is lost. */
  function Shifted(b: Byte, i: nat): nat {
    ((b % 0x80) * Pow(2, 7 * i)) % U64_SIZE
  }

  /** A varint of at most ten bytes, i of them already taken. */
  function VarintAt(data: seq<Byte>, pos: nat, i: nat): (r: Read<nat>)
    requires i <= 10
    ensures r.Got? ==> pos < r.next <= |data|
    decreases 10 - i
  {
    if i == 10 then Fail(VarintTooLong)
    else if pos >= |data| then Fail(TruncatedVarint)
    else if data[pos] < 0x80 then Got(Shifted(data[pos], i), pos + 1)
    else
      match VarintAt(data, pos + 1, i + 1)
      case Fail(e) => Fail(e)
      case Got(v, next) => Got(Shifted(data[pos], i) + v, next)
  }

  function ReadVarint(data: seq<Byte>, pos: nat): (r: Read<nat>)
    ensures r.Got? ==> pos < r.next <= |data|
  {
    VarintAt(data, pos, 0)
  }

  /** A tag; the field number is cut to 32 bits and must not be zero. */
  function ReadTag(data: seq<Byte>, pos: nat): (r: Read<Tag>)
    ensures r.Got? ==> pos < r.next <= |data|
  {
    match ReadVarint(data, pos)
    case Fail(e) => Fail(e)
    case Got(t, next) =>
      if t % 8 >= 6 then Fail(UnknownWireType)
      else if (t / 8) % U32_SIZE == 0 then Fail(InvalidTag)
      else Got(Tag((t / 8) % U32_SIZE, WireOf(t % 8)), next)
  }

  /** A length that fits what is left. */
  function ReadLength(data: seq<Byte>, pos: nat): (r: Read<nat>)
    ensures r.Got? ==> pos < r.next && r.next + r.value <= |data|
  {
    match ReadVarint(data, pos)
    case Fail(e) => Fail(e)
    case Got(len, next) => if next + len > |data| then Fail(TruncatedLengthDelim) else Got(len, next)
  }

  function ReadBytes(data: seq<Byte>, pos: nat): (r: Read<seq<Byte>>)
    ensures r.Got? ==> pos < r.next <= |data|
  {
    match ReadLength(data, pos)
    case Fail(e) => Fail(e)
    case Got(len, next) => Got(data[next..next + len], next + len)
  }

  function ReadString(data: seq<Byte>, pos: nat): (r: Read<seq<Byte>>)
    ensures r.Got? ==> pos < r.next <= |data|
  {
    match ReadBytes(data, pos)
    case Fail(e) => Fail(e)
    case Got(b, next) => if ValidUtf8(b) then Got(b, next) else Fail(InvalidUtf8)
  }

  /** The position after a field's value of the given wire type. */
  function Skip(data: seq<Byte>, pos: nat, wire: WireType): (r: Read<()>)
    requires pos <= |data|
    ensures r.Got? ==> pos < r.next <= |data|
  {
    match wire
    case Varint =>
      (match ReadVarint(data, pos)
       case Fail(e) => Fail(e)
       case Got(_, next) => Got((), next))
    case Fixed64 => if pos + 8 > |data| then Fail(TruncatedFixed64) else Got((), pos + 8)
    case LengthDelimited =>
      (match ReadLength(data, pos)
       case Fail(e) => Fail(e)
       case Got(len, next) => Got((), next + len))
    case Fixed32 => if pos + 4 > |data| then Fail(TruncatedFixed32) else Got((), pos + 4)
    case StartGroup => Fail(GroupNotSupported)
    case EndGroup => Fail(GroupNotSupported)
  }

  // Bytes at a position.

  ghost predicate At(data: seq<Byte>, pos: nat, b: seq<Byte>) {
    pos + |b| <= |data| && data[pos..pos + |b|] == b
  }

  lemma AtSplit(data: seq<Byte>, pos: nat, a: seq<Byte>, b: seq<Byte>)
    requires At(data, pos, a + b)
    ensures At(data, pos, a) && At(data, pos + |a|, b)
  {
    assert data[pos..pos + |a|] == (a + b)[..|a|];
    assert data[pos + |a|..pos + |a| + |b|] == (a + b)[|a|..];
  }

  lemma AtByte(data: seq<Byte>, pos: nat, b: seq<Byte>, i: nat)
    requires At(data, pos, b) && i < |b|
    ensures data[pos + i] == b[i]
  {
    assert data[pos..pos + |b|][i] == data[pos + i];
  }

  // What is written is read back.

  /** A varint is read back wherever it stands. */
  lemma {:induction false} VarintBack(data: seq<Byte>, pos: nat, v: nat, i: nat)
    requires i < 10 && v * Pow(2, 7 * i) < U64_SIZE && At(data, pos, VarintBytes(v))
    ensures VarintAt(data, pos, i) == Got(v * Pow(2, 7 * i), pos + |VarintBytes(v)|)
    decreases v
  {
    hide Pow;
    AtByte(data, pos, VarintBytes(v), 0);
    if v < 0x80 {
      ModSmall(v * Pow(2, 7 * i), U64_SIZE);
    } else {
      AtSplit(data, pos, [v % 0x80 + 0x80], VarintBytes(v / 0x80));
      SevenBits(v, i);
      VarintBack(data, pos + 1, v / 0x80, i + 1);
    }
  }

  lemma ModSmall(v: nat, m: nat)
    requires v < m
    ensures v % m == v
  {}

  lemma SevenBits(v: nat, i: nat)
    requires v >= 0x80 && i < 10 && v * Pow(2, 7 * i) < U64_SIZE
    ensures i < 9 && (v / 0x80) * Pow(2, 7 * (i + 1)) < U64_SIZE
    ensures Shifted(v % 0x80 + 0x80, i) + (v / 0x80) * Pow(2, 7 * (i + 1)) == v * Pow(2, 7 * i)
  {
    hide Pow;
    var p := Pow(2, 7 * i);
    TenBytes(i);
    PowAdd(2, 7, 7 * i);
    assert Pow(2, 7) == 0x80 by { Seven(); }
    SplitSeven(v / 0x80, v % 0x80, p);
    MulLe(0x80, v, p, p);
    ModSmall((v % 0x80) * p, U64_SIZE);
  }

  lemma Seven()
    ensures Pow(2, 7) == 0x80
  {}

  lemma SplitSeven(q: nat, r: nat, p: nat)
    ensures (q * 0x80 + r) * p == q * (0x80 * p) + r * p
  {}

  /** Nine full bytes reach past 2^63. */
  lemma TenBytes(i: nat)
    requires i < 10
    ensures 0x80 * Pow(2, 7 * i) < U64_SIZE ==> i < 9
  {
    if i == 9 {
      Seven();
      PowAdd(2, 7, 7);
      PowAdd(2, 14, 14);
      PowAdd(2, 28, 28);
      PowAdd(2, 56, 7);
    }
  }

  lemma ReadVarintBack(data: seq<Byte>, pos: nat, v: nat)
    requires v < U64_SIZE && At(data, pos, VarintBytes(v))
    ensures ReadVarint(data, pos) == Got(v, pos + |VarintBytes(v)|)
  {
    assert Pow(2, 0) == 1;
    VarintBack(data, pos, v, 0);
  }

  lemma TagBack(data: seq<Byte>, pos: nat, num: nat, wire: WireType)
    requires 0 < num <= MAX_FIELD_NUMBER && At(data, pos, TagBytes(num, wire))
    ensures ReadTag(data, pos) == Got(Tag(num, wire), pos + |TagBytes(num, wire)|)
  {
    hide ReadVarint, VarintBytes;
    ReadVarintBack(data, pos, 8 * num + WireCode(wire));
    WireCodeBack(wire);
  }

  lemma WireCodeBack(wire: WireType)
    ensures WireOf(WireCode(wire)) == wire
  {}

  lemma FramedBack(data: seq<Byte>, pos: nat, b: seq<Byte>)
    requires |b| < U64_SIZE && At(data, pos, Framed(b))
    ensures ReadVarint(data, pos) == Got(|b|, pos + |VarintBytes(|b|)|)
    ensures At(data, pos + |VarintBytes(|b|)|, b)
    ensures ReadBytes(data, pos) == Got(b, pos + |Framed(b)|)
  {
    hide ReadVarint, VarintBytes;
    AtSplit(data, pos, VarintBytes(|b|), b);
    ReadVarintBack(data, pos, |b|);
  }

  lemma AtWithin(data: seq<Byte>, pos: nat, b: seq<Byte>)
    requires At(data, pos, b)
    ensures pos + |b| <= |data|
  {}

  // Reading looks at no byte past the record.

  /** What is read at q in a record is read at pos + q wherever the record stands. */
  lemma {:induction false} VarintLocal(data: seq<Byte>, pos: nat, record: seq<Byte>, q: nat, i: nat)
    requires i <= 10 && At(data, pos, record) && VarintAt(record, q, i).Got?
    ensures VarintAt(data, pos + q, i) == VarintAt(record, q, i).(next := pos + VarintAt(record, q, i).next)
    decreases 10 - i
  {
    hide Shifted, At;
    AtByte(data, pos, record, q);
    AtWithin(data, pos, record);
    if record[q] >= 0x80 {
      VarintLocal(data, pos, record, q + 1, i + 1);
    }
  }

  lemma TagLocal(data: seq<Byte>, pos: nat, record: seq<Byte>)
    requires At(data, pos, record) && ReadTag(record, 0).Got?
    ensures ReadTag(data, pos) == ReadTag(record, 0).(next := pos + ReadTag(record, 0).next)
  {
    VarintLocal(data, pos, record, 0, 0);
  }

  lemma SkipLocal(data: seq<Byte>, pos: nat, record: seq<Byte>, q: nat, wire: WireType)
    requires At(data, pos, record) && q <= |record| && Skip(record, q, wire).Got?
    ensures Skip(data, pos + q, wire) == Got((), pos + Skip(record, q, wire).next)
  {
    if wire.Varint? || wire.LengthDelimited? {
      VarintLocal(data, pos, record, q, 0);
    }
  }
}
