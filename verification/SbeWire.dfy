/** The bytes of a marshalled message, position by position. */
module SbeWire {
  import opened Options
  import opened Powers
  import opened Bytes
  import opened SbeLayout
  import opened SbeValues
  import opened SbeCodec
  import opened Decimals

  // Words.

  /** A little-endian 16-bit word, of a number modulo 65536. */
  predicate Word(data: seq<Byte>, at: nat, n: nat) {
    at + 2 <= |data| && data[at] == n % 256 && data[at + 1] == n / 256 % 256
  }

  lemma {:induction false} WordBytes(n: nat)
    ensures U16(n) == [n % 256, n / 256 % 256]
  {
    Spans();
    LeByte(n % 0x1_0000, 2, 0);
    LeByte(n % 0x1_0000, 2, 1);
    WrapByte(n, 2, 0);
    WrapByte(n, 2, 1);
    assert Span(0) == 1;
    hide Le, Span;
  }

  /** The header: block length, template id, schema id and version. */
  lemma {:induction false} HeaderWords(c: Floats, t: Template, m: Fields)
    requires TemplateTiled(t)
    ensures var data := Marshalled(c, t, m);
            Word(data, 0, t.blockLength) && Word(data, 2, t.templateId) && Word(data, 4, t.schemaId) && Word(data, 6, t.version)
  {
    hide BlockBytes, GroupsBytes, U16, Word;
    var block, groups := BlockBytes(c, t.slots, 0, t.blockLength, m), GroupsBytes(c, t.groups, m);
    assert Marshalled(c, t, m) == U16(t.blockLength) + U16(t.templateId) + U16(t.schemaId) + U16(t.version) + block + groups;
    hide Marshalled;
    FourWords(t.blockLength, t.templateId, t.schemaId, t.version, block, groups);
  }

  lemma {:induction false} FourWords(i: nat, j: nat, k: nat, l: nat, block: seq<Byte>, groups: seq<Byte>)
    ensures var data := U16(i) + U16(j) + U16(k) + U16(l) + block + groups;
            Word(data, 0, i) && Word(data, 2, j) && Word(data, 4, k) && Word(data, 6, l)
  {
    WordBytes(i);
    WordBytes(j);
    WordBytes(k);
    WordBytes(l);
    hide U16;
  }

  // Groups.

  function Count(g: Group, m: Fields): nat {
    |ItemsOf(Get(m, g.fd))|
  }

  /** The bytes of the groups before the k-th, four for each header. */
  function GroupsBefore(gs: seq<Group>, m: Fields, k: nat): nat
    requires k <= |gs|
  {
    if k == 0 then 0 else GroupsBefore(gs, m, k - 1) + (4 + Count(gs[k - 1], m) * gs[k - 1].blockLength)
  }

  lemma {:induction false} GroupsAt(c: Floats, gs: seq<Group>, m: Fields, k: nat)
    requires GroupsTiled(gs) && k < |gs|
    ensures GroupTiled(gs[k])
    ensures var at := GroupsBefore(gs, m, k);
            var bytes := GroupBytes(c, gs[k], m);
            at + |bytes| <= |GroupsBytes(c, gs, m)| && GroupsBytes(c, gs, m)[at..at + |bytes|] == bytes
    decreases k
  {
    hide GroupBytes, GroupTiled, GroupsBefore, Count;
    assert GroupTiled(gs[0]);
    assert GroupsBefore(gs, m, 0) == 0 by { NothingBefore(gs, m); }
    var first, rest := GroupBytes(c, gs[0], m), GroupsBytes(c, gs[1..], m);
    assert GroupsBytes(c, gs, m) == first + rest;
    if k > 0 {
      assert gs[k] == gs[1..][k - 1];
      GroupsAt(c, gs[1..], m, k - 1);
      FirstBefore(gs, m, k);
      GroupSize(c, gs[0], m);
      PieceOf(first, rest, GroupsBefore(gs[1..], m, k - 1), GroupBytes(c, gs[k], m));
    }
  }

  lemma {:induction false} NothingBefore(gs: seq<Group>, m: Fields)
    ensures GroupsBefore(gs, m, 0) == 0
  {}

  lemma {:induction false} GroupSize(c: Floats, g: Group, m: Fields)
    requires GroupTiled(g)
    ensures |GroupBytes(c, g, m)| == 4 + Count(g, m) * g.blockLength
  {
    hide GroupTiled;
  }

  lemma {:induction false} PieceOf(first: seq<Byte>, rest: seq<Byte>, at: nat, piece: seq<Byte>)
    requires at + |piece| <= |rest| && rest[at..at + |piece|] == piece
    ensures (first + rest)[|first| + at..|first| + at + |piece|] == piece
  {
    assert (first + rest)[|first| + at..|first| + at + |piece|] == rest[at..at + |piece|];
  }

  lemma {:induction false} FirstBefore(gs: seq<Group>, m: Fields, k: nat)
    requires 0 < k <= |gs|
    ensures GroupsBefore(gs, m, k) == 4 + Count(gs[0], m) * gs[0].blockLength + GroupsBefore(gs[1..], m, k - 1)
    decreases k
  {
    hide Count;
    if k > 1 {
      FirstBefore(gs, m, k - 1);
      assert gs[k - 1] == gs[1..][k - 2];
    }
  }

  /** Where the k-th group's header stands. */
  function GroupAt(t: Template, m: Fields, k: nat): nat
    requires k <= |t.groups|
  {
    8 + t.blockLength + GroupsBefore(t.groups, m, k)
  }

  /** Each group: its block length and count, then its entries, a block each. */
  lemma {:induction false} GroupWords(c: Floats, t: Template, m: Fields, k: nat)
    requires TemplateTiled(t) && k < |t.groups|
    ensures var data, at, g := Marshalled(c, t, m), GroupAt(t, m, k), t.groups[k];
            Word(data, at, g.blockLength) && Word(data, at + 2, Count(g, m))
    ensures GroupTiled(t.groups[k])
    ensures var data, g := Marshalled(c, t, m), t.groups[k];
            var start := GroupAt(t, m, k) + 4;
            var all := EntriesBytes(c, g, ItemsOf(Get(m, g.fd)));
            start + |all| <= |data| && data[start..start + |all|] == all
  {
    hide GroupTiled, BlockBytes, EntriesBytes, U16, GroupsBytes, HeaderBytes, GroupsBefore, Word;
    assert GroupsTiled(t.groups);
    var g := t.groups[k];
    GroupsAt(c, t.groups, m, k);
    var head := HeaderBytes(t) + BlockBytes(c, t.slots, 0, t.blockLength, m);
    var groups, bytes, at := GroupsBytes(c, t.groups, m), GroupBytes(c, g, m), GroupsBefore(t.groups, m, k);
    assert Marshalled(c, t, m) == head + groups && |head| == 8 + t.blockLength;
    PieceOf(head, groups, at, bytes);
    var e := EntriesBytes(c, g, ItemsOf(Get(m, g.fd)));
    assert bytes == U16(g.blockLength) + U16(Count(g, m)) + e;
    hide GroupBytes, Marshalled;
    TwoWords(Marshalled(c, t, m), |head| + at, g.blockLength, Count(g, m), e);
  }

  lemma {:induction false} TwoWords(data: seq<Byte>, at: nat, i: nat, j: nat, e: seq<Byte>)
    requires at + 4 + |e| <= |data| && data[at..at + 4 + |e|] == U16(i) + U16(j) + e
    ensures Word(data, at, i) && Word(data, at + 2, j) && data[at + 4..at + 4 + |e|] == e
  {
    WordBytes(i);
    WordBytes(j);
    hide U16;
    var here := data[at..at + 4 + |e|];
    assert here[0] == data[at] && here[1] == data[at + 1] && here[2] == data[at + 2] && here[3] == data[at + 3];
    assert here[4..] == e;
  }

  lemma {:induction false} EntryAt(c: Floats, g: Group, items: seq<Value>, i: nat)
    requires GroupTiled(g) && i < |items|
    ensures var at := i * g.blockLength;
            && 0 <= at && at + g.blockLength <= |EntriesBytes(c, g, items)|
            && EntriesBytes(c, g, items)[at..at + g.blockLength] == BlockBytes(c, g.slots, 0, g.blockLength, FieldsOf(items[i]))
    decreases i
  {
    hide Tiled, BlockBytes;
    var bl := g.blockLength;
    var first, rest := BlockBytes(c, g.slots, 0, bl, FieldsOf(items[0])), EntriesBytes(c, g, items[1..]);
    assert EntriesBytes(c, g, items) == first + rest;
    hide EntriesBytes;
    if i > 0 {
      EntryAt(c, g, items[1..], i - 1);
      assert items[i] == items[1..][i - 1];
      Step(i, bl);
      PieceOf(first, rest, (i - 1) * bl, BlockBytes(c, g.slots, 0, bl, FieldsOf(items[i])));
    }
  }

  lemma {:induction false} Step(i: nat, bl: nat)
    requires i > 0
    ensures i * bl == bl + (i - 1) * bl && (i - 1) * bl >= 0
  {}

  // Scalars.

  /** A slot's bytes stand at its offset. */
  lemma {:induction false} SlotAt(c: Floats, slots: seq<Slot>, from: nat, to: nat, m: Fields, i: nat)
    requires Tiled(slots, from, to) && i < |slots|
    ensures SlotTiled(slots[i]) && from <= slots[i].offset && slots[i].offset + slots[i].size <= to
    ensures var at := slots[i].offset - from;
            BlockBytes(c, slots, from, to, m)[at..at + slots[i].size] == SlotBytes(c, slots[i], Get(m, slots[i].fd))
    decreases |slots|
  {
    hide SlotTiled, SlotBytes, Get;
    TiledWithin(slots, from, to);
    if i > 0 {
      assert slots[i] == slots[1..][i - 1];
      SlotAt(c, slots[1..], from + slots[0].size, to, m, i - 1);
      var first, rest := SlotBytes(c, slots[0], Get(m, slots[0].fd)), BlockBytes(c, slots[1..], from + slots[0].size, to, m);
      assert BlockBytes(c, slots, from, to, m) == first + rest;
      assert SlotTiled(slots[0]) && |first| == slots[0].size;
      hide *;
      hide BlockBytes, Tiled, SlotBytes, Get, SlotTiled;
      PieceOf(first, rest, slots[i].offset - from - |first|, SlotBytes(c, slots[i], Get(m, slots[i].fd)));
    }
  }

  /** The low bytes of a number, the lowest first; a negative one in two's
      complement. */
  ghost predicate LittleEndian(b: seq<Byte>, n: int) {
    forall i :: 0 <= i < |b| ==> b[i] == n / Span(i) % 256
  }

  lemma {:induction false} LeByte(n: nat, w: nat, i: nat)
    requires i < w
    ensures Le(n, w)[i] == n / Span(i) % 256
    decreases w
  {
    assert Le(n, w) == [n % 256] + Le(n / 256, w - 1);
    if i > 0 {
      assert Span(i) == 256 * Span(i - 1);
      hide Le, Span;
      LeByte(n / 256, w - 1, i - 1);
      DivDiv(n, 256, Span(i - 1), Span(i));
    } else {
      assert Span(0) == 1;
    }
  }

  lemma {:induction false} DivDiv(n: int, a: nat, b: nat, ab: nat)
    requires a > 0 && b > 0 && ab == a * b
    ensures n / a / b == n / ab
  {
    var q, r := n / a, n % a;
    var s, u := q / b, q % b;
    assert n == a * q + r && q == b * s + u;
    assert a * (b * s + u) == a * (b * s) + a * u;
    Assoc(a, b, s);
    assert n == ab * s + (a * u + r);
    MulLe(a, a, u, b - 1);
    assert a * (b - 1) == ab - a;
    DivModUnique(n, ab, s, a * u + r);
  }

  /** Wrapping keeps the low bytes. */
  lemma {:induction false} WrapByte(n: int, w: nat, i: nat)
    requires i < w
    ensures Wrap(n, w) / Span(i) % 256 == n / Span(i) % 256
  {
    var k, s := Span(w), Span(i);
    SpanRatio(i, w);
    SpanRatio(1, w - i);
    assert Span(1) == 256 by { Spans(); }
    var r := Span(w - i - 1);
    var q := n / k;
    assert n == k * q + n % k;
    Assoc(r * 256, s, q);
    LowByte(n, n % k, s, r, q);
    hide Span;
  }

  lemma {:induction false} LowByte(n: int, x: int, s: nat, r: nat, q: int)
    requires s > 0 && n == (r * 256) * (s * q) + x
    ensures n / s % 256 == x / s % 256
  {
    var y, z := x / s, x % s;
    assert x == s * y + z;
    var h := r * q;
    assert (r * 256) * (s * q) == s * (256 * h) by { Reorder(r, s, q, h); }
    assert s * (256 * h) + s * y == s * (256 * h + y);
    DivModUnique(n, s, 256 * h + y, z);
    assert (256 * h + y) % 256 == y % 256;
  }

  lemma {:induction false} Reorder(r: nat, s: nat, q: int, h: int)
    requires h == r * q
    ensures (r * 256) * (s * q) == s * (256 * h)
  {
    Assoc(r * 256, s, q);
    Assoc(s, r * 256, q);
    assert (r * 256) * s == s * (r * 256);
    assert (r * 256) * q == 256 * (r * q);
  }

  lemma {:induction false} NumberBytes(n: int, w: nat)
    ensures LittleEndian(Le(Wrap(n, w), w), n)
  {
    forall i | 0 <= i < w ensures Le(Wrap(n, w), w)[i] == n / Span(i) % 256 {
      LeByte(Wrap(n, w), w, i);
      WrapByte(n, w, i);
    }
  }

  /** The number an integer or bool field holds. */
  function NumberOf(v: Value): int {
    match v
    case VBool(b) => if b then 1 else 0
    case VEnum(n) => n
    case VI32(n) => n
    case VI64(n) => n
    case VU32(n) => n
    case VU64(n) => n
    case _ => 0
  }

  /** An integer field is the low bytes of its number, as many as its encoding has. */
  lemma {:induction false} IntegerBytes(c: Floats, kind: Kind, e: Sized, v: Value)
    requires WellSized(e) && (e.encoding.Signed? || e.encoding.Unsigned?) && (Integer(v) || v.VBool?)
    ensures LittleEndian(Written(c, kind, e, v), NumberOf(v))
  {
    hide Le, Span, LittleEndian;
    var n := if e.encoding.Signed? then AsI64(c, v) else AsU64(c, v);
    NumberBytes(n, e.size);
    WrapWrap(NumberOf(v), e.size, 8);
    hide Wrap, ToSigned;
    SameLow(n, NumberOf(v), e.size);
  }

  lemma {:induction false} SameLow(n: int, x: int, w: nat)
    requires Wrap(n, w) == Wrap(x, w) && LittleEndian(Le(Wrap(n, w), w), n)
    ensures LittleEndian(Le(Wrap(n, w), w), x)
  {
    NumberBytes(x, w);
  }

  /** A float field is its bits. */
  lemma {:induction false} FloatBytes(c: Floats, kind: Kind, v: Value)
    requires Typed(kind, v) && (kind.Float? || kind.Double?)
    ensures kind.Float? ==> LittleEndian(Written(c, kind, Sized(FloatBits, 4), v), v.bits)
    ensures kind.Double? ==> LittleEndian(Written(c, kind, Sized(DoubleBits, 8), v), v.bits)
  {
    hide Le, Span, LittleEndian;
    var w := if kind.Float? then 4 else 8;
    NumberBytes(v.bits, w);
    SignedBack(v.bits, w);
    hide Wrap;
  }

  /** A text or bytes field that fits is followed by zeros. */
  lemma {:induction false} TextBytes(c: Floats, kind: Kind, size: nat, v: Value)
    requires Typed(kind, v) && (kind.String? || kind.Bytes?)
    ensures var b := if v.VString? then v.text else v.bytes;
            |b| <= size ==> Written(c, kind, Sized(Char, size), v) == b + seq(size - |b|, i => 0)
  {
    hide ValidUtf8;
  }

  /** A kind's own width in bytes. */
  function OwnWidth(kind: Kind): nat {
    match kind
    case Bool => 1
    case Enum => 1
    case Int32 => 4
    case Uint32 => 4
    case Float => 4
    case _ => 8
  }

  /** Without an annotation a field is as wide as its kind, or as its length says. */
  lemma {:induction false} OwnEncoding(fd: Field)
    requires fd.encoding.None? && !fd.kind.Message?
    ensures if fd.kind.String? || fd.kind.Bytes? then
              if fd.length.None? then EncodingOf(fd).Err? else EncodingOf(fd) == Ok(Sized(Char, fd.length.value))
            else EncodingOf(fd).Ok? && EncodingOf(fd).value.size == OwnWidth(fd.kind)
    ensures fd.kind == Int32 || fd.kind == Int64 ==> EncodingOf(fd).value.encoding.Signed?
    ensures fd.kind == Uint32 || fd.kind == Uint64 || fd.kind.Bool? || fd.kind.Enum? ==> EncodingOf(fd).value.encoding.Unsigned?
    ensures fd.kind == Float ==> EncodingOf(fd).value.encoding.FloatBits?
    ensures fd.kind == Double ==> EncodingOf(fd).value.encoding.DoubleBits?
  {}

  /** With one, as wide as the bits in its name. */
  lemma {:induction false} NamedEncoding(w: nat)
    requires Width(w)
    ensures FromName("int" + ToDec(8 * w)) == Some(Sized(Signed(w), w))
    ensures FromName("uint" + ToDec(8 * w)) == Some(Sized(Unsigned(w), w))
    ensures FromName("float") == Some(Sized(FloatBits, 4)) && FromName("double") == Some(Sized(DoubleBits, 8))
  {
    BitNames();
    hide ToDec;
    IntNames();
    UintNames();
    FloatNames();
    hide FromName;
    var bits := if w == 1 then "8" else if w == 2 then "16" else if w == 4 then "32" else "64";
    assert ToDec(8 * w) == bits;
  }

  lemma {:induction false} FloatNames()
    ensures FromName("float") == Some(Sized(FloatBits, 4)) && FromName("double") == Some(Sized(DoubleBits, 8))
  {}

  lemma {:induction false} BitNames()
    ensures ToDec(8) == "8" && ToDec(16) == "16" && ToDec(32) == "32" && ToDec(64) == "64"
  {
    assert ToDec(1) == "1" && ToDec(3) == "3" && ToDec(6) == "6";
  }

  lemma {:induction false} IntNames()
    ensures FromName("int" + "8") == Some(Sized(Signed(1), 1)) && FromName("int" + "16") == Some(Sized(Signed(2), 2))
    ensures FromName("int" + "32") == Some(Sized(Signed(4), 4)) && FromName("int" + "64") == Some(Sized(Signed(8), 8))
  {
    assert "int" + "8" == "int8" && "int" + "16" == "int16" && "int" + "32" == "int32" && "int" + "64" == "int64";
  }

  lemma {:induction false} UintNames()
    ensures FromName("uint" + "8") == Some(Sized(Unsigned(1), 1)) && FromName("uint" + "16") == Some(Sized(Unsigned(2), 2))
    ensures FromName("uint" + "32") == Some(Sized(Unsigned(4), 4)) && FromName("uint" + "64") == Some(Sized(Unsigned(8), 8))
  {
    assert "uint" + "8" == "uint8" && "uint" + "16" == "uint16" && "uint" + "32" == "uint32" && "uint" + "64" == "uint64";
  }
}
