/** Scalars in SBE: how a value is written in its encoding, what is read back, and
    when that is the value. */
module SbeValues {
  import opened Powers
  import opened Bytes
  import opened SbeLayout

  /** Floats are bit patterns. */
  datatype Value =
    | VBool(b: bool) | VEnum(n: int) | VI32(n: int) | VI64(n: int) | VU32(n: int) | VU64(n: int)
    | VF32(bits: nat) | VF64(bits: nat)
    | VString(text: seq<Byte>) | VBytes(bytes: seq<Byte>)
    | VMsg(fields: map<string, Value>) | VList(items: seq<Value>)

  /** The float conversions. */
  datatype Floats = Floats(
    narrow: nat -> nat, widen: nat -> nat,
    f32ToI64: nat -> int, f64ToI64: nat -> int, f32ToU64: nat -> int, f64ToU64: nat -> int,
    i64ToF32: int -> nat, i64ToF64: int -> nat)

  predicate Width(w: nat) {
    w == 1 || w == 2 || w == 4 || w == 8
  }

  /** The number of values of w bytes. */
  function Span(w: nat): nat {
    Pow(256, w)
  }

  lemma Spans()
    ensures Span(1) == 0x100 && Span(2) == 0x1_0000 && Span(4) == 0x1_0000_0000 && Span(8) == 0x1_0000_0000_0000_0000
  {
    assert Pow(256, 3) == 0x100_0000 && Pow(256, 4) == 256 * Pow(256, 3);
    assert Pow(256, 5) == 256 * Pow(256, 4) && Pow(256, 6) == 256 * Pow(256, 5);
    assert Pow(256, 7) == 256 * Pow(256, 6) && Pow(256, 8) == 256 * Pow(256, 7);
  }

  predicate SignedFits(n: int, w: nat) {
    -(Span(w) as int) <= 2 * n < Span(w)
  }

  predicate UnsignedFits(n: int, w: nat) {
    0 <= n < Span(w)
  }

  /** n as an unsigned integer of w bytes. */
  function Wrap(n: int, w: nat): (r: nat)
    ensures r < Span(w)
  {
    n % Span(w)
  }

  /** n as a signed integer of w bytes. */
  function ToSigned(n: int, w: nat): (r: int) {
    if 2 * Wrap(n, w) < Span(w) then Wrap(n, w) else Wrap(n, w) - Span(w)
  }

  // Little-endian bytes.

  function Le(n: nat, w: nat): (s: seq<Byte>)
    ensures |s| == w
    decreases w
  {
    if w == 0 then [] else [n % 256] + Le(n / 256, w - 1)
  }

  lemma {:induction false} LeBack(n: nat, w: nat)
    requires n < Span(w)
    ensures FromLe(Le(n, w)) == n
    decreases w
  {
    if w > 0 {
      LeBack(n / 256, w - 1);
      assert Le(n, w)[1..] == Le(n / 256, w - 1);
    }
  }

  lemma {:induction false} FromLeBound(s: seq<Byte>)
    ensures FromLe(s) < Span(|s|)
    decreases |s|
  {
    if s != [] {
      FromLeBound(s[1..]);
    }
  }

  // Types.

  /** What a field of the kind holds. */
  predicate Typed(kind: Kind, v: Value) {
    match kind
    case Bool => v.VBool?
    case Enum => v.VEnum? && SignedFits(v.n, 4)
    case Int32 => v.VI32? && SignedFits(v.n, 4)
    case Int64 => v.VI64? && SignedFits(v.n, 8)
    case Uint32 => v.VU32? && UnsignedFits(v.n, 4)
    case Uint64 => v.VU64? && UnsignedFits(v.n, 8)
    case Float => v.VF32? && v.bits < Span(4)
    case Double => v.VF64? && v.bits < Span(8)
    case String => v.VString? && ValidUtf8(v.text)
    case Bytes => v.VBytes?
    case Message(_) => v.VMsg?
  }

  // Writing.

  function AsI64(c: Floats, v: Value): int {
    match v
    case VI32(n) => n
    case VI64(n) => n
    case VU32(n) => n
    case VU64(n) => ToSigned(n, 8)
    case VBool(b) => if b then 1 else 0
    case VEnum(n) => n
    case VF32(bits) => c.f32ToI64(bits)
    case VF64(bits) => c.f64ToI64(bits)
    case _ => 0
  }

  function AsU64(c: Floats, v: Value): int {
    match v
    case VU32(n) => n
    case VU64(n) => n
    case VI32(n) => Wrap(n, 8)
    case VI64(n) => Wrap(n, 8)
    case VBool(b) => if b then 1 else 0
    case VEnum(n) => Wrap(n, 8)
    case VF32(bits) => c.f32ToU64(bits)
    case VF64(bits) => c.f64ToU64(bits)
    case _ => 0
  }

  /** Whether a character starts at n, or the text ends there. */
  predicate Boundary(s: seq<Byte>, n: nat) {
    n == |s| || (n < |s| && !Continuation(s[n]))
  }

  /** The last boundary at or before n. */
  function CutPoint(s: seq<Byte>, n: nat): (k: nat)
    requires n <= |s|
    ensures k <= n && (Boundary(s, k) || k == 0)
    ensures forall j :: k < j <= n ==> !Boundary(s, j)
  {
    if n == 0 || Boundary(s, n) then n else CutPoint(s, n - 1)
  }

  function CutString(s: seq<Byte>, n: nat): (r: seq<Byte>)
    ensures |r| <= n && r <= s
  {
    if |s| <= n then s else s[..CutPoint(s, n)]
  }

  function Zeros(n: nat): (s: seq<Byte>)
    ensures |s| == n
  {
    seq(n, i => 0)
  }

  /** The bytes of a char field before its padding. */
  function CharBytes(kind: Kind, size: nat, v: Value): (s: seq<Byte>)
    ensures |s| <= size
  {
    if kind.Bytes? && v.VBytes? then if |v.bytes| <= size then v.bytes else v.bytes[..size]
    else if v.VString? then CutString(v.text, size)
    else []
  }

  /** write_field on a scalar: exactly its size in bytes. */
  function Written(c: Floats, kind: Kind, e: Sized, v: Value): (s: seq<Byte>)
    requires WellSized(e)
    ensures |s| == e.size
  {
    match e.encoding
    case Signed(w) => Le(Wrap(AsI64(c, v), w), w)
    case Unsigned(w) => Le(Wrap(AsU64(c, v), w), w)
    case FloatBits => Le(if v.VF32? then v.bits else if v.VF64? then c.narrow(v.bits) else 0, 4)
    case DoubleBits => Le(if v.VF64? then v.bits else if v.VF32? then c.widen(v.bits) else 0, 8)
    case Char => CharBytes(kind, e.size, v) + Zeros(e.size - |CharBytes(kind, e.size, v)|)
  }

  predicate WellSized(e: Sized) {
    match e.encoding
    case Signed(w) => Width(w) && e.size == w
    case Unsigned(w) => Width(w) && e.size == w
    case FloatBits => e.size == 4
    case DoubleBits => e.size == 8
    case Char => true
  }

  lemma EncodingSized(fd: Field)
    requires !fd.kind.Message? && EncodingOf(fd).Ok?
    ensures WellSized(EncodingOf(fd).value)
  {}

  // Reading.

  /** A decoded value, a refusal, or a panic of the message's setter. */
  datatype Read<T> = Done(value: T) | Refuse | Panic

  function IntValue(c: Floats, kind: Kind, n: int): Value {
    match kind
    case Int32 => VI32(ToSigned(n, 4))
    case Int64 => VI64(n)
    case Uint32 => VU32(Wrap(n, 4))
    case Uint64 => VU64(Wrap(n, 8))
    case Bool => VBool(n != 0)
    case Enum => VEnum(ToSigned(n, 4))
    case Float => VF32(c.i64ToF32(n))
    case Double => VF64(c.i64ToF64(n))
    case _ => VI64(n)
  }

  function UintValue(kind: Kind, n: nat): Value {
    match kind
    case Bool => VBool(n != 0)
    case Enum => VEnum(ToSigned(n, 4))
    case Uint32 => VU32(Wrap(n, 4))
    case Uint64 => VU64(n)
    case Int32 => VI32(ToSigned(n, 4))
    case Int64 => VI64(ToSigned(n, 8))
    case _ => VU64(n)
  }

  /** The setter takes only values of the field's own type. */
  predicate Settable(kind: Kind, v: Value) {
    match kind
    case Bool => v.VBool?
    case Enum => v.VEnum?
    case Int32 => v.VI32?
    case Int64 => v.VI64?
    case Uint32 => v.VU32?
    case Uint64 => v.VU64?
    case Float => v.VF32?
    case Double => v.VF64?
    case String => v.VString?
    case Bytes => v.VBytes?
    case Message(_) => v.VMsg?
  }

  function Strip(s: seq<Byte>): (r: seq<Byte>)
    ensures r <= s && (r != [] ==> r[|r| - 1] != 0)
    ensures forall i :: |r| <= i < |s| ==> s[i] == 0
  {
    if s != [] && s[|s| - 1] == 0 then Strip(s[..|s| - 1]) else s
  }

  /** read_field on the bytes of a scalar. */
  function ReadScalar(c: Floats, kind: Kind, e: Sized, s: seq<Byte>): Read<Value>
    requires WellSized(e) && |s| == e.size
  {
    var v :=
      match e.encoding
      case Signed(w) => Done(IntValue(c, kind, ToSigned(FromLe(s), w)))
      case Unsigned(w) => Done(UintValue(kind, FromLe(s)))
      case FloatBits => Done(VF32(FromLe(s)))
      case DoubleBits => Done(VF64(FromLe(s)))
      case Char =>
        if kind.Bytes? then Done(VBytes(s))
        else if ValidUtf8(Strip(s)) then Done(VString(Strip(s)))
        else Refuse;
    if v.Done? && !Settable(kind, v.value) then Panic else v
  }

  /** Kinds and encodings whose values the setter takes. The layout does not check
      this. */
  predicate Readable(kind: Kind, e: Encoding) {
    match e
    case Signed(_) => !kind.String? && !kind.Bytes? && !kind.Message?
    case Unsigned(_) => kind.Bool? || kind.Enum? || kind.Int32? || kind.Int64? || kind.Uint32? || kind.Uint64?
    case FloatBits => kind.Float?
    case DoubleBits => kind.Double?
    case Char => kind.String? || kind.Bytes?
  }

  lemma ReadableExactly(c: Floats, kind: Kind, e: Sized, s: seq<Byte>)
    requires WellSized(e) && |s| == e.size && (e.encoding.Char? ==> kind.String? || kind.Bytes?)
    ensures ReadScalar(c, kind, e, s).Panic? <==> !Readable(kind, e.encoding)
  {
    hide FromLe, Strip, ToSigned, Wrap, ValidUtf8;
  }

  // What comes back.

  /** What a written scalar is read back as. */
  function Back(c: Floats, kind: Kind, e: Sized, v: Value): Value {
    match e.encoding
    case Signed(w) => IntValue(c, kind, ToSigned(AsI64(c, v), w))
    case Unsigned(w) => UintValue(kind, Wrap(AsU64(c, v), w))
    case FloatBits => v
    case DoubleBits => v
    case Char =>
      if kind.Bytes? && v.VBytes? then
        VBytes(if |v.bytes| <= e.size then v.bytes + Zeros(e.size - |v.bytes|) else v.bytes[..e.size])
      else if v.VString? then VString(Strip(CutString(v.text, e.size)))
      else v
  }

  /** Bytes of an integer kind. */
  function KindWidth(kind: Kind): nat {
    if kind.Int64? || kind.Uint64? then 8 else 4
  }

  /** The value survives its encoding. */
  predicate Fits(c: Floats, kind: Kind, e: Sized, v: Value) {
    match e.encoding
    case Signed(w) =>
      if kind.Bool? then true
      else if kind.Float? then v.VF32? && c.i64ToF32(ToSigned(c.f32ToI64(v.bits), w)) == v.bits
      else if kind.Double? then v.VF64? && c.i64ToF64(ToSigned(c.f64ToI64(v.bits), w)) == v.bits
      else Integer(v) && (w >= KindWidth(kind) || SignedFits(ToSigned(v.n, KindWidth(kind)), w))
    case Unsigned(w) =>
      if kind.Bool? then true
      else Integer(v) && (w >= KindWidth(kind) || UnsignedFits(Wrap(v.n, KindWidth(kind)), w))
    case FloatBits => true
    case DoubleBits => true
    case Char =>
      if v.VBytes? then |v.bytes| == e.size
      else v.VString? && |v.text| <= e.size && (v.text != [] ==> v.text[|v.text| - 1] != 0)
  }

  predicate Integer(v: Value) {
    v.VEnum? || v.VI32? || v.VI64? || v.VU32? || v.VU64?
  }

  // Integers.

  lemma ModMod(n: int, s: nat, k: nat, t: nat)
    requires s > 0 && k > 0 && t == k * s
    ensures (n % t) % s == n % s
    ensures (n % t - t) % s == n % s
  {
    var q, r := n / t, n % t;
    assert n == t * q + r;
    assert t * q == s * (k * q) by {
      Assoc(k, s, q);
      Assoc(s, k, q);
    }
    SameResidue(n, r, s, k * q);
    assert r - t == r + s * (-(k as int));
    SameResidue(r - t, r, s, -(k as int));
  }

  lemma SameResidue(a: int, b: int, s: nat, k: int)
    requires s > 0 && a == s * k + b
    ensures a % s == b % s
  {
    var q, r := b / s, b % s;
    assert b == s * q + r;
    assert a == s * (k + q) + r by {
      assert s * (k + q) == s * k + s * q;
    }
    DivModUnique(a, s, k + q, r);
  }

  lemma SpanRatio(w: nat, x: nat)
    requires w <= x
    ensures Span(x) == Span(x - w) * Span(w)
    ensures w < x ==> Span(x) >= 256 * Span(w)
  {
    PowAdd(256, x - w, w);
    if w < x {
      PowMono(256, 1, x - w);
      assert Pow(256, 1) == 256 * Pow(256, 0);
      MulLe(256, Span(x - w), Span(w), Span(w));
    }
  }

  /** Narrowing forgets a wider wrap. */
  lemma WrapWrap(n: int, w: nat, x: nat)
    requires w <= x
    ensures Wrap(Wrap(n, x), w) == Wrap(n, w) && Wrap(ToSigned(n, x), w) == Wrap(n, w)
  {
    SpanRatio(w, x);
    ModMod(n, Span(w), Span(x - w), Span(x));
    hide Span;
  }

  lemma InRange(n: int, s: nat)
    requires s > 0
    ensures (0 <= n < s ==> n % s == n) && (-(s as int) <= n < 0 ==> n % s == n + s)
  {
    if 0 <= n < s {
      DivModUnique(n, s, 0, n);
    } else if -(s as int) <= n < 0 {
      DivModUnique(n, s, -1, n + s);
    }
  }

  lemma SignedBack(n: int, w: nat)
    ensures SignedFits(ToSigned(n, w), w) && (SignedFits(n, w) <==> ToSigned(n, w) == n)
    ensures UnsignedFits(n, w) <==> Wrap(n, w) == n
    ensures UnsignedFits(Wrap(n, w), w)
    ensures Wrap(ToSigned(n, w), w) == Wrap(n, w)
  {
    InRange(n, Span(w));
    WrapWrap(n, w, w);
    hide Span;
  }

  /** Read at the kind's width, an integer written at another is as it was written
      or as it was. */
  lemma AtWidth(n: int, x: int, w: nat, k: nat)
    requires Wrap(x, w) == Wrap(n, w) && (SignedFits(x, w) || UnsignedFits(x, w))
    ensures w >= k ==> Wrap(x, k) == Wrap(n, k) && ToSigned(x, k) == ToSigned(n, k)
    ensures w < k ==> ToSigned(x, k) == x && (x >= 0 ==> Wrap(x, k) == x) && (x < 0 ==> Wrap(x, k) == x + Span(k))
  {
    if w >= k {
      WrapWrap(n, k, w);
      WrapWrap(x, k, w);
    } else {
      SpanRatio(w, k);
      InRange(x, Span(k));
      hide Span;
    }
  }

  /** A signed kind of k bytes through an encoding of w. */
  lemma SignedKind(n: int, w: nat, k: nat)
    requires SignedFits(n, k) && k <= 8
    ensures ToSigned(ToSigned(n, w), k) == n <==> w >= k || SignedFits(ToSigned(n, k), w)
    ensures w <= 8 ==> (ToSigned(Wrap(Wrap(n, 8), w), k) == n <==> w >= k || UnsignedFits(Wrap(n, k), w))
  {
    SignedBack(n, w);
    SignedBack(n, k);
    AtWidth(n, ToSigned(n, w), w, k);
    if w <= 8 {
      WrapWrap(n, w, 8);
      WrapWrap(n, w, w);
      AtWidth(n, Wrap(n, w), w, k);
    }
    if w < k {
      SpanRatio(w, k);
      InRange(n, Span(k));
    }
    hide Span;
  }

  /** An unsigned kind of k bytes. */
  lemma UnsignedKind(n: int, w: nat, k: nat)
    requires UnsignedFits(n, k)
    ensures Wrap(ToSigned(n, w), k) == n <==> w >= k || SignedFits(ToSigned(n, k), w)
    ensures Wrap(Wrap(n, w), k) == n <==> w >= k || UnsignedFits(Wrap(n, k), w)
  {
    hide Span, Wrap, ToSigned, SignedFits, UnsignedFits;
    SignedBack(n, w);
    SignedBack(n, k);
    WrapWrap(n, w, w);
    var x := ToSigned(n, w);
    AtWidth(n, x, w, k);
    AtWidth(n, Wrap(n, w), w, k);
    if w < k {
      Congruent(n, x, w, k);
      WrapSmall(n, w, k);
    }
  }

  lemma WrapSmall(n: int, w: nat, k: nat)
    requires UnsignedFits(n, k) && w < k
    ensures Wrap(Wrap(n, w), k) == n <==> UnsignedFits(n, w)
  {
    SpanRatio(w, k);
    SignedBack(Wrap(n, w), k);
    SignedBack(n, w);
    hide Span;
  }

  /** A narrow signed value stands for n at the wider width exactly when it is n's
      signed value. */
  lemma Congruent(n: int, x: int, w: nat, k: nat)
    requires UnsignedFits(n, k) && w < k && x == ToSigned(n, w)
    ensures Wrap(x, k) == n <==> SignedFits(ToSigned(n, k), w)
  {
    var s := ToSigned(n, k);
    SignedBack(n, k);
    SignedBack(n, w);
    SignedBack(s, w);
    WrapWrap(n, w, k);
    AtWidth(n, x, w, k);
    assert ToSigned(s, w) == x;
    if Wrap(x, k) == n {
      hide Wrap, Span;
      assert ToSigned(x, k) == s by {
        SameSigned(x, n, k);
      }
    }
    hide Span, Wrap, ToSigned, SignedFits;
  }

  lemma SameSigned(a: int, b: int, k: nat)
    requires Wrap(a, k) == b && UnsignedFits(b, k)
    ensures ToSigned(a, k) == ToSigned(b, k)
  {
    SignedBack(b, k);
  }

  /** An integer or bool survives exactly when its encoding is as wide as its kind,
      or holds its value. */
  lemma IntegerBack(c: Floats, kind: Kind, e: Sized, v: Value)
    requires WellSized(e) && (e.encoding.Signed? || e.encoding.Unsigned?) && Typed(kind, v) && (Integer(v) || v.VBool?)
    ensures Back(c, kind, e, v) == v <==> Fits(c, kind, e, v)
  {
    hide Span, Wrap, ToSigned, SignedFits, UnsignedFits;
    var w, k := e.size, KindWidth(kind);
    match kind
    case Bool => OneBit(if v.b then 1 else 0, w);
    case Uint32 =>
      UnsignedKind(v.n, w, k);
    case Uint64 =>
      UnsignedKind(v.n, w, k);
      SignedBack(v.n, 8);
      SignedBack(v.n, w);
      WrapWrap(v.n, w, 8);
      WrapWrap(v.n, w, w);
      SameWrap(ToSigned(v.n, 8), v.n, w);
      AtWidth(v.n, Wrap(v.n, w), w, 8);
    case Int64 =>
      SignedKind(v.n, w, k);
      SignedBack(v.n, w);
      AtWidth(v.n, ToSigned(v.n, w), w, 8);
      SignedBack(ToSigned(v.n, w), 8);
    case Int32 => SignedKind(v.n, w, k);
    case Enum => SignedKind(v.n, w, k);
    case _ =>
  }

  lemma SameWrap(a: int, b: int, w: nat)
    requires Wrap(a, w) == Wrap(b, w)
    ensures ToSigned(a, w) == ToSigned(b, w)
  {}

  lemma OneBit(n: int, w: nat)
    requires 0 <= n <= 1 && Width(w)
    ensures Wrap(n, w) == n && ToSigned(n, w) == n
  {
    Spans();
    InRange(n, Span(w));
    hide Span;
  }

  // Strings.

  /** A text cut where a character starts is a text. */
  lemma {:induction false} PrefixValid(s: seq<Byte>, k: nat)
    requires ValidUtf8(s) && Boundary(s, k)
    ensures ValidUtf8(s[..k])
    decreases |s|
  {
    if k > 0 {
      var n := if s[0] < 0x80 then 1 else if s[0] <= 0xdf then 2 else if s[0] <= 0xef then 3 else 4;
      assert forall i :: 1 <= i < n ==> Continuation(s[i]);
      assert k >= n;
      assert Boundary(s[n..], k - n);
      PrefixValid(s[n..], k - n);
      assert s[..k][n..] == s[n..][..k - n];
    }
  }

  lemma CutValid(s: seq<Byte>, n: nat)
    requires ValidUtf8(s)
    ensures ValidUtf8(CutString(s, n))
  {
    if |s| > n && CutPoint(s, n) > 0 {
      PrefixValid(s, CutPoint(s, n));
    }
  }

  /** A text is cut to its longest prefix of whole characters that fits. */
  lemma CutLongest(s: seq<Byte>, n: nat)
    requires ValidUtf8(s)
    ensures var r := CutString(s, n);
            && ValidUtf8(r) && |r| <= n && r <= s
            && forall k: nat :: k <= n && Boundary(s, k) ==> k <= |r|
  {
    CutValid(s, n);
  }

  lemma {:induction false} StripValid(s: seq<Byte>)
    requires ValidUtf8(s)
    ensures ValidUtf8(Strip(s))
    decreases |s|
  {
    if s != [] && s[|s| - 1] == 0 {
      PrefixValid(s, |s| - 1);
      StripValid(s[..|s| - 1]);
    }
  }

  lemma {:induction false} StripPadding(s: seq<Byte>, n: nat)
    ensures Strip(s + Zeros(n)) == Strip(s)
    decreases n
  {
    if n == 0 {
      assert s + Zeros(0) == s;
    } else {
      var padded := s + Zeros(n);
      assert padded[..|padded| - 1] == s + Zeros(n - 1);
      StripPadding(s, n - 1);
    }
  }

  // The theorem on scalars.

  /** What is read of a written scalar, whatever its kind and encoding. */
  lemma ScalarBack(c: Floats, kind: Kind, e: Sized, v: Value)
    requires WellSized(e) && Typed(kind, v) && Readable(kind, e.encoding)
    ensures ReadScalar(c, kind, e, Written(c, kind, e, v)) == Done(Back(c, kind, e, v))
  {
    if e.encoding.Char? {
      CharBack(c, kind, e, v);
    } else if e.encoding.FloatBits? || e.encoding.DoubleBits? {
      LeBack(v.bits, e.size);
      hide FromLe, Le, Span;
    } else {
      NumberBack(c, kind, e, v);
    }
  }

  lemma NumberBack(c: Floats, kind: Kind, e: Sized, v: Value)
    requires WellSized(e) && Readable(kind, e.encoding) && (e.encoding.Signed? || e.encoding.Unsigned?)
    ensures ReadScalar(c, kind, e, Written(c, kind, e, v)) == Done(Back(c, kind, e, v))
  {
    hide Span, Wrap, ToSigned, ValidUtf8, Strip, FromLe, Le, AsI64, AsU64;
    var n := if e.encoding.Signed? then AsI64(c, v) else AsU64(c, v);
    LeWrap(n, e.size);
    WrapWrap(n, e.size, e.size);
    SameWrap(Wrap(n, e.size), n, e.size);
  }

  lemma CharBack(c: Floats, kind: Kind, e: Sized, v: Value)
    requires e.encoding.Char? && Typed(kind, v) && Readable(kind, e.encoding)
    ensures ReadScalar(c, kind, e, Written(c, kind, e, v)) == Done(Back(c, kind, e, v))
  {
    if v.VString? {
      var cut := CutString(v.text, e.size);
      CutValid(v.text, e.size);
      StripValid(cut);
      StripPadding(cut, e.size - |cut|);
    } else if |v.bytes| > e.size {
      assert v.bytes[..e.size] + Zeros(0) == v.bytes[..e.size];
    }
    hide ValidUtf8, Strip, CutString;
  }

  lemma LeWrap(n: int, w: nat)
    ensures FromLe(Le(Wrap(n, w), w)) == Wrap(n, w)
  {
    LeBack(Wrap(n, w), w);
  }

  /** A scalar comes back exactly when it fits: integers in range for the encoding or
      no wider than it, texts short enough without a trailing NUL, bytes of the full
      length. */
  lemma ScalarExact(c: Floats, kind: Kind, e: Sized, v: Value)
    requires WellSized(e) && Typed(kind, v) && Readable(kind, e.encoding)
    ensures Back(c, kind, e, v) == v <==> Fits(c, kind, e, v)
  {
    if (e.encoding.Signed? || e.encoding.Unsigned?) && !v.VF32? && !v.VF64? {
      IntegerBack(c, kind, e, v);
      hide *;
    } else if v.VString? {
      TextExact(v.text, e.size);
    } else if v.VBytes? {
      if |v.bytes| == e.size {
        assert v.bytes + Zeros(0) == v.bytes;
      }
    }
    hide ToSigned, Wrap, Span;
  }

  lemma TextExact(s: seq<Byte>, n: nat)
    ensures Strip(CutString(s, n)) == s <==> |s| <= n && (s != [] ==> s[|s| - 1] != 0)
  {
    var cut := CutString(s, n);
    if |s| > n {
      assert |Strip(cut)| <= |cut| < |s|;
    }
  }
}
