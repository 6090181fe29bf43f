/** BigUint from and to decimal digits and big-endian bytes, and exact powers
    of five. */
module BigUintText {
  import opened Powers
  import opened Bytes
  import opened Limbs
  import opened Decimals
  import opened BigUints

  const CHUNK: U32 := 1_000_000_000

  /** ASCII decimal digits to an integer, nine digits at a time. */
  method FromDecimalDigits(digits: string) returns (n: BigUint)
    requires AllDigits(digits)
    ensures fresh(n) && n.Valid() && n.Value() == DecVal(digits)
  {
    n := new BigUint.Zero();
    var at := 0;
    while at < |digits|
      invariant 0 <= at <= |digits|
      invariant n.Valid() && fresh(n)
      invariant n.Value() == DecVal(digits[..at])
    {
      var next := if |digits| - at < 9 then |digits| else at + 9;
      var v, scale := ChunkValue(digits[at..next]);
      n.MulSmallAdd(scale, v);
      DecAppend(digits[..at], digits[at..next]);
      assert digits[..next] == digits[..at] + digits[at..next];
      at := next;
    }
    assert digits[..at] == digits;
  }

  /** A chunk of at most nine digits, and the power of ten it scales by. */
  method ChunkValue(chunk: string) returns (v: U32, scale: U32)
    requires AllDigits(chunk) && |chunk| <= 9
    ensures v == DecVal(chunk) && scale == Pow(10, |chunk|)
  {
    TenToNine();
    v, scale := 0, 1;
    var i := 0;
    while i < |chunk|
      invariant 0 <= i <= |chunk|
      invariant v == DecVal(chunk[..i]) && scale == Pow(10, i)
    {
      assert chunk[..i + 1][..i] == chunk[..i];
      DecBound(chunk[..i + 1]);
      PowMono(10, i + 1, 9);
      v := v * 10 + Digit(chunk[i]);
      scale := scale * 10;
      i := i + 1;
    }
    assert chunk[..i] == chunk;
  }

  lemma TenToNine()
    ensures Pow(10, 9) == CHUNK
  {
    assert Pow(10, 3) == 1000;
    PowAdd(10, 3, 3);
    PowAdd(10, 6, 3);
  }

  predicate Chunks(chunks: seq<U32>) {
    forall i :: 0 <= i < |chunks| ==> chunks[i] < CHUNK
  }

  /** Little-endian chunks, most significant first, in nine digits each. */
  function Tail(chunks: seq<U32>): (s: string)
    requires Chunks(chunks)
    decreases |chunks|
  {
    if chunks == [] then ""
    else
      TenToNine();
      Padded(chunks[|chunks| - 1], 9) + Tail(chunks[..|chunks| - 1])
  }

  method ToDecimalString(n: BigUint) returns (s: string)
    requires n.Valid()
    ensures s == ToDec(n.Value())
  {
    if n.IsZero() {
      return "0";
    }
    var chunks := IntoChunks(n);
    s := JoinChunks(chunks);
  }

  method JoinChunks(chunks: seq<U32>) returns (s: string)
    requires Chunks(chunks) && chunks != []
    ensures s == ToDec(chunks[|chunks| - 1]) + Tail(chunks[..|chunks| - 1])
  {
    s := ToDec(chunks[|chunks| - 1]);
    var i := |chunks| - 1;
    TenToNine();
    ghost var whole := s + Tail(chunks[..i]);
    while i > 0
      invariant 0 <= i < |chunks|
      invariant whole == s + Tail(chunks[..i])
    {
      assert chunks[..i][..i - 1] == chunks[..i - 1];
      i := i - 1;
      var digits := Padded(chunks[i], 9);
      Glue(s, digits, Tail(chunks[..i]));
      s := s + digits;
    }
  }

  /** The number in base 10^9, least significant chunk first. */
  method IntoChunks(n: BigUint) returns (chunks: seq<U32>)
    requires n.Valid() && n.Value() > 0
    ensures Chunks(chunks) && chunks != []
    ensures ToDec(n.Value()) == ToDec(chunks[|chunks| - 1]) + Tail(chunks[..|chunks| - 1])
  {
    var limbs := n.limbs;
    chunks := [];
    NormalZero(limbs);
    var rem: U32 := 0;
    while limbs != []
      invariant Normal(limbs) && Chunks(chunks)
      invariant limbs != [] ==> ToDec(n.Value()) == ToDec(Nat(limbs)) + Tail(chunks)
      invariant limbs == [] ==> chunks != []
      invariant limbs == [] ==> ToDec(n.Value()) == ToDec(chunks[|chunks| - 1]) + Tail(chunks[..|chunks| - 1])
      decreases Nat(limbs)
    {
      NormalZero(limbs);
      var q;
      q, rem := DivByChunk(limbs);
      ChunkStep(Nat(limbs), Nat(q), rem, Tail(chunks));
      TailPush(chunks, rem);
      chunks := chunks + [rem];
      limbs := Trimmed(q);
      NormalZero(limbs);
    }
  }

  lemma TailPush(chunks: seq<U32>, c: U32)
    requires Chunks(chunks) && c < CHUNK
    ensures Pow(10, 9) == CHUNK
    ensures Chunks(chunks + [c]) && (chunks + [c])[..|chunks|] == chunks
    ensures Tail(chunks + [c]) == Padded(c, 9) + Tail(chunks)
  {
    TenToNine();
    assert (chunks + [c])[..|chunks|] == chunks;
  }

  lemma Glue(a: string, b: string, c: string)
    ensures a + (b + c) == a + b + c
  {}

  /** Taking a chunk off the bottom moves nine digits out of the number. */
  lemma ChunkStep(v: nat, q: nat, rem: U32, t: string)
    requires v == q * CHUNK + rem && v > 0 && rem < CHUNK
    ensures q < v && Pow(10, 9) == CHUNK
    ensures q > 0 ==> ToDec(v) + t == ToDec(q) + (Padded(rem, 9) + t)
    ensures q == 0 ==> v == rem
  {
    TenToNine();
    if q > 0 {
      ToDecSplit(q, rem, 9);
    }
    Glue(ToDec(q), Padded(rem, 9), t);
  }

  /** Long division by 10^9, most significant limb first. */
  method DivByChunk(s: seq<U32>) returns (q: seq<U32>, rem: U32)
    ensures Nat(s) == Nat(q) * CHUNK + rem && rem < CHUNK
  {
    q := s;
    rem := 0;
    var i := |s|;
    while i > 0
      invariant 0 <= i <= |s| == |q|
      invariant q[..i] == s[..i] && rem < CHUNK
      invariant Nat(s[i..]) == Nat(q[i..]) * CHUNK + rem
    {
      i := i - 1;
      assert q[i] == q[..i + 1][i] == s[i];
      var v: U64 := rem * BASE + q[i];
      DivLimb(s[i..], q[i + 1..], rem, v);
      assert s[i..][1..] == s[i + 1..];
      assert [v / CHUNK] + q[i + 1..] == q[i := v / CHUNK][i..];
      q := q[i := v / CHUNK];
      rem := v % CHUNK;
    }
    assert s[0..] == s && q[0..] == q;
  }

  lemma DivLimb(s: seq<U32>, q: seq<U32>, rem: U32, v: U64)
    requires s != [] && v == rem * BASE + s[0] && rem < CHUNK
    requires Nat(s[1..]) == Nat(q) * CHUNK + rem
    ensures v / CHUNK < BASE
    ensures Nat(s) == Nat([v / CHUNK] + q) * CHUNK + v % CHUNK
  {
    assert v / CHUNK < BASE by { assert v < BASE * CHUNK; }
    assert ([v / CHUNK] + q)[1..] == q;
  }

  method Trimmed(s: seq<U32>) returns (t: seq<U32>)
    ensures Normal(t) && Nat(t) == Nat(s)
  {
    t := s;
    while t != [] && t[|t| - 1] == 0
      invariant Nat(t) == Nat(s)
      decreases |t|
    {
      NatSnoc(t, |t| - 1);
      assert t[..|t|] == t;
      t := t[..|t| - 1];
    }
  }

  /** Exact 5^k, by square-and-multiply. */
  method Pow5Exact(k: nat) returns (result: BigUint)
    ensures fresh(result) && result.Valid() && result.Value() == Pow(5, k)
  {
    result := new BigUint.FromU64(1);
    var base := new BigUint.FromU64(5);
    var n := k;
    while n > 0
      invariant result.Valid() && base.Valid() && fresh(result)
      invariant result.Value() * Pow(base.Value(), n) == Pow(5, k)
      decreases n
    {
      SquareStep(base.Value(), n);
      if n % 2 == 1 {
        Assoc(result.Value(), base.Value(), Pow(base.Value() * base.Value(), n / 2));
        result := result.Mul(base);
      }
      n := n / 2;
      if n > 0 {
        base := base.Mul(base);
      }
    }
  }

  lemma SquareStep(b: nat, n: nat)
    requires n > 0
    ensures Pow(b, n) == (if n % 2 == 1 then b else 1) * Pow(b * b, n / 2)
  {
    PowOfProduct(b, b, n / 2);
    PowAdd(b, n / 2, n / 2);
    if n % 2 == 1 {
      assert n == 1 + (n / 2 + n / 2);
    }
  }

  // Big-endian bytes, as the wire message carries a magnitude.

  function BytesVal(b: seq<Byte>): nat {
    if b == [] then 0 else 256 * BytesVal(b[..|b| - 1]) + b[|b| - 1]
  }

  lemma {:induction false} BytesAppend(s: seq<Byte>, t: seq<Byte>)
    ensures BytesVal(s + t) == BytesVal(s) * Pow(256, |t|) + BytesVal(t)
    decreases |t|
  {
    if t == [] {
      assert s + t == s;
    } else {
      var u := t[..|t| - 1];
      BytesAppend(s, u);
      assert (s + t)[..|s + t| - 1] == s + u;
      Assoc(256, BytesVal(s), Pow(256, |u|));
      Assoc(BytesVal(s), 256, Pow(256, |u|));
    }
  }

  /** The canonical magnitude: no leading zero byte, empty for zero. */
  predicate CanonicalBytes(b: seq<Byte>) {
    b != [] ==> b[0] != 0
  }

  method FromBeBytes(bytes: seq<Byte>) returns (n: BigUint)
    ensures fresh(n) && n.Valid() && n.Value() == BytesVal(bytes)
  {
    var limbs: seq<U32> := [];
    var acc: U32 := 0;
    var shift := 0;
    var i := |bytes|;
    assert bytes[|bytes|..] == [];
    while i > 0
      invariant 0 <= i <= |bytes|
      invariant Partial(bytes[i..], limbs, acc, shift)
    {
      i := i - 1;
      assert bytes[i..][1..] == bytes[i + 1..];
      limbs, acc, shift := TakeByte(bytes[i], limbs, acc, shift, bytes[i..]);
    }
    assert bytes[0..] == bytes;
    if shift > 0 {
      PushLimb(limbs, acc);
      limbs := limbs + [acc];
    }
    n := new BigUint.FromLimbs(limbs);
  }

  /** The bytes read so far: whole limbs, and shift bits of the next one. */
  ghost predicate Partial(b: seq<Byte>, limbs: seq<U32>, acc: U32, shift: nat) {
    && shift <= 24 && shift % 8 == 0 && acc < Pow(2, shift)
    && 8 * |b| == 32 * |limbs| + shift
    && BytesVal(b) == Nat(limbs) + acc * Pow(BASE, |limbs|)
  }

  method TakeByte(b: Byte, limbs: seq<U32>, acc: U32, shift: nat, ghost all: seq<Byte>)
    returns (limbs': seq<U32>, acc': U32, shift': nat)
    requires all != [] && all[0] == b && Partial(all[1..], limbs, acc, shift)
    ensures Partial(all, limbs', acc', shift')
  {
    hide Nat, BytesVal, Pow;
    AddByte(all, limbs, acc, shift);
    acc' := OrByte(acc, b, shift);
    limbs', shift' := limbs, shift + 8;
    if shift' == 32 {
      FlushLimb(all, limbs, acc');
      limbs', acc', shift' := limbs + [acc'], 0, 0;
    }
  }

  lemma FlushLimb(b: seq<Byte>, limbs: seq<U32>, acc: U32)
    requires 8 * |b| == 32 * |limbs| + 32
    requires BytesVal(b) == Nat(limbs) + acc * Pow(BASE, |limbs|)
    ensures Partial(b, limbs + [acc], 0, 0)
  {
    PushLimb(limbs, acc);
    assert Pow(2, 0) == 1;
  }

  /** `acc | b << shift`; the bits are disjoint, so the or is a sum. */
  function OrByte(acc: U32, b: Byte, shift: nat): (r: U32)
    requires shift <= 24 && acc < Pow(2, shift)
    ensures r < Pow(2, shift + 8) <= BASE
  {
    ByteRoom(acc, b, shift);
    acc + b * Pow(2, shift)
  }

  lemma ByteRoom(acc: nat, b: Byte, shift: nat)
    requires shift <= 24 && acc < Pow(2, shift)
    ensures acc + b * Pow(2, shift) < Pow(2, shift + 8) <= BASE
  {
    PowAdd(2, 8, shift);
    assert Pow(2, 8) == 256;
    TopBounds(acc, b, Pow(2, shift), 0, 256);
    PowMono(2, shift + 8, 32);
    PowTwo32();
  }

  lemma PushLimb(limbs: seq<U32>, w: U32)
    ensures Nat(limbs + [w]) == Nat(limbs) + w * Pow(BASE, |limbs|)
  {
    var s := limbs + [w];
    NatSnoc(s, |limbs|);
    assert s[..|limbs|] == limbs && s[..|limbs| + 1] == s;
  }

  lemma AddByte(b: seq<Byte>, limbs: seq<U32>, acc: U32, shift: nat)
    requires b != [] && shift <= 24 && acc < Pow(2, shift)
    requires 8 * (|b| - 1) == 32 * |limbs| + shift
    requires BytesVal(b[1..]) == Nat(limbs) + acc * Pow(BASE, |limbs|)
    ensures BytesVal(b) == Nat(limbs) + OrByte(acc, b[0], shift) * Pow(BASE, |limbs|)
  {
    TopByte(b);
    PowBytes(|b| - 1, |limbs|, shift);
    Regrouped(acc, b[0], Pow(2, shift), Pow(BASE, |limbs|), Pow(256, |b| - 1));
  }

  lemma TopByte(b: seq<Byte>)
    requires b != []
    ensures BytesVal(b) == b[0] * Pow(256, |b| - 1) + BytesVal(b[1..])
  {
    assert b[..1] + b[1..] == b;
    BytesAppend(b[..1], b[1..]);
    assert BytesVal(b[..1]) == b[0] by { assert b[..1][..0] == []; }
  }

  lemma PowBytes(n: nat, words: nat, shift: nat)
    requires 8 * n == 32 * words + shift
    ensures Pow(256, n) == Pow(2, shift) * Pow(BASE, words)
  {
    assert Pow(2, 8) == 256;
    PowMul(2, 8, n);
    Pow32(words);
    PowAdd(2, shift, 32 * words);
  }

  lemma Regrouped(acc: nat, b: nat, p: nat, q: nat, pq: nat)
    requires pq == p * q
    ensures (acc + b * p) * q == acc * q + b * pq
  {
    Assoc(b, p, q);
  }

  method ToBeBytes(n: BigUint) returns (out: seq<Byte>)
    requires n.Valid()
    ensures BytesVal(out) == n.Value() && CanonicalBytes(out)
  {
    out := [];
    var limbs := n.limbs;
    var i := |limbs|;
    assert limbs[i..] == [];
    while i > 0
      invariant 0 <= i <= |limbs|
      invariant BytesVal(out) == Nat(limbs[i..])
    {
      i := i - 1;
      var w := limbs[i];
      assert limbs[i..][1..] == limbs[i + 1..];
      LimbBytes(out, w);
      out := out + WordBytes(w);
    }
    assert limbs[0..] == limbs;
    var first := 0;
    while first < |out| && out[first] == 0
      invariant 0 <= first <= |out|
      invariant BytesVal(out[first..]) == BytesVal(out)
    {
      var rest := out[first..];
      assert rest[1..] == out[first + 1..] && [0] + rest[1..] == rest;
      BytesAppend([0], rest[1..]);
      assert BytesVal([0]) == 0 by { assert [0 as Byte][..0] == []; }
      first := first + 1;
    }
    out := out[first..];
  }

  /** A limb's four bytes, most significant first. */
  function WordBytes(w: U32): (b: seq<Byte>) {
    [w / 0x100_0000, (w / 0x1_0000) % 256, (w / 256) % 256, w % 256]
  }

  lemma LimbBytes(out: seq<Byte>, w: U32)
    ensures BytesVal(out + WordBytes(w)) == w + BASE * BytesVal(out)
  {
    var b := WordBytes(w);
    BytesAppend(out, b);
    PowBytes(4, 1, 0);
    WordBytesVal(w);
  }

  lemma WordBytesVal(w: U32)
    ensures BytesVal(WordBytes(w)) == w
  {
    hide BytesVal;
    var b := WordBytes(w);
    PrefixBytes(b, 0);
    PrefixBytes(b, 1);
    PrefixBytes(b, 2);
    PrefixBytes(b, 3);
    assert b[..4] == b;
    WordDigits(w, w / 256, w / 0x1_0000, w / 0x100_0000);
  }

  lemma WordDigits(w: nat, x: nat, y: nat, z: nat)
    requires x == w / 256 && y == w / 0x1_0000 && z == w / 0x100_0000
    ensures 256 * (256 * (256 * z + y % 256) + x % 256) + w % 256 == w
  {
    assert y == x / 256 && z == y / 256;
  }

  lemma PrefixBytes(b: seq<Byte>, k: nat)
    requires k < |b|
    ensures BytesVal(b[..k + 1]) == 256 * BytesVal(b[..k]) + b[k]
    ensures k == 0 ==> BytesVal(b[..k]) == 0
  {
    assert b[..k + 1][..k] == b[..k];
  }
}
