/** Little-endian sequences of 32-bit limbs and the naturals they denote. */
module Limbs {
  import opened Powers

  const BASE: nat := 0x1_0000_0000

  type U32 = x: int | 0 <= x < 0x1_0000_0000
  type U64 = x: int | 0 <= x < 0x1_0000_0000_0000_0000

  /** The low and high halves of a 64-bit intermediate. */
  function Lo(v: U64): (w: U32) {
    v % BASE
  }

  function Hi(v: U64): (w: U32)
    ensures v == Lo(v) + BASE * w
  {
    v / BASE
  }

  /** The number a limb sequence denotes, least significant limb first. */
  function Nat(s: seq<U32>): nat {
    if s == [] then 0 else s[0] + BASE * Nat(s[1..])
  }

  /** The representation invariant: no leading (most significant) zero limb. */
  predicate Normal(s: seq<U32>) {
    s != [] ==> s[|s| - 1] != 0
  }

  lemma {:induction false} NatAppend(s: seq<U32>, t: seq<U32>)
    ensures Nat(s + t) == Nat(s) + Pow(BASE, |s|) * Nat(t)
    decreases |s|
  {
    if s == [] {
      assert s + t == t;
    } else {
      NatAppend(s[1..], t);
      assert (s + t)[1..] == s[1..] + t;
      Assoc(BASE, Pow(BASE, |s| - 1), Nat(t));
    }
  }

  lemma NatSnoc(s: seq<U32>, i: nat)
    requires i < |s|
    ensures Nat(s[..i + 1]) == Nat(s[..i]) + s[i] * Pow(BASE, i)
  {
    NatAppend(s[..i], [s[i]]);
    assert s[..i] + [s[i]] == s[..i + 1];
    assert Nat([s[i]]) == s[i];
  }

  lemma NatSplit(s: seq<U32>, i: nat)
    requires i <= |s|
    ensures Nat(s) == Nat(s[..i]) + Pow(BASE, i) * Nat(s[i..])
  {
    NatAppend(s[..i], s[i..]);
    assert s[..i] + s[i..] == s;
  }

  lemma NatUpdate(s: seq<U32>, i: nat, v: U32)
    requires i < |s|
    ensures Nat(s[i := v]) == Nat(s) + (v - s[i]) * Pow(BASE, i)
  {
    var t := s[i := v];
    NatSplit(s, i + 1);
    NatSplit(t, i + 1);
    NatSnoc(s, i);
    NatSnoc(t, i);
    assert t[..i] == s[..i] && t[i + 1..] == s[i + 1..];
    assert (v - s[i]) * Pow(BASE, i) == v * Pow(BASE, i) - s[i] * Pow(BASE, i);
  }

  lemma {:induction false} NatBound(s: seq<U32>)
    ensures Nat(s) < Pow(BASE, |s|)
    decreases |s|
  {
    if s != [] {
      NatBound(s[1..]);
    }
  }

  lemma NormalLower(s: seq<U32>)
    requires Normal(s) && s != []
    ensures Nat(s) >= Pow(BASE, |s| - 1)
  {
    var k := |s| - 1;
    NatSnoc(s, k);
    assert s[..k + 1] == s;
    MulLe(1, s[k], Pow(BASE, k), Pow(BASE, k));
  }

  lemma {:induction false} NatZeros(s: seq<U32>)
    requires forall k :: 0 <= k < |s| ==> s[k] == 0
    ensures Nat(s) == 0
    decreases |s|
  {
    if s != [] {
      NatZeros(s[1..]);
    }
  }

  lemma {:induction false} NatZeroIsZeros(s: seq<U32>)
    requires Nat(s) == 0
    ensures forall k :: 0 <= k < |s| ==> s[k] == 0
    decreases |s|
  {
    if s != [] {
      NatZeroIsZeros(s[1..]);
      assert forall k :: 1 <= k < |s| ==> s[k] == s[1..][k - 1];
    }
  }

  lemma NormalZero(s: seq<U32>)
    requires Normal(s)
    ensures Nat(s) == 0 <==> s == []
  {
    if s != [] {
      NormalLower(s);
    }
  }

  /** A number has one normal limb sequence. */
  lemma {:induction false} NormalUnique(s: seq<U32>, t: seq<U32>)
    requires Normal(s) && Normal(t) && Nat(s) == Nat(t)
    ensures s == t
    decreases |s|
  {
    NormalZero(s);
    NormalZero(t);
    if s != [] {
      LowLimb(s);
      LowLimb(t);
      assert s[0] == t[0] && Nat(s[1..]) == Nat(t[1..]);
      NormalUnique(s[1..], t[1..]);
      assert s == [s[0]] + s[1..] == [t[0]] + t[1..] == t;
    }
  }

  lemma LowLimb(s: seq<U32>)
    requires s != []
    ensures Nat(s) % BASE == s[0] && Nat(s) / BASE == Nat(s[1..])
  {
    DivModUnique(Nat(s), BASE, Nat(s[1..]), s[0]);
  }

  lemma TopBounds(lo: nat, top: nat, p: nat, x: nat, y: nat)
    requires lo < p && x <= top < y
    ensures x * p <= lo + top * p < y * p
  {
    MulLe(x, top, p, p);
    MulLe(top + 1, y, p, p);
    assert (top + 1) * p == top * p + p;
  }

  /** Length and top limb decide the bit length of a normal sequence. */
  lemma NatBitLen(s: seq<U32>)
    requires Normal(s) && s != []
    ensures BitLen(Nat(s)) == 32 * (|s| - 1) + BitLen(s[|s| - 1])
  {
    var k := |s| - 1;
    NatSnoc(s, k);
    assert s[..k + 1] == s;
    NatBound(s[..k]);
    Pow32(k);
    TopBitLen(Nat(s[..k]), s[k], 32 * k);
  }

  lemma TopBitLen(lo: nat, top: nat, e: nat)
    requires lo < Pow(2, e) && top > 0
    ensures BitLen(lo + top * Pow(2, e)) == e + BitLen(top)
  {
    var b := BitLen(top);
    BitLenBounds(top);
    TopBounds(lo, top, Pow(2, e), Pow(2, b - 1), Pow(2, b));
    PowAdd(2, b - 1, e);
    PowAdd(2, b, e);
    BitLenUnique(lo + top * Pow(2, e), e + b);
  }

  lemma Pow32(k: nat)
    ensures Pow(BASE, k) == Pow(2, 32 * k)
  {
    PowTwo32();
    PowMul(2, 32, k);
  }

  lemma PowTwo32()
    ensures Pow(2, 32) == BASE
  {
    assert Pow(2, 8) == 256;
    PowAdd(2, 8, 8);
    PowAdd(2, 16, 16);
  }

  lemma CutProduct(lo: nat, p: nat, hi: nat, d: nat)
    requires lo < p && d > 0
    ensures p * d > 0
    ensures (lo + p * hi) / (p * d) == hi / d
    ensures (lo + p * hi) % (p * d) == lo + p * (hi % d)
  {
    var q, r := hi / d, hi % d;
    assert p * hi == q * (p * d) + p * r by {
      assert hi == q * d + r;
      assert p * (q * d + r) == p * (q * d) + p * r;
      assert p * (q * d) == q * (p * d);
    }
    MulLe(p, p, r + 1, d);
    assert p * (r + 1) == p * r + p;
    DivModUnique(lo + p * hi, p * d, q, lo + p * r);
  }

  /** Cutting at bit 32 * l + b is cutting the limbs at l and the rest at b. */
  lemma CutAt(s: seq<U32>, l: nat, b: nat)
    requires l <= |s|
    ensures Nat(s) / Pow(2, 32 * l + b) == Nat(s[l..]) / Pow(2, b)
    ensures Nat(s) % Pow(2, 32 * l + b) == Nat(s[..l]) + Pow(BASE, l) * (Nat(s[l..]) % Pow(2, b))
  {
    NatSplit(s, l);
    NatBound(s[..l]);
    Pow32(l);
    PowAdd(2, 32 * l, b);
    CutProduct(Nat(s[..l]), Pow(BASE, l), Nat(s[l..]), Pow(2, b));
  }

  lemma CutLow(x: nat, d: nat, e: nat, rest: nat)
    requires d > 0
    ensures (x + d * (2 * e) * rest) % d == x % d
    ensures ((x + d * (2 * e) * rest) / d) % 2 == (x / d) % 2
  {
    var q, r := x / d, x % d;
    var n := 2 * (e * rest);
    assert d * (2 * e) * rest == n * d;
    assert (q + n) * d == q * d + n * d;
    DivModUnique(x + n * d, d, q + n, r);
    assert (q + n) % 2 == q % 2;
  }

  /** Below 32 bits, the lowest limb alone decides. */
  lemma CutInLimb(s: seq<U32>, b: nat)
    requires s != [] && b < 32
    ensures Nat(s) % Pow(2, b) == s[0] % Pow(2, b)
    ensures (Nat(s) / Pow(2, b)) % 2 == (s[0] / Pow(2, b)) % 2
  {
    PowAdd(2, b, 32 - b);
    PowTwo32();
    CutLow(s[0], Pow(2, b), Pow(2, 31 - b), Nat(s[1..]));
  }
}
