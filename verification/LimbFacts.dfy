/** Bits, order and padding of limb sequences. */
module LimbFacts {
  import opened Powers
  import opened Limbs

  lemma BitIsInLimb(s: seq<U32>, i: nat)
    ensures (Nat(s) / Pow(2, i)) % 2 == 1 <==>
      (i / 32 < |s| && (s[i / 32] / Pow(2, i % 32)) % 2 == 1)
  {
    hide Pow, Nat, AnyNonZero;
    var l, b := i / 32, i % 32;
    if l < |s| {
      CutAt(s, l, b);
      CutInLimb(s[l..], b);
    } else {
      AllBelow(s, i);
    }
  }

  lemma AllBelow(s: seq<U32>, i: nat)
    requires i / 32 >= |s|
    ensures Nat(s) < Pow(2, i) && Nat(s) / Pow(2, i) == 0 && Nat(s) % Pow(2, i) == Nat(s)
  {
    NatBound(s);
    Pow32(|s|);
    PowMono(2, 32 * |s|, i);
    DivModUnique(Nat(s), Pow(2, i), 0, Nat(s));
  }

  predicate AnyNonZero(s: seq<U32>) {
    exists k :: 0 <= k < |s| && s[k] != 0
  }

  lemma ZeroIffZeros(s: seq<U32>)
    ensures Nat(s) != 0 <==> AnyNonZero(s)
  {
    if Nat(s) == 0 {
      NatZeroIsZeros(s);
    } else if !AnyNonZero(s) {
      NatZeros(s);
    }
  }

  lemma LowBitsInLimbs(s: seq<U32>, i: nat)
    ensures var l := i / 32;
      if l < |s| then Nat(s) % Pow(2, i) != 0 <==> (AnyNonZero(s[..l]) || s[l] % Pow(2, i % 32) != 0)
      else Nat(s) % Pow(2, i) != 0 <==> AnyNonZero(s)
  {
    hide Pow, Nat, AnyNonZero;
    var l, b := i / 32, i % 32;
    if l < |s| {
      CutAt(s, l, b);
      CutInLimb(s[l..], b);
      ZeroIffZeros(s[..l]);
      MulZero(Pow(BASE, l), s[l] % Pow(2, b));
    } else {
      AllBelow(s, i);
      ZeroIffZeros(s);
    }
  }

  lemma MulZero(p: nat, r: nat)
    requires p > 0
    ensures p * r == 0 <==> r == 0
  {}

  lemma NatPadded(s: seq<U32>, n: nat)
    ensures Nat(s + seq(n, k => 0)) == Nat(s)
  {
    NatAppend(s, seq(n, k => 0));
    NatZeros(seq(n, k => 0));
  }

  lemma PaddedBelow(words: nat, out: seq<U32>, bits: nat, v: nat)
    requires Nat(out) == v * Pow(2, bits)
    ensures Nat(seq(words, k => 0) + out) == v * Pow(2, 32 * words + bits)
  {
    NatAppend(seq(words, k => 0), out);
    NatZeros(seq(words, k => 0));
    Pow32(words);
    PowAdd(2, 32 * words, bits);
    Regroup(Pow(BASE, words), v, Pow(2, bits));
  }

  lemma Regroup(p: nat, v: nat, d: nat)
    ensures p * (v * d) == v * (p * d)
  {}

  /** Setting an unset bit adds its power of two. */
  lemma SetLimbBit(s: seq<U32>, i: nat)
    requires i / 32 < |s| && (Nat(s) / Pow(2, i)) % 2 == 0
    ensures s[i / 32] + Pow(2, i % 32) < BASE
    ensures Nat(s[i / 32 := s[i / 32] + Pow(2, i % 32)]) == Nat(s) + Pow(2, i)
  {
    hide Pow, Nat;
    var l, b := i / 32, i % 32;
    BitIsInLimb(s, i);
    RoomForBit(s[l], b);
    NatUpdate(s, l, s[l] + Pow(2, b));
    Pow32(l);
    PowAdd(2, b, 32 * l);
  }

  lemma RoomForBit(w: U32, b: nat)
    requires b < 32 && (w / Pow(2, b)) % 2 == 0
    ensures w + Pow(2, b) < BASE
  {
    PowAdd(2, b, 32 - b);
    PowTwo32();
    EvenQuotient(w, Pow(2, b), Pow(2, 31 - b));
  }

  lemma EvenQuotient(w: nat, d: nat, e: nat)
    requires d > 0 && (w / d) % 2 == 0 && w < d * (2 * e)
    ensures w + d < d * (2 * e)
  {
    var q := w / d;
    assert w == q * d + w % d;
    MulCancelLt(q, 2 * e, d);
    MulLe(q + 2, 2 * e, d, d);
    assert (q + 2) * d == q * d + d + d;
  }

  lemma LongerIsLarger(s: seq<U32>, t: seq<U32>)
    requires Normal(s) && Normal(t) && |s| != |t|
    ensures |s| < |t| <==> Nat(s) < Nat(t)
    ensures Nat(s) != Nat(t)
  {
    var a, b := if |s| < |t| then s else t, if |s| < |t| then t else s;
    NatBound(a);
    NormalLower(b);
    PowMono(BASE, |a|, |b| - 1);
  }

  /** The highest limb in which two equally long sequences differ decides. */
  lemma HigherLimbDecides(s: seq<U32>, t: seq<U32>, i: nat)
    requires i < |s| == |t| && s[i + 1..] == t[i + 1..] && s[i] != t[i]
    ensures Nat(s) != Nat(t)
    ensures Nat(s) < Nat(t) <==> s[i] < t[i]
  {
    NatSplit(s, i + 1);
    NatSplit(t, i + 1);
    NatSnoc(s, i);
    NatSnoc(t, i);
    NatBound(s[..i]);
    NatBound(t[..i]);
    var p := Pow(BASE, i);
    if s[i] < t[i] {
      TopBounds(Nat(s[..i]), s[i], p, s[i], t[i]);
    } else {
      TopBounds(Nat(t[..i]), t[i], p, t[i], s[i]);
    }
  }

  /** A divisor shifted up to the dividend's length is past half of it. */
  lemma AlignedTop(num: nat, den: nat)
    requires 0 < den <= num
    ensures BitLen(den) <= BitLen(num)
    ensures num < den * Pow(2, BitLen(num) - BitLen(den) + 1)
  {
    BitLenMono(den, num);
    BitLenBounds(num);
    BitLenBounds(den);
    var s := BitLen(num) - BitLen(den);
    PowAdd(2, BitLen(den) - 1, s + 1);
    MulLe(Pow(2, BitLen(den) - 1), den, Pow(2, s + 1), Pow(2, s + 1));
  }

  lemma UnsetBelow(q: nat, i: nat)
    requires q % Pow(2, i + 1) == 0
    ensures (q / Pow(2, i)) % 2 == 0
    ensures q % Pow(2, i) == 0 && (q + Pow(2, i)) % Pow(2, i) == 0
  {
    var p := Pow(2, i);
    var k := q / (2 * p);
    assert q == k * (2 * p) == (2 * k) * p;
    DivModUnique(q, p, 2 * k, 0);
    assert (2 * k + 1) * p == (2 * k) * p + p;
    DivModUnique(q + p, p, 2 * k + 1, 0);
  }

  lemma Half(den: nat, p: nat)
    ensures (den * (2 * p)) / Pow(2, 1) == den * p
  {
    assert den * (2 * p) == (den * p) * 2;
    assert Pow(2, 1) == 2;
  }

  lemma QuotientStep(q: nat, den: nat, rem: nat, p: nat)
    requires den * p <= rem < den * (2 * p)
    ensures (q + p) * den + (rem - den * p) == q * den + rem
    ensures rem - den * p < den * p
  {
    assert (q + p) * den == q * den + den * p;
    assert den * (2 * p) == den * p + den * p;
  }

  lemma RowTotal(n: nat, a: nat, p: nat, m: nat)
    ensures n * m + a * m * p == (n + a * p) * m
  {
    assert (a * p) * m == a * m * p;
  }
}
