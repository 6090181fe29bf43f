/** What one pass over the limbs computes, as recursive functions from the low
    limb up, with the natural each result denotes. The loops of BigUint are
    proved against these. */
module LimbOps {
  import opened Powers
  import opened Limbs

  /** Multiply every limb by m, adding the carry c at the bottom. */
  function MulAdd(s: seq<U32>, m: U32, c: U32): (t: seq<U32>)
    ensures Nat(t) == Nat(s) * m + c
    ensures Normal(s) && m > 0 ==> Normal(t) && (s != [] ==> t != [])
    decreases |s|
  {
    if s == [] then if c > 0 then [c] else []
    else
      var v := MulAddLimb(s[0], m, c);
      var t := MulAdd(s[1..], m, Hi(v));
      MulAddValue(s[0], Nat(s[1..]), m, c, v);
      ConsNat(Lo(v), t);
      [Lo(v)] + t
  }

  function MulAddLimb(w: U32, m: U32, c: U32): (v: U64)
    ensures v == w * m + c && Hi(v) < BASE
    ensures m > 0 && w > 0 ==> v > 0
  {
    MulLe(w, BASE - 1, m, BASE - 1);
    assert w > 0 && m > 0 ==> w * m > 0;
    w * m + c
  }

  lemma MulAddValue(w: nat, n: nat, m: nat, c: nat, v: U64)
    requires v == w * m + c
    ensures Lo(v) + BASE * (n * m + Hi(v)) == (w + BASE * n) * m + c
  {
    assert (w + BASE * n) * m == w * m + (BASE * n) * m;
    assert (BASE * n) * m == BASE * (n * m);
  }

  lemma ConsNat(w: U32, t: seq<U32>)
    ensures Nat([w] + t) == w + BASE * Nat(t)
  {
    assert ([w] + t)[1..] == t;
  }

  /** Add one, carrying through runs of all-ones limbs. */
  function Increment(s: seq<U32>): (t: seq<U32>)
    ensures Nat(t) == Nat(s) + 1
    ensures Normal(s) ==> Normal(t) && t != []
    decreases |s|
  {
    if s == [] then [1]
    else
      var t := if s[0] == BASE - 1 then Increment(s[1..]) else s[1..];
      ConsNat(PlusOne(s[0]), t);
      [PlusOne(s[0])] + t
  }

  /** A limb plus one, wrapping around. */
  function PlusOne(w: U32): U32 {
    if w == BASE - 1 then 0 else w + 1
  }

  /** Subtract t and the borrow; t reads as zero past its end. */
  function Subtract(s: seq<U32>, t: seq<U32>, borrow: nat): (d: seq<U32>)
    requires borrow <= 1
    requires Nat(t) + borrow <= Nat(s)
    ensures Nat(d) == Nat(s) - Nat(t) - borrow
    decreases |s|
  {
    if s == [] then []
    else
      var o := if t == [] then 0 else t[0];
      var rest := if t == [] then [] else t[1..];
      assert Nat(t) == o + BASE * Nat(rest);
      var d := Subtract(s[1..], rest, BorrowOut(s[0], o, borrow));
      ConsNat(DiffLimb(s[0], o, borrow), d);
      [DiffLimb(s[0], o, borrow)] + d
  }

  /** One when w - o - borrow is negative. */
  function BorrowOut(w: U32, o: U32, borrow: nat): (b: nat)
    ensures b <= 1
  {
    if w - o - borrow < 0 then 1 else 0
  }

  /** w - o - borrow, brought back into a limb. */
  function DiffLimb(w: U32, o: U32, borrow: nat): (d: U32)
    requires borrow <= 1
    ensures d == w - o - borrow + BASE * BorrowOut(w, o, borrow)
  {
    var v := w as int - o - borrow;
    if v < 0 then v + BASE else v
  }

  /** Shift left by b bits inside the limbs; c holds the bits shifted out of
      the limb below. A bitwise or of disjoint bits is a sum. */
  function ShiftUp(s: seq<U32>, b: nat, c: U32): (t: seq<U32>)
    requires 0 < b < 32 && c < Pow(2, b)
    ensures Nat(t) == Nat(s) * Pow(2, b) + c
    decreases |s|
  {
    if s == [] then if c > 0 then [c] else []
    else
      var t := ShiftUp(s[1..], b, ShlOut(s[0], b));
      var low := ShlKept(s[0], b) + c;
      ShiftValue(s[0], Nat(s[1..]), b, c);
      ConsNat(low, t);
      [low] + t
  }

  /** `w << b`, the bits that stay in the limb. */
  function ShlKept(w: U32, b: nat): (r: U32)
    requires 0 < b < 32
    ensures r + Pow(2, b) <= BASE
    ensures r == (w % Pow(2, 32 - b)) * Pow(2, b)
  {
    SplitLimb(w, b);
    (w * Pow(2, b)) % BASE
  }

  /** `w >> (32 - b)`, the bits a left shift moves to the limb above. */
  function ShlOut(w: U32, b: nat): (r: U32)
    requires 0 < b < 32
    ensures r < Pow(2, b)
    ensures w * Pow(2, b) == BASE * r + ShlKept(w, b)
  {
    SplitLimb(w, b);
    w / Pow(2, 32 - b)
  }

  /** The b low bits survive a left shift by 32 - b, the others a right one. */
  lemma SplitLimb(w: U32, b: nat)
    requires 0 < b < 32
    ensures Pow(2, b) * Pow(2, 32 - b) == BASE
    ensures w / Pow(2, 32 - b) < Pow(2, b)
    ensures (w * Pow(2, b)) % BASE == (w % Pow(2, 32 - b)) * Pow(2, b)
    ensures (w * Pow(2, b)) % BASE + Pow(2, b) <= BASE
    ensures (w * Pow(2, b)) / BASE == w / Pow(2, 32 - b)
  {
    PowAdd(2, b, 32 - b);
    PowTwo32();
    SplitProduct(w, Pow(2, b), Pow(2, 32 - b));
  }

  lemma SplitProduct(w: nat, d: nat, e: nat)
    requires w < BASE && d > 0 && e > 0 && d * e == BASE
    ensures w / e < d
    ensures (w * d) % BASE == (w % e) * d
    ensures (w % e) * d + d <= BASE
    ensures (w * d) / BASE == w / e
  {
    var q, r := w / e, w % e;
    LtByProduct(q, e, w, d);
    MulLe(r + 1, e, d, d);
    assert (r + 1) * d == r * d + d;
    assert w * d == q * BASE + r * d by {
      assert (q * e + r) * d == (q * e) * d + r * d;
      assert (q * e) * d == q * (d * e);
    }
    DivModUnique(w * d, BASE, q, r * d);
  }

  lemma LtByProduct(q: nat, e: nat, w: nat, d: nat)
    requires e > 0 && q * e <= w < d * e
    ensures q < d
  {
    MulCancelLt(q, d, e);
  }

  lemma ShiftValue(w: U32, n: nat, b: nat, c: nat)
    requires 0 < b < 32
    ensures ShlKept(w, b) + c + BASE * (n * Pow(2, b) + ShlOut(w, b)) == (w + BASE * n) * Pow(2, b) + c
  {
    var d := Pow(2, b);
    assert (w + BASE * n) * d == w * d + BASE * (n * d);
  }

  /** Shift right by b bits inside the limbs. */
  function ShiftDown(s: seq<U32>, b: nat): (t: seq<U32>)
    requires 0 < b < 32
    ensures |t| == |s|
    ensures Nat(t) == Nat(s) / Pow(2, b)
    decreases |s|
  {
    if s == [] then
      assert 0 / Pow(2, b) == 0;
      []
    else
      var t := ShiftDown(s[1..], b);
      ShiftDownValue(s, b);
      ConsNat(ShrLimb(s, 0, b), t);
      [ShrLimb(s, 0, b)] + t
  }

  /** Limb i of a right shift: its own high bits under the low bits of the limb
      above. */
  function ShrLimb(s: seq<U32>, i: nat, b: nat): (w: U32)
    requires 0 < b < 32 && i < |s|
    ensures w == ShlOut(s[i], 32 - b) + (Nat(s[i + 1..]) % Pow(2, b)) * Pow(2, 32 - b)
  {
    HighBits(s[i + 1..], b);
    ShlOut(s[i], 32 - b) + if i + 1 < |s| then ShlKept(s[i + 1], 32 - b) else 0
  }

  lemma HighBits(s: seq<U32>, b: nat)
    requires 0 < b < 32
    ensures (if s != [] then ShlKept(s[0], 32 - b) else 0) == (Nat(s) % Pow(2, b)) * Pow(2, 32 - b)
    ensures (Nat(s) % Pow(2, b)) * Pow(2, 32 - b) + Pow(2, 32 - b) <= BASE
  {
    if s == [] {
      SplitLimb(0, 32 - b);
      assert 0 % Pow(2, b) == 0;
    } else {
      CutInLimb(s, b);
      SplitLimb(s[0], 32 - b);
    }
  }

  lemma ShiftDownValue(s: seq<U32>, b: nat)
    requires 0 < b < 32 && s != []
    ensures Nat(s) / Pow(2, b)
         == ShrLimb(s, 0, b) + BASE * (Nat(s[1..]) / Pow(2, b))
  {
    SplitLimb(s[0], b);
    DivideSum(s[0], Nat(s[1..]), Pow(2, b), Pow(2, 32 - b));
  }

  lemma DivideSum(w: nat, n: nat, d: nat, e: nat)
    requires d > 0 && d * e == BASE
    ensures (w + BASE * n) / d == w / d + (n % d) * e + BASE * (n / d)
  {
    var q, r := n / d, n % d;
    var k := w / d + r * e + BASE * q;
    assert (w + BASE * n) == k * d + w % d by {
      assert n == q * d + r;
      assert BASE * n == (BASE * q) * d + (r * e) * d by {
        assert BASE * (q * d + r) == (BASE * q) * d + BASE * r;
        assert BASE * r == (r * e) * d;
      }
      assert k * d == (w / d) * d + (r * e) * d + (BASE * q) * d;
    }
    DivModUnique(w + BASE * n, d, k, w % d);
  }

  /** One limb product of schoolbook multiplication, with what is there and the
      carry. */
  function RowLimb(o: U32, a: U32, w: U32, c: U32): (v: U64)
    ensures v == a * w + o + c && Hi(v) < BASE
  {
    MulLe(a, BASE - 1, w, BASE - 1);
    a * w + o + c
  }

  // The loop steps. A loop has rewritten limbs [0, i) of was; what it has so
  // far (now[..i]) followed by the rest of the pass is the whole pass.

  lemma Advance(now: seq<U32>, i: nat, v: U32, rest: seq<U32>)
    requires i < |now|
    ensures now[i := v][..i + 1] + rest == now[..i] + ([v] + rest)
    ensures now[i := v][i + 1..] == now[i + 1..]
  {
    assert now[i := v][..i + 1] == now[..i] + [v];
  }

  ghost predicate Untouched(now: seq<U32>, was: seq<U32>, i: nat) {
    |now| == |was| && i <= |was| && now[i..] == was[i..]
  }

  lemma UntouchedStep(now: seq<U32>, was: seq<U32>, i: nat, v: U32)
    requires Untouched(now, was, i) && i < |was|
    ensures now[i] == was[i] && was[i..][0] == was[i] && was[i..][1..] == was[i + 1..]
    ensures Untouched(now[i := v], was, i + 1)
  {
    assert now[i] == now[i..][0];
  }

  lemma MulAddStep(now: seq<U32>, was: seq<U32>, i: nat, m: U32, c: U32, v: U64)
    requires Untouched(now, was, i) && i < |was| && v == MulAddLimb(now[i], m, c)
    ensures Untouched(now[i := Lo(v)], was, i + 1)
    ensures now[i := Lo(v)][..i + 1] + MulAdd(was[i + 1..], m, Hi(v)) == now[..i] + MulAdd(was[i..], m, c)
  {
    UntouchedStep(now, was, i, Lo(v));
    Advance(now, i, Lo(v), MulAdd(was[i + 1..], m, Hi(v)));
  }

  lemma IncrementStep(now: seq<U32>, was: seq<U32>, i: nat, v: U32)
    requires Untouched(now, was, i) && i < |was| && v == PlusOne(now[i])
    ensures Untouched(now[i := v], was, i + 1)
    ensures if now[i] == BASE - 1
            then now[i := v][..i + 1] + Increment(was[i + 1..]) == now[..i] + Increment(was[i..])
            else now[i := v] == now[..i] + Increment(was[i..])
  {
    UntouchedStep(now, was, i, v);
    if now[i] == BASE - 1 {
      Advance(now, i, v, Increment(was[i + 1..]));
    } else {
      Advance(now, i, v, was[i + 1..]);
      assert now[i := v] == now[i := v][..i + 1] + now[i := v][i + 1..];
    }
  }

  /** What is left of s from limb i on; nothing past its end. */
  function Rest(s: seq<U32>, i: nat): seq<U32> {
    if i <= |s| then s[i..] else []
  }

  lemma SubtractStep(now: seq<U32>, was: seq<U32>, t: seq<U32>, i: nat, o: U32, borrow: nat)
    requires Untouched(now, was, i) && i < |was|
    requires borrow <= 1 && Nat(Rest(t, i)) + borrow <= Nat(was[i..])
    requires o == if i < |t| then t[i] else 0
    ensures var v, b := DiffLimb(now[i], o, borrow), BorrowOut(now[i], o, borrow);
            && Untouched(now[i := v], was, i + 1)
            && Nat(Rest(t, i + 1)) + b <= Nat(was[i + 1..])
            && now[i := v][..i + 1] + Subtract(was[i + 1..], Rest(t, i + 1), b)
            == now[..i] + Subtract(was[i..], Rest(t, i), borrow)
  {
    var v, b := DiffLimb(now[i], o, borrow), BorrowOut(now[i], o, borrow);
    UntouchedStep(now, was, i, v);
    assert Rest(t, i + 1) == if Rest(t, i) == [] then [] else Rest(t, i)[1..];
    Advance(now, i, v, Subtract(was[i + 1..], Rest(t, i + 1), b));
  }

  lemma ShiftUpStep(out: seq<U32>, s: seq<U32>, i: nat, b: nat, c: U32, w: U32)
    requires i < |s| && 0 < b < 32 && c < Pow(2, b) && w == ShlKept(s[i], b) + c
    ensures out + [w] + ShiftUp(s[i + 1..], b, ShlOut(s[i], b)) == out + ShiftUp(s[i..], b, c)
  {
    assert s[i..][1..] == s[i + 1..];
    var rest := ShiftUp(s[i + 1..], b, ShlOut(s[i], b));
    assert out + ([w] + rest) == out + [w] + rest;
  }

  lemma ShiftDownStep(out: seq<U32>, s: seq<U32>, i: nat, b: nat)
    requires i < |s| && 0 < b < 32
    ensures out + [ShrLimb(s, i, b)] + ShiftDown(s[i + 1..], b) == out + ShiftDown(s[i..], b)
  {
    var w, rest := ShrLimb(s, i, b), ShiftDown(s[i + 1..], b);
    assert s[i..][1..] == s[i + 1..];
    assert ShrLimb(s[i..], 0, b) == w;
    assert out + ([w] + rest) == out + [w] + rest;
  }

  /** Storing the low half of v at limb k leaves its high half as the carry. */
  lemma StoreStep(now: seq<U32>, k: nat, v: U64)
    requires k < |now|
    ensures Nat(now[k := Lo(v)]) + Hi(v) * Pow(BASE, k + 1) == Nat(now) + (v - now[k]) * Pow(BASE, k)
  {
    NatUpdate(now, k, Lo(v));
    HalvesTimes(now[k], v, Pow(BASE, k));
  }

  lemma HalvesTimes(w: int, v: U64, p: nat)
    ensures (Lo(v) - w) * p + Hi(v) * (BASE * p) == (v - w) * p
  {
    assert Hi(v) * (BASE * p) == (BASE * Hi(v)) * p;
    assert (Lo(v) - w) * p + (BASE * Hi(v)) * p == (Lo(v) - w + BASE * Hi(v)) * p;
  }

  /** A row of a * s at limb i: storing limb product j extends the prefix of s
      that has been added. */
  lemma RowStep(now: seq<U32>, i: nat, a: U32, s: seq<U32>, j: nat, c: U32, was: nat)
    requires j < |s| && i + j < |now|
    requires Nat(now) + c * Pow(BASE, i + j) == was + a * Nat(s[..j]) * Pow(BASE, i)
    ensures var v := RowLimb(now[i + j], a, s[j], c);
            Nat(now[i + j := Lo(v)]) + Hi(v) * Pow(BASE, i + j + 1) == was + a * Nat(s[..j + 1]) * Pow(BASE, i)
  {
    var v := RowLimb(now[i + j], a, s[j], c);
    StoreStep(now, i + j, v);
    NatSnoc(s, j);
    PowAdd(BASE, j, i);
    RowTerm(a, s[j], Nat(s[..j]), Pow(BASE, j), Pow(BASE, i), c);
  }

  lemma RowTerm(a: nat, w: nat, n: nat, q: nat, p: nat, c: nat)
    ensures a * (n + w * q) * p == a * n * p + (a * w + c) * (q * p) - c * (q * p)
  {
    assert a * (n + w * q) == a * n + a * w * q;
    assert (a * n + a * w * q) * p == a * n * p + (a * w * q) * p;
    Assoc(a * w, q, p);
    assert (a * w + c) * (q * p) == a * w * (q * p) + c * (q * p);
  }

  lemma AddCarryStep(now: seq<U32>, k: nat, c: U32, total: nat)
    requires Nat(now) + c * Pow(BASE, k) == total < Pow(BASE, |now|) && c > 0 && k <= |now|
    ensures k < |now|
    ensures var v: U64 := now[k] + c;
            Nat(now[k := Lo(v)]) + Hi(v) * Pow(BASE, k + 1) == total
  {
    if k == |now| {
      MulLe(1, c, Pow(BASE, k), Pow(BASE, k));
      assert false;
    }
    StoreStep(now, k, now[k] + c);
  }
}
