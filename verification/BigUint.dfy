/** The unsigned big integer behind BigFloat: little-endian 32-bit limbs,
    changed in place. Every operation is tied to the natural it denotes. */
module BigUints {
  import opened Powers
  import opened Limbs
  import opened LimbFacts
  import opened LimbOps

  datatype Ordering = Less | Equal | Greater

  class BigUint {
    var limbs: seq<U32>

    ghost predicate Valid()
      reads this
    {
      Normal(limbs)
    }

    ghost function Value(): (n: nat)
      reads this
    {
      Nat(limbs)
    }

    constructor Zero()
      ensures Valid() && Value() == 0
    {
      limbs := [];
    }

    constructor Clone(other: BigUint)
      ensures limbs == other.limbs
    {
      limbs := other.limbs;
    }

    constructor FromLimbs(s: seq<U32>)
      ensures Valid() && Value() == Nat(s)
    {
      limbs := s;
      new;
      Trim();
    }

    constructor FromU64(v: U64)
      ensures Valid() && Value() == v
    {
      limbs := [Lo(v), Hi(v)];
      new;
      assert Value() == v by {
        assert limbs[1..] == [Hi(v)];
        assert Nat([Hi(v)]) == Hi(v);
      }
      Trim();
    }

    /** Drop leading zero limbs. */
    method Trim()
      modifies this
      ensures Valid() && Value() == old(Value())
    {
      while limbs != [] && limbs[|limbs| - 1] == 0
        invariant Nat(limbs) == old(Nat(limbs))
        decreases |limbs|
      {
        var k := |limbs| - 1;
        NatSnoc(limbs, k);
        assert limbs[..k + 1] == limbs;
        limbs := limbs[..k];
      }
    }

    predicate IsZero()
      reads this
      requires Valid()
      ensures IsZero() <==> Value() == 0
    {
      NormalZero(limbs);
      limbs == []
    }

    /** The limb count and the top limb's leading zeros give the bit length. */
    function BitLength(): (n: nat)
      reads this
      requires Valid()
      ensures n == BitLen(Value())
    {
      if limbs == [] then 0
      else
        NatBitLen(limbs);
        (|limbs| - 1) * 32 + BitLen(limbs[|limbs| - 1])
    }

    predicate Bit(i: nat)
      reads this
      ensures Bit(i) <==> (Value() / Pow(2, i)) % 2 == 1
    {
      var limb := i / 32;
      BitIsInLimb(limbs, i);
      limb < |limbs| && (limbs[limb] / Pow(2, i % 32)) % 2 == 1
    }

    /** Whether a bit strictly below position i is set. */
    predicate AnyBitBelow(i: nat)
      reads this
      ensures AnyBitBelow(i) <==> Value() % Pow(2, i) != 0
    {
      var limb := i / 32;
      LowBitsInLimbs(limbs, i);
      assert limbs[..|limbs|] == limbs;
      AnyNonZero(limbs[..if limb < |limbs| then limb else |limbs|])
      || (limb < |limbs| && limbs[limb] % Pow(2, i % 32) != 0)
    }

    /** self := self * m + a, limb by limb. Times zero, the limbs stay where they
        are, as zeros. */
    method MulSmallAdd(m: U32, a: U32)
      requires Valid()
      modifies this
      ensures Value() == old(Value()) * m + a
      ensures m > 0 ==> Valid()
    {
      ghost var was, whole := limbs, MulAdd(limbs, m, a);
      var carry: U32 := a;
      var i := 0;
      assert was[0..] == was;
      while i < |limbs|
        invariant i <= |limbs| && Untouched(limbs, was, i)
        invariant limbs[..i] + MulAdd(was[i..], m, carry) == whole
      {
        var v := MulAddLimb(limbs[i], m, carry);
        MulAddStep(limbs, was, i, m, carry, v);
        limbs := limbs[i := Lo(v)];
        carry := Hi(v);
        i := i + 1;
      }
      assert limbs[..i] == limbs && was[i..] == [];
      if carry > 0 {
        limbs := limbs + [carry];
      }
      assert limbs == whole;
    }

    method AddOne()
      requires Valid()
      modifies this
      ensures Valid() && Value() == old(Value()) + 1
    {
      ghost var was, whole := limbs, Increment(limbs);
      var i := 0;
      assert was[0..] == was;
      while i < |limbs|
        invariant i <= |limbs| && Untouched(limbs, was, i)
        invariant limbs[..i] + Increment(was[i..]) == whole
      {
        var v, overflow := PlusOne(limbs[i]), limbs[i] == BASE - 1;
        IncrementStep(limbs, was, i, v);
        limbs := limbs[i := v];
        if !overflow {
          return;
        }
        i := i + 1;
      }
      assert limbs[..i] == limbs && was[i..] == [];
      limbs := limbs + [1];
      assert limbs == whole;
    }

    /** self := self - other. */
    method SubAssign(other: BigUint)
      requires Valid() && other.Valid() && this != other
      requires other.Value() <= Value()
      modifies this
      ensures Valid() && Value() == old(Value()) - other.Value()
    {
      hide Nat, Normal, DiffLimb, BorrowOut;
      ghost var was, t := limbs, other.limbs;
      ghost var whole := Subtract(was, t, 0);
      var borrow := 0;
      var i := 0;
      assert was[0..] == was;
      while i < |limbs|
        invariant i <= |limbs| && Untouched(limbs, was, i)
        invariant 0 <= borrow <= 1
        invariant Nat(Rest(t, i)) + borrow <= Nat(was[i..])
        invariant limbs[..i] + Subtract(was[i..], Rest(t, i), borrow) == whole
      {
        var w, o := limbs[i], if i < |other.limbs| then other.limbs[i] else 0;
        SubtractStep(limbs, was, t, i, o, borrow);
        limbs := limbs[i := DiffLimb(w, o, borrow)];
        borrow := BorrowOut(w, o, borrow);
        i := i + 1;
      }
      assert limbs == limbs[..i] && was[i..] == [];
      assert limbs == whole;
      Trim();
    }

    method SetBit(i: nat)
      requires Valid()
      modifies this
      ensures Valid() && Value() == old(Value()) + if old(Bit(i)) then 0 else Pow(2, i)
    {
      var limb := i / 32;
      // A bitwise or leaves a bit that is set.
      if Bit(i) {
        return;
      }
      ghost var was := limbs;
      if |limbs| <= limb {
        limbs := limbs + seq(limb + 1 - |limbs|, k => 0);
        NatPadded(was, limb + 1 - |was|);
      }
      BitIsInLimb(was, i);
      SetLimbBit(limbs, i);
      limbs := limbs[limb := limbs[limb] + Pow(2, i % 32)];
    }

    method Compare(other: BigUint) returns (c: Ordering)
      requires Valid() && other.Valid()
      ensures c == if Value() < other.Value() then Less else if Value() > other.Value() then Greater else Equal
    {
      if |limbs| != |other.limbs| {
        LongerIsLarger(limbs, other.limbs);
        return if |limbs| < |other.limbs| then Less else Greater;
      }
      var i := |limbs|;
      while i > 0
        invariant 0 <= i <= |limbs|
        invariant limbs[i..] == other.limbs[i..]
      {
        i := i - 1;
        var a, b := limbs[i], other.limbs[i];
        if a != b {
          HigherLimbDecides(limbs, other.limbs, i);
          return if a < b then Less else Greater;
        }
        assert limbs[i..] == [a] + limbs[i + 1..] == other.limbs[i..];
      }
      assert limbs == limbs[0..] == other.limbs;
      c := Equal;
    }

    method Shl(n: nat) returns (r: BigUint)
      requires Valid()
      ensures fresh(r) && r.Valid() && r.Value() == Value() * Pow(2, n)
    {
      if limbs == [] {
        r := new BigUint.Zero();
        return;
      }
      var words, bits := n / 32, n % 32;
      var zeros: seq<U32> := seq(words, k => 0);
      var out: seq<U32> := limbs;
      if bits != 0 {
        out := ShlBits(limbs, bits);
      }
      PaddedBelow(words, out, bits, Nat(limbs));
      r := new BigUint.FromLimbs(zeros + out);
    }

    method Shr(n: nat) returns (r: BigUint)
      requires Valid()
      ensures fresh(r) && r.Valid() && r.Value() == Value() / Pow(2, n)
    {
      var words, bits := n / 32, n % 32;
      if words >= |limbs| {
        AllBelow(limbs, n);
        r := new BigUint.Zero();
        return;
      }
      CutAt(limbs, words, bits);
      var out: seq<U32> := limbs[words..];
      if bits != 0 {
        out := ShrBits(out, bits);
      }
      r := new BigUint.FromLimbs(out);
    }

    /** Schoolbook multiplication into a buffer of exactly the two lengths. */
    method Mul(other: BigUint) returns (r: BigUint)
      requires Valid() && other.Valid()
      ensures fresh(r) && r.Valid() && r.Value() == Value() * other.Value()
    {
      if limbs == [] || other.limbs == [] {
        r := new BigUint.Zero();
        return;
      }
      var n, m := |limbs|, |other.limbs|;
      var out := new U32[n + m](k => 0);
      NatZeros(out[..]);
      var i := 0;
      while i < n
        invariant 0 <= i <= n
        invariant Nat(out[..]) == Nat(limbs[..i]) * Nat(other.limbs)
      {
        MulStep(limbs, other.limbs, i, n + m);
        AddRow(out, i, limbs[i], other.limbs, Nat(limbs[..i + 1]) * Nat(other.limbs));
        i := i + 1;
      }
      assert limbs[..i] == limbs;
      r := new BigUint.FromLimbs(out[..]);
    }

    /** Quotient and remainder by shift-subtract. */
    method DivRem(den: BigUint) returns (q: BigUint, rem: BigUint)
      requires Valid() && den.Valid() && den.Value() > 0
      ensures fresh(q) && fresh(rem) && q.Valid() && rem.Valid() && q != rem
      ensures q.Value() == Value() / den.Value() && rem.Value() == Value() % den.Value()
    {
      var less := Compare(den);
      q := new BigUint.Zero();
      rem := new BigUint.Clone(this);
      ghost var num, dv := Value(), den.Value();
      if less == Less {
        DivModUnique(num, dv, 0, num);
        return;
      }
      BitLenMono(dv, num);
      var shift := BitLength() - den.BitLength();
      var d := den.Shl(shift);
      AlignedTop(num, dv);
      DivLoop(q, rem, d, shift, dv);
      DivModUnique(num, dv, q.Value(), rem.Value());
    }
  }

  /** Long division, one quotient bit at a time from bit shift down. */
  method DivLoop(q: BigUint, rem: BigUint, top: BigUint, shift: nat, ghost den: nat)
    requires q.Valid() && rem.Valid() && top.Valid() && q != rem && rem != top && q != top
    requires q.Value() == 0 && top.Value() == den * Pow(2, shift) && rem.Value() < den * Pow(2, shift + 1)
    modifies q, rem
    ensures q.Valid() && rem.Valid()
    ensures q.Value() * den + rem.Value() == old(rem.Value())
    ensures rem.Value() < den
  {
    var d := top;
    var i := shift + 1;
    DivModUnique(0, Pow(2, i), 0, 0);
    while i > 0
      invariant 0 <= i <= shift + 1
      invariant q.Valid() && rem.Valid() && d.Valid()
      invariant rem != d && q != d
      invariant q.Value() * den + rem.Value() == old(rem.Value())
      invariant rem.Value() < den * Pow(2, i)
      invariant q.Value() % Pow(2, i) == 0
      invariant i > 0 ==> d.Value() == den * Pow(2, i - 1)
    {
      i := i - 1;
      DivStep(q, rem, d, i, den);
      if i > 0 {
        Half(den, Pow(2, i - 1));
      }
      d := d.Shr(1);
    }
  }

  /** Subtract the aligned divisor d = den * 2^i where it fits, recording bit i
      of the quotient. */
  method DivStep(q: BigUint, rem: BigUint, d: BigUint, i: nat, ghost den: nat)
    requires q.Valid() && rem.Valid() && d.Valid() && q != rem && rem != d && q != d
    requires d.Value() == den * Pow(2, i) && rem.Value() < den * Pow(2, i + 1)
    requires q.Value() % Pow(2, i + 1) == 0
    modifies q, rem
    ensures q.Valid() && rem.Valid()
    ensures q.Value() * den + rem.Value() == old(q.Value() * den + rem.Value())
    ensures rem.Value() < den * Pow(2, i) && q.Value() % Pow(2, i) == 0
  {
    UnsetBelow(q.Value(), i);
    var c := rem.Compare(d);
    if c != Less {
      QuotientStep(q.Value(), den, rem.Value(), Pow(2, i));
      rem.SubAssign(d);
      q.SetBit(i);
    }
  }

  method ShlBits(s: seq<U32>, bits: nat) returns (out: seq<U32>)
    requires 0 < bits < 32
    ensures Nat(out) == Nat(s) * Pow(2, bits)
  {
    ghost var whole := ShiftUp(s, bits, 0);
    out := [];
    var carry: U32 := 0;
    var i := 0;
    assert s[0..] == s;
    while i < |s|
      invariant 0 <= i <= |s|
      invariant carry < Pow(2, bits)
      invariant out + ShiftUp(s[i..], bits, carry) == whole
    {
      var w: U32 := ShlKept(s[i], bits) + carry;
      ShiftUpStep(out, s, i, bits, carry, w);
      out := out + [w];
      carry := ShlOut(s[i], bits);
      i := i + 1;
    }
    assert s[i..] == [];
    if carry > 0 {
      out := out + [carry];
    }
    assert out == whole;
  }

  method ShrBits(s: seq<U32>, bits: nat) returns (out: seq<U32>)
    requires 0 < bits < 32
    ensures Nat(out) == Nat(s) / Pow(2, bits)
  {
    ghost var whole := ShiftDown(s, bits);
    out := [];
    var i := 0;
    assert s[0..] == s;
    while i < |s|
      invariant 0 <= i <= |s|
      invariant out + ShiftDown(s[i..], bits) == whole
    {
      ShiftDownStep(out, s, i, bits);
      out := out + [ShrLimb(s, i, bits)];
      i := i + 1;
    }
    assert s[i..] == [];
    assert out == whole;
  }

  /** out += a * s * BASE^i, a sum the buffer has room for. */
  method AddRow(out: array<U32>, i: nat, a: U32, s: seq<U32>, ghost total: nat)
    requires i + |s| <= out.Length
    requires total == Nat(out[..]) + a * Nat(s) * Pow(BASE, i) && total < Pow(BASE, out.Length)
    modifies out
    ensures Nat(out[..]) == total
  {
    var carry := MulRow(out, i, a, s);
    PropagateCarry(out, i + |s|, carry, total);
  }

  /** The carry out of a row, added from limb k up. */
  method PropagateCarry(out: array<U32>, k: nat, c: U32, ghost total: nat)
    requires k <= out.Length && total < Pow(BASE, out.Length)
    requires Nat(out[..]) + c * Pow(BASE, k) == total
    modifies out
    ensures Nat(out[..]) == total
  {
    var carry: U32 := c;
    var k := k;
    while carry > 0
      invariant k <= out.Length
      invariant Nat(out[..]) + carry * Pow(BASE, k) == total
      decreases out.Length - k
    {
      AddCarryStep(out[..], k, carry, total);
      var v: U64 := out[k] + carry;
      Store(out, k, Lo(v));
      carry := Hi(v);
      k := k + 1;
    }
  }

  /** The limbs of s, times a, added into out from limb i up. */
  method MulRow(out: array<U32>, i: nat, a: U32, s: seq<U32>) returns (carry: U32)
    requires i + |s| <= out.Length
    modifies out
    ensures Nat(out[..]) + carry * Pow(BASE, i + |s|) == old(Nat(out[..])) + a * Nat(s) * Pow(BASE, i)
  {
    ghost var was := Nat(out[..]);
    carry := 0;
    var j := 0;
    while j < |s|
      invariant 0 <= j <= |s|
      invariant Nat(out[..]) + carry * Pow(BASE, i + j) == was + a * Nat(s[..j]) * Pow(BASE, i)
    {
      RowStep(out[..], i, a, s, j, carry, was);
      var v := RowLimb(out[i + j], a, s[j], carry);
      Store(out, i + j, Lo(v));
      carry := Hi(v);
      j := j + 1;
    }
    assert s[..j] == s;
  }

  method Store(out: array<U32>, k: nat, w: U32)
    requires k < out.Length
    modifies out
    ensures out[..] == old(out[..])[k := w]
  {
    out[k] := w;
  }

  /** Each row extends the product by one limb of the multiplier, within the
      limbs the whole product needs. */
  lemma MulStep(s: seq<U32>, t: seq<U32>, i: nat, length: nat)
    requires t != [] && i < |s| && i + |t| < length
    ensures Nat(s[..i + 1]) * Nat(t) == Nat(s[..i]) * Nat(t) + s[i] * Nat(t) * Pow(BASE, i)
    ensures Nat(s[..i + 1]) * Nat(t) < Pow(BASE, length)
  {
    NatSnoc(s, i);
    RowTotal(Nat(s[..i]), s[i], Pow(BASE, i), Nat(t));
    NatBound(t);
    NatBound(s[..i]);
    RowBelow(Nat(s[..i]), s[i], Pow(BASE, i), Nat(t), Pow(BASE, |t|));
    PowAdd(BASE, i, |t|);
    PowMono(BASE, i + |t| + 1, length);
  }

  lemma RowBelow(done: nat, a: U32, p: nat, n: nat, m: nat)
    requires done < p && n < m
    ensures done * n + a * n * p < BASE * (p * m)
  {
    var t := done + a * p;
    assert done * n + a * n * p == t * n by {
      assert t * n == done * n + a * p * n;
    }
    MulLe(a, BASE - 1, p, p);
    MulLe(t, BASE * p, n, n);
    MulLt(n, m, BASE * p);
    Assoc(BASE, p, m);
  }
}
