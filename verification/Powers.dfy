/** Powers of naturals, bit lengths, and signed powers of reals. */
module Powers {

  function Pow(b: nat, e: nat): (r: nat)
    ensures b > 0 ==> r > 0
  {
    if e == 0 then 1 else b * Pow(b, e - 1)
  }

  lemma {:induction false} PowAdd(b: nat, x: nat, y: nat)
    ensures Pow(b, x + y) == Pow(b, x) * Pow(b, y)
    decreases x
  {
    if x == 0 {
    } else {
      PowAdd(b, x - 1, y);
      assert Pow(b, x + y) == b * Pow(b, x - 1 + y);
      Assoc(b, Pow(b, x - 1), Pow(b, y));
    }
  }

  lemma {:induction false} PowMul(b: nat, x: nat, y: nat)
    ensures Pow(Pow(b, x), y) == Pow(b, x * y)
    decreases y
  {
    if y == 0 {
    } else {
      PowMul(b, x, y - 1);
      PowAdd(b, x, x * (y - 1));
      assert x + x * (y - 1) == x * y;
    }
  }

  lemma {:induction false} PowOfProduct(a: nat, b: nat, e: nat)
    ensures Pow(a * b, e) == Pow(a, e) * Pow(b, e)
    decreases e
  {
    if e == 0 {
    } else {
      PowOfProduct(a, b, e - 1);
      var pa, pb := Pow(a, e - 1), Pow(b, e - 1);
      assert (a * b) * (pa * pb) == (a * pa) * (b * pb);
    }
  }

  lemma {:induction false} PowMono(b: nat, x: nat, y: nat)
    requires b > 0 && x <= y
    ensures Pow(b, x) <= Pow(b, y)
    decreases y
  {
    if x < y {
      PowMono(b, x, y - 1);
      assert Pow(b, y) == b * Pow(b, y - 1) >= Pow(b, y - 1);
    }
  }

  lemma {:induction false} PowStrict(b: nat, x: nat, y: nat)
    requires b > 1 && x < y
    ensures Pow(b, x) < Pow(b, y)
  {
    PowMono(b, x, y - 1);
    MulLt(1, b, Pow(b, y - 1));
  }

  lemma {:induction false} PowBaseMono(a: nat, b: nat, e: nat)
    requires a <= b
    ensures Pow(a, e) <= Pow(b, e)
    decreases e
  {
    if e > 0 {
      PowBaseMono(a, b, e - 1);
      MulLe(a, b, Pow(a, e - 1), Pow(b, e - 1));
    }
  }

  lemma Assoc(a: int, b: int, c: int)
    ensures a * (b * c) == (a * b) * c
  {}

  lemma MulLe(a: nat, b: nat, x: nat, y: nat)
    requires a <= b && x <= y
    ensures a * x <= b * y
  {
    assert a * x <= a * y;
    assert a * y <= b * y;
  }

  /** A product with a positive factor keeps the order of the other factor. */
  lemma MulCancelLt(a: int, b: int, k: int)
    requires k > 0 && a * k < b * k
    ensures a < b
  {
    assert (b - a) * k > 0;
  }

  lemma MulBetween(k: int, d: int)
    requires d > 0 && -d < k * d < d
    ensures k == 0
  {
    MulCancelLt(-1, k, d);
    MulCancelLt(k, 1, d);
  }

  /** The quotient and remainder of a number are unique. */
  lemma DivModUnique(n: int, d: int, q: int, r: int)
    requires d > 0 && n == q * d + r && 0 <= r < d
    ensures n / d == q && n % d == r
  {
    var q', r' := n / d, n % d;
    assert n == q' * d + r' && 0 <= r' < d;
    assert (q' - q) * d == r - r' by {
      assert (q' - q) * d == q' * d - q * d;
    }
    MulBetween(q' - q, d);
  }

  /** The number of binary digits of n. */
  function BitLen(n: nat): nat {
    if n == 0 then 0 else 1 + BitLen(n / 2)
  }

  lemma {:induction false} BitLenBounds(n: nat)
    requires n > 0
    ensures BitLen(n) > 0
    ensures Pow(2, BitLen(n) - 1) <= n < Pow(2, BitLen(n))
  {
    if n == 1 {
      assert BitLen(1) == 1 + BitLen(0);
    } else {
      BitLenBounds(n / 2);
    }
  }

  lemma PowLtImpliesLt(b: nat, x: nat, y: nat)
    requires b > 0 && Pow(b, x) < Pow(b, y)
    ensures x < y
  {
    if y <= x {
      PowMono(b, y, x);
    }
  }

  /** A number lies in one interval between consecutive powers. */
  lemma PowInterval(b: nat, n: nat, x: nat, y: nat)
    requires b > 0 && x > 0 && y > 0
    requires Pow(b, x - 1) <= n < Pow(b, x) && Pow(b, y - 1) <= n < Pow(b, y)
    ensures x == y
  {
    PowLtImpliesLt(b, x - 1, y);
    PowLtImpliesLt(b, y - 1, x);
  }

  lemma BitLenUnique(n: nat, k: nat)
    requires k > 0 && Pow(2, k - 1) <= n < Pow(2, k)
    ensures BitLen(n) == k
  {
    BitLenBounds(n);
    PowInterval(2, n, BitLen(n), k);
  }

  lemma BitLenMono(m: nat, n: nat)
    requires m <= n
    ensures BitLen(m) <= BitLen(n)
  {
    if m > 0 {
      BitLenBounds(m);
      BitLenBounds(n);
      PowLtImpliesLt(2, BitLen(m) - 1, BitLen(n));
    }
  }

  lemma BitLenShift(n: nat, k: nat)
    requires n > 0
    ensures BitLen(n * Pow(2, k)) == BitLen(n) + k
  {
    BitLenBounds(n);
    var b, p := BitLen(n), Pow(2, k);
    PowAdd(2, b - 1, k);
    PowAdd(2, b, k);
    MulLe(Pow(2, b - 1), n, p, p);
    MulLt(n, Pow(2, b), p);
    BitLenUnique(n * p, b + k);
  }

  lemma MulLt(a: int, b: int, k: int)
    requires a < b && k > 0
    ensures a * k < b * k
  {
    assert (b - a) * k > 0;
  }
}
