/** Signed powers as reals, and products of reals that keep an order. */
module Reals {
  import opened Powers

  /** b^e for a signed exponent e. */
  function Exp(b: nat, e: int): (r: real)
    requires b > 0
    ensures r > 0.0
    decreases if e >= 0 then e else -e
  {
    if e == 0 then 1.0
    else if e > 0 then b as real * Exp(b, e - 1)
    else Exp(b, e + 1) / b as real
  }

  lemma ExpStep(b: nat, e: int)
    requires b > 0
    ensures Exp(b, e + 1) == b as real * Exp(b, e)
  {}

  lemma ExpZero(b: nat)
    requires b > 0
    ensures Exp(b, 0) == 1.0
  {}

  lemma {:induction false} ExpAdd(b: nat, x: int, y: int)
    requires b > 0
    ensures Exp(b, x + y) == Exp(b, x) * Exp(b, y)
    decreases if y >= 0 then y else -y
  {
    hide Exp;
    ExpZero(b);
    if y > 0 {
      ExpAdd(b, x, y - 1);
      ExpStep(b, x + y - 1);
      ExpStep(b, y - 1);
      AddUp(b as real, Exp(b, x), Exp(b, y - 1));
    } else if y < 0 {
      ExpAdd(b, x, y + 1);
      ExpStep(b, x + y);
      ExpStep(b, y);
      AddDown(b as real, Exp(b, x), Exp(b, y), Exp(b, x + y));
    }
  }

  lemma AddUp(a: real, x: real, y: real)
    ensures a * (x * y) == x * (a * y)
  {}

  lemma AddDown(a: real, x: real, y: real, z: real)
    requires a > 0.0 && a * z == x * (a * y)
    ensures z == x * y
  {
    AddUp(a, x, y);
    RCancel(a, z, x * y);
  }

  lemma RAssoc(a: real, x: real, y: real)
    ensures a * (x * y) == x * (a * y)
    ensures a * (x * y) == (a * x) * y
  {}

  lemma RCancel(a: real, x: real, y: real)
    requires a > 0.0 && a * x == a * y
    ensures x == y
  {}

  lemma RMulLe(a: real, x: real, y: real)
    requires a >= 0.0 && x <= y
    ensures a * x <= a * y
  {}

  lemma RMulLt(a: real, x: real, y: real)
    requires a > 0.0 && x < y
    ensures a * x < a * y
  {}

  lemma ScaleLess(a: real, x: real, y: real, ax: real, ay: real)
    requires a > 0.0 && x < y && ax == a * x && ay == a * y
    ensures ax < ay
  {
    RMulLt(a, x, y);
  }

  lemma ScaleLe(a: real, x: real, y: real, ax: real, ay: real)
    requires a >= 0.0 && x <= y && ax == a * x && ay == a * y
    ensures ax <= ay
  {
    RMulLe(a, x, y);
  }

  lemma Grows(a: real, z: real, az: real)
    requires a > 0.0 && z >= 1.0 && az == a * z
    ensures a <= az
  {
    RMulLe(a, 1.0, z);
  }

  lemma GrowsStrictly(a: real, z: real, za: real)
    requires a > 0.0 && z > 1.0 && za == z * a
    ensures a < za
  {
    RMulLt(a, 1.0, z);
  }

  lemma RMulLe2(a: real, b: real, x: real, y: real)
    requires 0.0 <= a <= b && 0.0 <= x <= y
    ensures 0.0 <= a * x <= b * y
  {
    RMulLe(a, x, y);
    RMulLe(y, a, b);
  }

  lemma {:induction false} ExpNat(b: nat, e: nat)
    requires b > 0
    ensures Exp(b, e) == Pow(b, e) as real
    decreases e
  {
    if e > 0 {
      ExpNat(b, e - 1);
      NatProduct(b, Pow(b, e - 1));
    }
  }

  lemma ExpNeg(b: nat, e: int)
    requires b > 0
    ensures Exp(b, e) * Exp(b, -e) == 1.0
  {
    ExpAdd(b, e, -e);
  }

  lemma ExpMono(b: nat, x: int, y: int)
    requires b > 0 && x <= y
    ensures Exp(b, x) <= Exp(b, y)
  {
    hide Exp;
    ExpAdd(b, x, y - x);
    AtLeastOne(b, y - x);
    Grows(Exp(b, x), Exp(b, y - x), Exp(b, y));
  }

  lemma AtLeastOne(b: nat, e: nat)
    requires b > 0
    ensures Exp(b, e) >= 1.0
  {
    ExpNat(b, e);
  }

  lemma ExpStrict(b: nat, x: int, y: int)
    requires b > 1 && x < y
    ensures Exp(b, x) < Exp(b, y)
  {
    hide Exp;
    ExpStep(b, x);
    ExpMono(b, x + 1, y);
    GrowsStrictly(Exp(b, x), b as real, Exp(b, x + 1));
  }

  lemma {:induction false} ExpTen(e: int)
    ensures Exp(10, e) == Exp(2, e) * Exp(5, e)
    decreases e < 0
  {
    hide Exp;
    if e >= 0 {
      ExpNat(10, e);
      ExpNat(2, e);
      ExpNat(5, e);
      PowOfProduct(2, 5, e);
      NatProduct(Pow(2, e), Pow(5, e));
    } else {
      ExpTen(-e);
      ExpNeg(10, e);
      ExpNeg(2, e);
      ExpNeg(5, e);
      Inverses(Exp(10, e), Exp(10, -e), Exp(2, e), Exp(2, -e), Exp(5, e), Exp(5, -e));
    }
  }

  lemma NatProduct(a: nat, b: nat)
    ensures (a * b) as real == a as real * b as real
  {}

  lemma Inverses(t: real, t': real, a: real, a': real, b: real, b': real)
    requires t * t' == 1.0 && a * a' == 1.0 && b * b' == 1.0 && t' == a' * b'
    requires t' > 0.0
    ensures t == a * b
  {
    assert (a * b) * t' == 1.0 by {
      assert (a * b) * (a' * b') == (a * a') * (b * b');
    }
    RCancel(t', t, a * b);
  }

  function Abs(x: real): (r: real)
    ensures r >= 0.0
  {
    if x >= 0.0 then x else -x
  }
}
