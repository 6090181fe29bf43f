/** The float operations as they run, on limb integers, each equal to the
    function over naturals that specifies it. */
module FloatCode {
  import opened Powers
  import opened Limbs
  import opened BigUints
  import Floats
  import PowerOfFive

  datatype LimbFl = LimbZero | LimbInf | LimbFinite(mant: BigUint, exp: int, prec: nat)

  ghost function Mantissa(x: LimbFl): (s: set<object>) {
    if x.LimbFinite? then {x.mant} else {}
  }

  /** x holds the float f. */
  ghost predicate Holds(x: LimbFl, f: Floats.Fl)
    reads Mantissa(x)
  {
    match x
    case LimbZero => f == Floats.Zero
    case LimbInf => f == Floats.Inf
    case LimbFinite(mant, exp, prec) => mant.Valid() && f == Floats.Finite(mant.Value(), exp, prec)
  }

  /** Round an integer mantissa to prec bits. */
  method RoundInto(mant: BigUint, exp: int, prec: nat, sticky: bool) returns (r: LimbFl)
    requires mant.Valid()
    ensures Holds(r, Floats.RoundInto(mant.Value(), exp, prec, sticky))
    ensures fresh(Mantissa(r))
  {
    if mant.IsZero() {
      return LimbZero;
    }
    if exp < Floats.MIN_EXP {
      return LimbZero;
    }
    if exp > Floats.MAX_EXP {
      return LimbInf;
    }
    var bits := mant.BitLength();
    if bits <= prec {
      var shifted := mant.Shl(prec - bits);
      return LimbFinite(shifted, exp, prec);
    }
    var kept := KeptBits(mant, bits - prec, sticky);
    if kept.BitLength() > prec {
      if exp >= Floats.MAX_EXP {
        return LimbInf;
      }
      kept := kept.Shr(1);
      assert Pow(2, 1) == 2;
      return LimbFinite(kept, exp + 1, prec);
    }
    r := LimbFinite(kept, exp, prec);
  }

  /** The top bits, plus one when the dropped ones round up. */
  method KeptBits(mant: BigUint, d: nat, sticky: bool) returns (kept: BigUint)
    requires mant.Valid() && d > 0
    ensures fresh(kept) && kept.Valid() && kept.Value() == Floats.Rounded(mant.Value(), d, sticky)
  {
    var rbit := mant.Bit(d - 1);
    var sbit := sticky || mant.AnyBitBelow(d - 1);
    kept := mant.Shr(d);
    assert Pow(2, 0) == 1;
    if rbit && (sbit || kept.Bit(0)) {
      kept.AddOne();
    }
  }

  method FromU64(v: U64, prec: nat) returns (r: LimbFl)
    ensures Holds(r, PowerOfFive.FromU64(v, prec)) && fresh(Mantissa(r))
  {
    var m := new BigUint.FromU64(v);
    r := RoundInto(m, m.BitLength(), prec, false);
  }

  method Mul(x: LimbFl, y: LimbFl, prec: nat, ghost fx: Floats.Fl, ghost fy: Floats.Fl) returns (r: LimbFl)
    requires Holds(x, fx) && Holds(y, fy)
    ensures Holds(r, Floats.Mul(fx, fy, prec)) && fresh(Mantissa(r))
  {
    match (x, y)
    case (LimbZero, _) => return LimbZero;
    case (_, LimbZero) => return LimbZero;
    case (LimbInf, _) => return LimbInf;
    case (_, LimbInf) => return LimbInf;
    case (LimbFinite(xm, xe, xp), LimbFinite(ym, ye, yp)) =>
      var product := xm.Mul(ym);
      var exp := xe + ye - xp - yp + product.BitLength();
      r := RoundInto(product, exp, prec, false);
  }

  method Quo(x: LimbFl, y: LimbFl, prec: nat, ghost fx: Floats.Fl, ghost fy: Floats.Fl) returns (r: LimbFl)
    requires Holds(x, fx) && Holds(y, fy) && (fy.Finite? ==> fy.mant > 0)
    ensures Holds(r, Floats.Quo(fx, fy, prec)) && fresh(Mantissa(r))
  {
    match (x, y)
    case (LimbZero, _) => return LimbZero;
    case (_, LimbInf) => return LimbZero;
    case (LimbInf, _) => return LimbInf;
    case (_, LimbZero) => return LimbInf;
    case (LimbFinite(xm, xe, xp), LimbFinite(ym, ye, yp)) =>
      var want := prec + 2;
      var s := want + ym.BitLength() - xm.BitLength();
      var q, rest := Divided(xm, ym, s);
      var exp := xe - ye - xp + yp - s + q.BitLength();
      r := RoundInto(q, exp, prec, !rest.IsZero());
  }

  /** Shift whichever operand makes the integer quotient wide enough, and divide. */
  method Divided(x: BigUint, y: BigUint, s: int) returns (q: BigUint, rest: BigUint)
    requires x.Valid() && y.Valid() && y.Value() > 0
    ensures fresh(q) && fresh(rest) && q.Valid() && rest.Valid()
    ensures var num, den := Floats.QuoNum(x.Value(), s), Floats.QuoDen(y.Value(), s);
            q.Value() == Floats.Quot(num, den) && rest.Value() == num % den
  {
    var num, den;
    if s >= 0 {
      num := x.Shl(s);
      den := new BigUint.Clone(y);
    } else {
      num := new BigUint.Clone(x);
      den := y.Shl(-s);
      MulLe(1, y.Value(), 1, Pow(2, -s));
    }
    q, rest := num.DivRem(den);
  }

  /** The power of five at prec bits, by square-and-multiply. */
  method Pow5(n: nat, prec: nat) returns (z: LimbFl)
    ensures Holds(z, PowerOfFive.Pow5(n, prec))
  {
    hide Holds, PowerOfFive.FromU64, PowerOfFive.Pow5Loop;
    TablePower(n);
    if n <= PowerOfFive.TABLE_MAX {
      z := FromU64(Pow(5, n), prec);
    } else {
      TablePower(PowerOfFive.TABLE_MAX);
      z := FromU64(Pow(5, PowerOfFive.TABLE_MAX), prec);
      var f := FromU64(5, prec + 64);
      z := Pow5Loop(z, f, n - PowerOfFive.TABLE_MAX, prec,
                    PowerOfFive.FromU64(Pow(5, PowerOfFive.TABLE_MAX), prec), PowerOfFive.FromU64(5, prec + 64));
    }
  }

  lemma TablePower(n: nat)
    ensures n <= PowerOfFive.TABLE_MAX ==> Pow(5, n) < 0x1_0000_0000_0000_0000
  {
    hide Pow;
    if n <= PowerOfFive.TABLE_MAX {
      PowerOfFive.FiveTo27();
      PowMono(5, n, 27);
    }
  }

  method Pow5Loop(start: LimbFl, base: LimbFl, n: nat, prec: nat, ghost fstart: Floats.Fl, ghost fbase: Floats.Fl)
    returns (z: LimbFl)
    requires Holds(start, fstart) && Holds(base, fbase)
    ensures Holds(z, PowerOfFive.Pow5Loop(fstart, fbase, n, prec))
  {
    hide Floats.Mul, Floats.RoundInto, Nat, Normal, Pow;
    z := start;
    var f, rest := base, n;
    ghost var fz, ff := fstart, fbase;
    while rest > 0
      invariant Holds(z, fz) && Holds(f, ff)
      invariant PowerOfFive.Pow5Loop(fz, ff, rest, prec) == PowerOfFive.Pow5Loop(fstart, fbase, n, prec)
      decreases rest
    {
      if rest % 2 == 1 {
        z := Mul(z, f, prec, fz, ff);
        fz := Floats.Mul(fz, ff, prec);
      }
      f := Mul(f, f, prec + 64, ff, ff);
      ff := Floats.Mul(ff, ff, prec + 64);
      rest := rest / 2;
    }
  }
}
