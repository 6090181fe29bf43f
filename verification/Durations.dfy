/** Duration literals: what format_go_duration prints is a duration literal, and
    reads back. A text is its UTF-8 bytes, a character each. */
module Durations {
  import opened Options
  import opened Powers
  import opened Decimals
  import BigFloats

  datatype Duration = Duration(seconds: int, nanos: int)

  const SECOND: nat := 1_000_000_000
  const MINUTE: nat := 60_000_000_000
  const HOUR: nat := 3_600_000_000_000
  const MAX_ABS: nat := 0x8000_0000_0000_0000
  const I128_MAX: nat := 0x7fff_ffff_ffff_ffff_ffff_ffff_ffff_ffff

  function TotalNanos(d: Duration): int {
    d.seconds * SECOND + d.nanos
  }

  /** A signed 64-bit count. */
  predicate InRange(total: int) {
    -(MAX_ABS as int) <= total < MAX_ABS
  }

  /** Both parts share the sign. */
  function Normalized(total: int): Duration {
    if total < 0 then Duration(-((-total) / SECOND), -((-total) % SECOND)) else Duration(total / SECOND, total % SECOND)
  }

  // Reading.

  /** The number of digits a text starts with. */
  function LeadDigits(s: string): (n: nat)
    ensures n <= |s| && AllDigits(s[..n]) && (n < |s| ==> !IsDigit(s[n]))
  {
    if s == [] || !IsDigit(s[0]) then 0
    else
      assert forall i :: 0 < i < 1 + LeadDigits(s[1..]) ==> s[i] == s[1..][i - 1];
      1 + LeadDigits(s[1..])
  }

  /** A unit's nanoseconds and the length of its name. */
  datatype Unit = Unit(nanos: nat, length: nat)

  function UnitAt(s: string): (u: Option<Unit>)
    ensures u.Some? ==> 0 < u.value.length <= |s|
  {
    if |s| >= 2 && s[0] == 'n' && s[1] == 's' then Some(Unit(1, 2))
    else if |s| >= 2 && s[0] == 'u' && s[1] == 's' then Some(Unit(1_000, 2))
    else if |s| >= 3 && s[0] as int == 0xc2 && s[1] as int == 0xb5 && s[2] == 's' then Some(Unit(1_000, 3))
    else if |s| >= 2 && s[0] == 'm' && s[1] == 's' then Some(Unit(1_000_000, 2))
    else if |s| >= 1 && s[0] == 's' then Some(Unit(SECOND, 1))
    else if |s| >= 1 && s[0] == 'm' then Some(Unit(MINUTE, 1))
    else if |s| >= 1 && s[0] == 'h' then Some(Unit(HOUR, 1))
    else None
  }

  /** A group's digits, its fraction's digits, and what follows them. */
  datatype Group = Group(whole: string, fraction: string, rest: string)

  function GroupAt(s: string): (g: Option<Group>)
    ensures g.Some? ==> AllDigits(g.value.whole) && AllDigits(g.value.fraction) && |g.value.rest| < |s|
  {
    var n := LeadDigits(s);
    var rest := s[n..];
    if n == 0 then None
    else if rest == [] || rest[0] != '.' then Some(Group(s[..n], [], rest))
    else
      var f := LeadDigits(rest[1..]);
      if f == 0 then None else Some(Group(s[..n], rest[1..][..f], rest[1..][f..]))
  }

  /** A group's nanoseconds added to the total, when no step leaves its range. */
  function AddGroup(total: nat, whole: nat, fraction: nat, places: nat, unit: nat): Option<nat> {
    var t := total + whole * unit;
    if t > MAX_ABS then None
    else if places == 0 then Some(t)
    else if places > 38 || fraction * unit > I128_MAX then None
    else
      var more := fraction * unit / Pow(10, places);
      if t + more > MAX_ABS then None else Some(t + more)
  }

  function ReadGroups(s: string, total: nat): Option<nat>
    decreases |s|
  {
    if s == [] then Some(total)
    else
      match GroupAt(s)
      case None => None
      case Some(g) =>
        match UnitAt(g.rest)
        case None => None
        case Some(u) =>
          match AddGroup(total, DecVal(g.whole), DecVal(g.fraction), |g.fraction|, u.nanos)
          case None => None
          case Some(t) => ReadGroups(g.rest[u.length..], t)
  }

  predicate HasSign(s: string) {
    s != [] && (s[0] == '-' || s[0] == '+')
  }

  /** parse_go_duration */
  function Parse(s: string): Option<Duration> {
    if s == "0" then Some(Duration(0, 0))
    else
      match ReadGroups(if HasSign(s) then s[1..] else s, 0)
      case None => None
      case Some(t) =>
        var total: int := if HasSign(s) && s[0] == '-' then -(t as int) else t;
        if total >= MAX_ABS then None else Some(Normalized(total))
  }

  /** is_valid_go_duration, after the sign. */
  predicate ValidGroups(s: string)
    decreases |s|
  {
    && s != [] && GroupAt(s).Some?
    && var g := GroupAt(s).value;
       UnitAt(g.rest).Some? && (g.rest[UnitAt(g.rest).value.length..] == [] || ValidGroups(g.rest[UnitAt(g.rest).value.length..]))
  }

  predicate Valid(s: string) {
    ValidGroups(if HasSign(s) then s[1..] else s)
  }

  // Printing.

  const MICRO: string := [0xc2 as char, 0xb5 as char, 's']

  /** The places a unit of a power of ten nanoseconds divides into. */
  function Places(unit: nat): nat {
    if unit == 1_000 then 3 else if unit == 1_000_000 then 6 else 9
  }

  predicate DecimalUnit(unit: nat) {
    unit == 1_000 || unit == 1_000_000 || unit == SECOND
  }

  lemma UnitPower(unit: nat)
    requires DecimalUnit(unit)
    ensures unit == Pow(10, Places(unit))
  {
    assert Pow(10, 3) == 1_000;
    PowAdd(10, 3, 3);
    PowAdd(10, 6, 3);
  }

  /** The fraction's digits, trailing zeros dropped. */
  function FractionOf(value: nat, unit: nat): string
    requires DecimalUnit(unit)
  {
    UnitPower(unit);
    if value % unit == 0 then [] else BigFloats.TrimZeros(Padded(value % unit, Places(unit)))
  }

  /** trim_fraction */
  function TrimFraction(value: nat, unit: nat): string
    requires DecimalUnit(unit)
  {
    ToDec(value / unit) + if value % unit == 0 then "" else "." + FractionOf(value, unit)
  }

  /** The text of a positive count. */
  function Body(total: nat): string {
    if total < 1_000 then ToDec(total) + "ns"
    else if total < 1_000_000 then TrimFraction(total, 1_000) + MICRO
    else if total < SECOND then TrimFraction(total, 1_000_000) + "ms"
    else
      var hours, minutes, rest := total / HOUR, total % HOUR / MINUTE, total % MINUTE;
      var seconds := TrimFraction(rest, SECOND) + "s";
      if hours > 0 then ToDec(hours) + ("h" + (ToDec(minutes) + ("m" + seconds)))
      else if minutes > 0 then ToDec(minutes) + ("m" + seconds)
      else seconds
  }

  /** format_go_duration */
  function Format(d: Duration): string {
    var total := TotalNanos(d);
    if total == 0 then "0s" else if total < 0 then "-" + Body(-total) else Body(total)
  }

  // Reading a printed group.

  lemma LeadDigitsOf(digits: string, rest: string)
    requires AllDigits(digits) && (rest == [] || !IsDigit(rest[0]))
    ensures LeadDigits(digits + rest) == |digits|
    decreases |digits|
  {
    if digits == [] {
      assert digits + rest == rest;
    } else {
      assert (digits + rest)[1..] == digits[1..] + rest;
      LeadDigitsOf(digits[1..], rest);
    }
  }

  function WithPoint(whole: string, fraction: string): string {
    whole + if fraction == [] then "" else "." + fraction
  }

  lemma GroupOf(whole: string, fraction: string, rest: string)
    requires whole != [] && AllDigits(whole) && AllDigits(fraction)
    requires rest != [] && !IsDigit(rest[0]) && rest[0] != '.'
    ensures GroupAt(WithPoint(whole, fraction) + rest) == Some(Group(whole, fraction, rest))
  {
    hide GroupAt, AllDigits;
    if fraction == [] {
      PlainGroup(whole, rest);
      assert WithPoint(whole, fraction) + rest == whole + rest;
    } else {
      PointGroup(whole, fraction, rest);
      assert WithPoint(whole, fraction) + rest == whole + ("." + (fraction + rest));
    }
  }

  lemma PlainGroup(whole: string, rest: string)
    requires whole != [] && AllDigits(whole) && rest != [] && !IsDigit(rest[0]) && rest[0] != '.'
    ensures GroupAt(whole + rest) == Some(Group(whole, [], rest))
  {
    LeadDigitsOf(whole, rest);
    hide LeadDigits, AllDigits;
    assert (whole + rest)[..|whole|] == whole && (whole + rest)[|whole|..] == rest;
  }

  lemma PointGroup(whole: string, fraction: string, rest: string)
    requires whole != [] && AllDigits(whole) && fraction != [] && AllDigits(fraction) && rest != [] && !IsDigit(rest[0])
    ensures GroupAt(whole + ("." + (fraction + rest))) == Some(Group(whole, fraction, rest))
  {
    var tail := "." + (fraction + rest);
    LeadDigitsOf(whole, tail);
    LeadDigitsOf(fraction, rest);
    hide LeadDigits, AllDigits;
    assert (whole + tail)[..|whole|] == whole && (whole + tail)[|whole|..] == tail;
    assert tail[1..] == fraction + rest;
    assert (fraction + rest)[..|fraction|] == fraction && (fraction + rest)[|fraction|..] == rest;
  }

  /** The unit's name, and what may follow it. */
  ghost predicate Names(name: string, unit: nat, rest: string) {
    && name != [] && !IsDigit(name[0]) && name[0] != '.'
    && (rest == [] || IsDigit(rest[0]))
    && UnitAt(name + rest) == Some(Unit(unit, |name|))
  }

  lemma UnitNames(rest: string)
    requires rest == [] || IsDigit(rest[0])
    ensures Names("ns", 1, rest) && Names(MICRO, 1_000, rest) && Names("ms", 1_000_000, rest)
    ensures Names("s", SECOND, rest) && Names("m", MINUTE, rest) && Names("h", HOUR, rest)
  {}

  /** A printed group is read as its value, and the reading goes on after it. */
  lemma ReadGroup(whole: string, fraction: string, name: string, unit: nat, rest: string, total: nat)
    requires whole != [] && AllDigits(whole) && AllDigits(fraction) && Names(name, unit, rest)
    ensures ReadGroups(WithPoint(whole, fraction) + (name + rest), total)
         == var t := AddGroup(total, DecVal(whole), DecVal(fraction), |fraction|, unit);
            if t.None? then None else ReadGroups(rest, t.value)
    ensures ValidGroups(WithPoint(whole, fraction) + (name + rest)) <==> rest == [] || ValidGroups(rest)
  {
    hide GroupAt, UnitAt, AddGroup, DecVal;
    GroupOf(whole, fraction, name + rest);
    assert (name + rest)[|name|..] == rest;
  }

  // The fraction is exact.

  lemma {:induction false} TrimmedValue(s: string)
    requires AllDigits(s)
    ensures var t := BigFloats.TrimZeros(s);
            AllDigits(t) && DecVal(s) == DecVal(t) * Pow(10, |s| - |t|)
    decreases |s|
  {
    if s != [] && s[|s| - 1] == '0' {
      TrimmedValue(s[..|s| - 1]);
      var t := BigFloats.TrimZeros(s);
      Assoc(10, DecVal(t), Pow(10, |s| - 1 - |t|));
      Assoc(DecVal(t), 10, Pow(10, |s| - 1 - |t|));
    }
  }

  /** What the printed fraction adds is the remainder. */
  lemma FractionBack(value: nat, unit: nat)
    requires DecimalUnit(unit)
    ensures var f := FractionOf(value, unit);
            && AllDigits(f) && |f| <= 9
            && (f == [] <==> value % unit == 0)
            && DecVal(f) * unit <= I128_MAX
            && (f != [] ==> DecVal(f) * unit / Pow(10, |f|) == value % unit)
  {
    var f := FractionOf(value, unit);
    UnitPower(unit);
    if value % unit != 0 {
      var r, w := value % unit, Places(unit);
      TrimmedValue(Padded(r, w));
      DecBound(f);
      PowAdd(10, |f|, w - |f|);
      PowMono(10, |f|, 9);
      NineDigits();
      hide ToDec, BigFloats.TrimZeros, Padded;
      if f == [] {
        NoDigits();
        assert false;
      }
      ExactQuotient(DecVal(f), Pow(10, |f|), Pow(10, w - |f|), unit, r);
      MulLe(DecVal(f), SECOND, unit, SECOND);
    }
  }

  lemma NineDigits()
    ensures Pow(10, 9) == SECOND
  {
    UnitPower(SECOND);
  }

  lemma ExactQuotient(n: nat, p: nat, q: nat, unit: nat, r: nat)
    requires p > 0 && unit == p * q && r == n * q
    ensures n * unit / p == r
  {
    assert n * unit == r * p by {
      Assoc(n, p, q);
      Assoc(p, n, q);
    }
    DivModUnique(n * unit, p, r, 0);
  }

  lemma AddWhole(total: nat, value: nat, unit: nat)
    requires DecimalUnit(unit)
    ensures var f := FractionOf(value, unit);
            AllDigits(f) && AddGroup(total, value / unit, DecVal(f), |f|, unit)
            == if total + value > MAX_ABS then None else Some(total + value)
  {
    var f := FractionOf(value, unit);
    FractionBack(value, unit);
    hide FractionOf, DecVal, Pow;
    var whole := value / unit * unit;
    assert whole + value % unit == value;
  }

  // The theorem.

  /** The last group of every text. */
  lemma LastGroup(total: nat, value: nat, unit: nat, name: string)
    requires DecimalUnit(unit) && Names(name, unit, [])
    ensures var s := TrimFraction(value, unit) + name;
            && ReadGroups(s, total) == (if total + value > MAX_ABS then None else Some(total + value))
            && ValidGroups(s) && s != [] && IsDigit(s[0])
  {
    var whole, f := ToDec(value / unit), FractionOf(value, unit);
    AddWhole(total, value, unit);
    FractionBack(value, unit);
    ReadGroup(whole, f, name, unit, [], total);
    assert name + [] == name;
    assert TrimFraction(value, unit) == WithPoint(whole, f);
    hide ToDec, FractionOf, AddGroup;
  }

  lemma WholeGroup(total: nat, n: nat, name: string, unit: nat, rest: string)
    requires Names(name, unit, rest)
    ensures var s := ToDec(n) + (name + rest);
            && ReadGroups(s, total) == (if total + n * unit > MAX_ABS then None else ReadGroups(rest, total + n * unit))
            && (ValidGroups(s) <==> rest == [] || ValidGroups(rest))
            && s != [] && IsDigit(s[0])
  {
    hide ToDec, DecVal, AddGroup, Names, ReadGroups, ValidGroups;
    AddNone(total, n, unit);
    NamesName(name, unit, rest);
    ReadGroup(ToDec(n), [], name, unit, rest, total);
    assert WithPoint(ToDec(n), []) == ToDec(n);
  }

  lemma NamesName(name: string, unit: nat, rest: string)
    requires Names(name, unit, rest)
    ensures name != []
  {}

  lemma AddNone(total: nat, n: nat, unit: nat)
    ensures AddGroup(total, n, DecVal([]), 0, unit) == if total + n * unit > MAX_ABS then None else Some(total + n * unit)
  {}

  lemma NoDigits()
    ensures DecVal([]) == 0
  {}

  /** The body of any count is a literal, read back exactly when it is in range. */
  lemma BodyBack(total: nat)
    requires total > 0
    ensures var s := Body(total);
            && ReadGroups(s, 0) == (if total > MAX_ABS then None else Some(total))
            && ValidGroups(s) && s != [] && IsDigit(s[0])
  {
    hide ReadGroups, ValidGroups, TrimFraction, ToDec;
    UnitNames([]);
    if total < 1_000 {
      WholeGroup(0, total, "ns", 1, []);
      assert "ns" + [] == "ns";
      NoGroups(total);
    } else if total < 1_000_000 {
      LastGroup(0, total, 1_000, MICRO);
    } else if total < SECOND {
      LastGroup(0, total, 1_000_000, "ms");
    } else {
      LongBody(total);
    }
  }

  lemma NoGroups(total: nat)
    ensures ReadGroups([], total) == Some(total)
  {}

  lemma LongBody(total: nat)
    requires total >= SECOND
    ensures var s := Body(total);
            && ReadGroups(s, 0) == (if total > MAX_ABS then None else Some(total))
            && ValidGroups(s) && s != [] && IsDigit(s[0])
  {
    hide ReadGroups, ValidGroups, TrimFraction, ToDec;
    var hours, minutes, rest := total / HOUR, total % HOUR / MINUTE, total % MINUTE;
    Clock(total);
    UnitNames([]);
    var seconds := TrimFraction(rest, SECOND) + "s";
    var from := hours * HOUR + minutes * MINUTE;
    LastGroup(from, rest, SECOND, "s");
    UnitNames(seconds);
    if hours > 0 {
      var text := ToDec(minutes) + ("m" + seconds);
      WholeGroup(hours * HOUR, minutes, "m", MINUTE, seconds);
      UnitNames(text);
      WholeGroup(0, hours, "h", HOUR, text);
    } else if minutes > 0 {
      WholeGroup(0, minutes, "m", MINUTE, seconds);
    }
  }

  lemma Clock(total: nat)
    ensures total == total / HOUR * HOUR + total % HOUR / MINUTE * MINUTE + total % MINUTE
  {
    assert HOUR == 60 * MINUTE;
  }

  /** Every Duration prints a duration literal, which reads back, with both parts on
      the sign of the whole, exactly when its count of nanoseconds is a signed
      64-bit integer. */
  lemma DurationBack(d: Duration)
    ensures Valid(Format(d))
    ensures Parse(Format(d)) == if InRange(TotalNanos(d)) then Some(Normalized(TotalNanos(d))) else None
  {
    hide ReadGroups, ValidGroups, Body, Normalized;
    var total := TotalNanos(d);
    if total == 0 {
      ZeroText();
    } else {
      var body := Body(if total < 0 then -total else total);
      BodyBack(if total < 0 then -total else total);
      assert ("-" + body)[1..] == body;
      if body == "0" {
        LoneZero();
      }
    }
  }

  lemma ZeroText()
    ensures ReadGroups("0s", 0) == Some(0) && ValidGroups("0s")
  {
    UnitNames([]);
    WholeGroup(0, 0, "s", SECOND, []);
    assert ToDec(0) == "0" && "s" + [] == "s" && "0" + "s" == "0s";
  }

  lemma LoneZero()
    ensures !ValidGroups("0")
  {
    assert "0"[1..] == [];
  }

  /** A Duration is in proto's normal form. */
  predicate Normal(d: Duration) {
    -(SECOND as int) < d.nanos < SECOND && (d.seconds > 0 ==> d.nanos >= 0) && (d.seconds < 0 ==> d.nanos <= 0)
  }

  /** A normal Duration in range comes back unchanged, and no other does. */
  lemma NormalBack(d: Duration)
    ensures Parse(Format(d)) == Some(d) <==> Normal(d) && InRange(TotalNanos(d))
  {
    DurationBack(d);
    hide Parse, Format, InRange;
    NormalizedIs(d);
  }

  lemma NormalizedIs(d: Duration)
    ensures Normalized(TotalNanos(d)) == d <==> Normal(d)
  {
    var total := TotalNanos(d);
    if Normal(d) {
      if total < 0 {
        DivModUnique(-total, SECOND, -d.seconds, -d.nanos);
      } else {
        DivModUnique(total, SECOND, d.seconds, d.nanos);
      }
    }
  }
}
