/** Every duration literal by its parts: what each text denotes, and how a count is
    printed. */
module DurationSpelling {
  import opened Options
  import opened Powers
  import opened Decimals
  import opened Durations
  import BigFloats

  // Texts.

  datatype UnitName = Nano | MicroU | MicroSign | Milli | Second | Minute | Hour

  /** A number, its fraction's digits if it has a point, and a unit. */
  datatype Part = Part(whole: string, fraction: string, unit: UnitName)

  function NameOf(u: UnitName): string {
    match u
    case Nano => "ns"
    case MicroU => "us"
    case MicroSign => MICRO
    case Milli => "ms"
    case Second => "s"
    case Minute => "m"
    case Hour => "h"
  }

  function NanosOf(u: UnitName): nat {
    match u
    case Nano => 1
    case MicroU => 1000
    case MicroSign => 1000
    case Milli => 1000 * 1000
    case Second => 1000 * 1000 * 1000
    case Minute => 60 * (1000 * 1000 * 1000)
    case Hour => 60 * 60 * (1000 * 1000 * 1000)
  }

  predicate Proper(p: Part) {
    p.whole != [] && AllDigits(p.whole) && AllDigits(p.fraction)
  }

  function PartText(p: Part): string {
    p.whole + (if p.fraction == [] then "" else "." + p.fraction) + NameOf(p.unit)
  }

  function Text(ps: seq<Part>): string {
    if ps == [] then "" else PartText(ps[0]) + Text(ps[1..])
  }

  /** The part in nanoseconds, what is less than one cut off. */
  function Nanos(p: Part): nat
    requires Proper(p)
  {
    CutOff(DecVal(p.whole + p.fraction), NanosOf(p.unit), Pow(10, |p.fraction|))
  }

  /** n * unit / scale */
  function CutOff(n: nat, unit: nat, scale: nat): nat
    requires scale > 0
  {
    n * unit / scale
  }

  function Sum(ps: seq<Part>): nat
    requires forall i :: 0 <= i < |ps| ==> Proper(ps[i])
  {
    if ps == [] then 0 else Nanos(ps[0]) + Sum(ps[1..])
  }

  /** The fraction's digits, in nanoseconds before they are cut, fit a 128-bit integer. */
  predicate Readable(p: Part)
    requires Proper(p)
  {
    p.fraction != [] ==> |p.fraction| <= 38 && DecVal(p.fraction) * NanosOf(p.unit) <= I128_MAX
  }

  // A part is read as its value.

  lemma {:induction false} QuotientPlus(n: nat, q: nat, k: nat)
    requires q > 0
    ensures (q * k + n) / q == k + n / q
  {
    assert q * k + n == q * (k + n / q) + n % q by {
      Distribute(q, k, n / q);
    }
    DivModUnique(q * k + n, q, k + n / q, n % q);
  }

  lemma {:induction false} Distribute(q: int, a: int, b: int)
    ensures q * (a + b) == q * a + q * b
  {}

  lemma {:induction false} PartNanos(p: Part)
    requires Proper(p)
    ensures Nanos(p)
         == DecVal(p.whole) * NanosOf(p.unit)
            + (if p.fraction == [] then 0 else CutOff(DecVal(p.fraction), NanosOf(p.unit), Pow(10, |p.fraction|)))
  {
    DecAppend(p.whole, p.fraction);
    if p.fraction == [] {
      assert p.whole + p.fraction == p.whole && Pow(10, |p.fraction|) == 1;
      assert CutOff(DecVal(p.whole), NanosOf(p.unit), 1) == DecVal(p.whole) * NanosOf(p.unit);
    } else {
      Scaled(DecVal(p.whole), DecVal(p.fraction), Pow(10, |p.fraction|), NanosOf(p.unit));
    }
    hide DecVal, NanosOf, Pow, AllDigits, CutOff;
  }

  lemma {:induction false} Scaled(w: nat, f: nat, q: nat, u: nat)
    requires q > 0
    ensures CutOff(w * q + f, u, q) == w * u + CutOff(f, u, q)
  {
    assert (w * q + f) * u == q * (w * u) + f * u by {
      Distribute(u, w * q, f);
      Assoc(w, q, u);
      Assoc(q, w, u);
    }
    QuotientPlus(f * u, q, w * u);
  }

  predicate AllProper(ps: seq<Part>) {
    forall i :: 0 <= i < |ps| ==> Proper(ps[i])
  }

  predicate AllReadable(ps: seq<Part>)
    requires AllProper(ps)
  {
    forall i :: 0 <= i < |ps| ==> Readable(ps[i])
  }

  lemma {:induction false} TextStarts(ps: seq<Part>)
    requires AllProper(ps)
    ensures Text(ps) == [] <==> ps == []
    ensures ps != [] ==> IsDigit(Text(ps)[0])
  {
    if ps != [] {
      assert PartText(ps[0])[0] == ps[0].whole[0];
    }
  }

  lemma {:induction false} UnitFound(u: UnitName, rest: string)
    requires rest == [] || IsDigit(rest[0])
    ensures Names(NameOf(u), NanosOf(u), rest)
  {
    UnitNames(rest);
  }

  lemma {:induction false} PartAdded(p: Part, total: nat)
    requires Proper(p) && total <= MAX_ABS
    ensures AddGroup(total, DecVal(p.whole), DecVal(p.fraction), |p.fraction|, NanosOf(p.unit))
         == Added(p, total)
  {
    PartNanos(p);
    AddedIs(p, total);
    var n, f, scale := DecVal(p.whole), DecVal(p.fraction), Pow(10, |p.fraction|);
    var unit := NanosOf(p.unit);
    hide *;
    AddGroupIs(total, n, f, |p.fraction|, unit);
    ReadableIs(p);
  }

  lemma {:induction false} AddedIs(p: Part, total: nat)
    requires Proper(p)
    ensures Added(p, total) == if Readable(p) && total + Nanos(p) <= MAX_ABS then Some(total + Nanos(p)) else None
  {}

  lemma {:induction false} ReadableIs(p: Part)
    requires Proper(p)
    ensures Readable(p) <==> |p.fraction| == 0 || (|p.fraction| <= 38 && DecVal(p.fraction) * NanosOf(p.unit) <= I128_MAX)
  {}

  lemma {:induction false} AddGroupIs(total: nat, whole: nat, fraction: nat, places: nat, unit: nat)
    requires total <= MAX_ABS
    ensures Pow(10, places) > 0
    ensures AddGroup(total, whole, fraction, places, unit)
         == var n := whole * unit + if places == 0 then 0 else CutOff(fraction, unit, Pow(10, places));
            if (places == 0 || (places <= 38 && fraction * unit <= I128_MAX)) && total + n <= MAX_ABS then Some(total + n) else None
  {
    NotBelow(whole, unit);
    hide Pow;
  }

  lemma {:induction false} NotBelow(a: nat, b: nat)
    ensures a * b >= 0
  {}

  lemma {:induction false} GroupRead(whole: string, fraction: string, name: string, unit: nat, rest: string, total: nat, n: Option<nat>)
    requires whole != [] && AllDigits(whole) && AllDigits(fraction) && Names(name, unit, rest)
    requires AddGroup(total, DecVal(whole), DecVal(fraction), |fraction|, unit) == n
    ensures ReadGroups(WithPoint(whole, fraction) + (name + rest), total) == if n.None? then None else ReadGroups(rest, n.value)
  {
    hide *;
    ReadGroup(whole, fraction, name, unit, rest, total);
  }

  /** The total with a part added, when it can be read and the total stays in range. */
  function Added(p: Part, total: nat): Option<nat>
    requires Proper(p)
  {
    if Readable(p) && total + Nanos(p) <= MAX_ABS then Some(total + Nanos(p)) else None
  }

  lemma {:induction false} PartRead(p: Part, rest: string, total: nat)
    requires Proper(p) && (rest == [] || IsDigit(rest[0])) && total <= MAX_ABS
    ensures ReadGroups(PartText(p) + rest, total) == if Added(p, total).None? then None else ReadGroups(rest, Added(p, total).value)
  {
    UnitFound(p.unit, rest);
    PartAdded(p, total);
    PartSplit(p, rest);
    hide *;
    GroupRead(p.whole, p.fraction, NameOf(p.unit), NanosOf(p.unit), rest, total, Added(p, total));
  }

  lemma {:induction false} PartValid(p: Part, rest: string)
    requires Proper(p) && (rest == [] || IsDigit(rest[0]))
    ensures ValidGroups(PartText(p) + rest) <==> rest == [] || ValidGroups(rest)
  {
    UnitFound(p.unit, rest);
    PartSplit(p, rest);
    var unit, name := NanosOf(p.unit), NameOf(p.unit);
    hide *;
    ReadGroup(p.whole, p.fraction, name, unit, rest, 0);
  }

  lemma {:induction false} PartSplit(p: Part, rest: string)
    requires Proper(p)
    ensures PartText(p) + rest == WithPoint(p.whole, p.fraction) + (NameOf(p.unit) + rest)
    ensures p.whole != [] && AllDigits(p.whole) && AllDigits(p.fraction)
  {
    hide NameOf, AllDigits;
  }

  /** The total with all parts added. */
  function AddedAll(ps: seq<Part>, total: nat): Option<nat>
    requires AllProper(ps)
  {
    if AllReadable(ps) && total + Sum(ps) <= MAX_ABS then Some(total + Sum(ps)) else None
  }

  lemma {:induction false} AddedFirst(ps: seq<Part>, total: nat)
    requires AllProper(ps) && total <= MAX_ABS && ps != []
    ensures Proper(ps[0]) && AllProper(ps[1..])
    ensures AddedAll(ps, total)
         == if Added(ps[0], total).None? then None else AddedAll(ps[1..], Added(ps[0], total).value)
  {
    FirstOf(ps);
    AddedIs(ps[0], total);
    var n, sum := Nanos(ps[0]), Sum(ps[1..]);
    assert Sum(ps) == n + sum;
    hide Readable, Nanos, AllReadable, Sum, Proper, Added, AllProper;
  }

  lemma {:induction false} PartsRead(ps: seq<Part>, total: nat)
    requires AllProper(ps) && total <= MAX_ABS
    ensures ReadGroups(Text(ps), total) == AddedAll(ps, total)
    decreases |ps|
  {
    if ps == [] {
      NoGroups(total);
      hide ReadGroups;
    } else {
      TextStarts(ps[1..]);
      FirstOf(ps);
      AddedFirst(ps, total);
      AddedIs(ps[0], total);
      var more := Added(ps[0], total);
      hide *;
      PartRead(ps[0], Text(ps[1..]), total);
      if more.Some? {
        PartsRead(ps[1..], more.value);
      }
    }
  }

  lemma {:induction false} FirstOf(ps: seq<Part>)
    requires AllProper(ps) && ps != []
    ensures Proper(ps[0]) && AllProper(ps[1..])
    ensures AllReadable(ps) <==> Readable(ps[0]) && AllReadable(ps[1..])
    ensures Text(ps) == PartText(ps[0]) + Text(ps[1..]) && Sum(ps) == Nanos(ps[0]) + Sum(ps[1..])
  {
    hide PartText, Nanos, Readable, Proper;
    assert Proper(ps[0]);
    assert AllReadable(ps) ==> Readable(ps[0]);
    assert forall i :: 0 < i < |ps| ==> ps[i] == ps[1..][i - 1];
  }

  lemma {:induction false} PartsValid(ps: seq<Part>)
    requires AllProper(ps)
    ensures ValidGroups(Text(ps)) <==> ps != []
    decreases |ps|
  {
    if ps == [] {
      assert !ValidGroups([]);
    } else {
      TextStarts(ps[1..]);
      FirstOf(ps);
      hide *;
      PartValid(ps[0], Text(ps[1..]));
      PartsValid(ps[1..]);
    }
  }

  // What every literal denotes.

  datatype Sign = NoSign | Plus | Minus

  function SignText(s: Sign): string {
    match s
    case NoSign => ""
    case Plus => "+"
    case Minus => "-"
  }

  /** A literal is read as the sum of its parts under its sign, when each can be read
      and the sum is a signed 64-bit count. */
  lemma {:induction false} SpelledRead(sign: Sign, ps: seq<Part>)
    requires AllProper(ps) && ps != []
    ensures var total := Signed(sign.Minus?, Sum(ps));
            && Valid(SignText(sign) + Text(ps))
            && Parse(SignText(sign) + Text(ps))
               == if AllReadable(ps) && InRange(total) then Some(Normalized(total)) else None
  {
    PartsRead(ps, 0);
    PartsValid(ps);
    TextStarts(ps);
    var sum, readable := Sum(ps), AllReadable(ps);
    assert AddedAll(ps, 0) == if readable && sum <= MAX_ABS then Some(sum) else None;
    SignedRange(sign.Minus?, sum);
    hide *;
    SignRead(sign, Text(ps));
  }

  /** A count under a sign. */
  function Signed(minus: bool, n: nat): int {
    if minus then -(n as int) else n
  }

  lemma {:induction false} SignedRange(minus: bool, n: nat)
    ensures InRange(Signed(minus, n)) <==> n <= MAX_ABS && Signed(minus, n) < MAX_ABS
  {}

  lemma {:induction false} SignRead(sign: Sign, body: string)
    requires body != [] && IsDigit(body[0]) && ValidGroups(body)
    ensures Valid(SignText(sign) + body)
    ensures var r := ReadGroups(body, 0);
            Parse(SignText(sign) + body)
            == if r.None? || Signed(sign.Minus?, r.value) >= MAX_ABS then None else Some(Normalized(Signed(sign.Minus?, r.value)))
  {
    var s := SignText(sign) + body;
    hide ReadGroups, ValidGroups, Normalized;
    if sign.NoSign? {
      assert s == body;
      if s == "0" {
        LoneZero();
        assert false;
      }
    } else {
      assert s[1..] == body;
    }
  }

  /** Nothing else is a duration literal. */
  lemma {:induction false} OnlySpelled(s: string)
    requires Valid(s)
    ensures exists sign: Sign, ps :: AllProper(ps) && ps != [] && s == SignText(sign) + Text(ps)
  {
    var body := if HasSign(s) then s[1..] else s;
    var sign := if !HasSign(s) then NoSign else if s[0] == '+' then Plus else Minus;
    var ps := PartsOf(body);
    assert s == SignText(sign) + body;
    hide *;
    assert AllProper(ps) && ps != [] && s == SignText(sign) + Text(ps);
  }

  lemma {:induction false} PartsOf(s: string) returns (ps: seq<Part>)
    requires ValidGroups(s)
    ensures AllProper(ps) && ps != [] && s == Text(ps)
    decreases |s|
  {
    var p, rest := FirstPart(s);
    hide PartText, Proper;
    if rest == [] {
      ps := [p];
      assert ps[1..] == [];
    } else {
      var more := PartsOf(rest);
      ps := [p] + more;
      assert ps[1..] == more;
    }
  }

  lemma {:induction false} FirstPart(s: string) returns (p: Part, rest: string)
    requires ValidGroups(s)
    ensures Proper(p) && s == PartText(p) + rest && |rest| < |s| && (rest == [] || ValidGroups(rest))
  {
    var g, u := FirstGroup(s);
    var unit := UnitOf(g.rest);
    p := Part(g.whole, g.fraction, unit);
    rest := g.rest[u.length..];
    PartIs(p);
    var number := g.whole + (if g.fraction == [] then "" else "." + g.fraction);
    hide *;
    Cut(s, number, g.rest, NameOf(unit), rest);
  }

  lemma {:induction false} PartIs(p: Part)
    ensures Proper(p) <==> p.whole != [] && AllDigits(p.whole) && AllDigits(p.fraction)
    ensures PartText(p) == p.whole + (if p.fraction == [] then "" else "." + p.fraction) + NameOf(p.unit)
  {}

  lemma {:induction false} Cut(s: string, number: string, tail: string, name: string, rest: string)
    requires s == number + tail && name <= tail && rest == tail[|name|..]
    ensures s == number + name + rest && |rest| <= |tail|
  {
    assert tail == name + rest;
  }

  lemma {:induction false} FirstGroup(s: string) returns (g: Group, u: Unit)
    requires ValidGroups(s)
    ensures AllDigits(g.whole) && AllDigits(g.fraction) && g.whole != [] && |g.rest| < |s|
    ensures s == g.whole + (if g.fraction == [] then "" else "." + g.fraction) + g.rest
    ensures UnitAt(g.rest) == Some(u) && (g.rest[u.length..] == [] || ValidGroups(g.rest[u.length..]))
  {
    g := GroupAt(s).value;
    u := UnitAt(g.rest).value;
    GroupText(s);
    hide GroupAt, UnitAt;
  }

  lemma {:induction false} GroupText(s: string)
    requires GroupAt(s).Some?
    ensures var g := GroupAt(s).value;
            g.whole != [] && s == g.whole + (if g.fraction == [] then "" else "." + g.fraction) + g.rest
  {
    var n := LeadDigits(s);
    var rest := s[n..];
    hide LeadDigits, AllDigits;
    assert s == s[..n] + rest;
    if rest != [] && rest[0] == '.' {
      var f := LeadDigits(rest[1..]);
      assert rest == "." + rest[1..] && rest[1..] == rest[1..][..f] + rest[1..][f..];
    }
  }

  lemma {:induction false} UnitOf(s: string) returns (u: UnitName)
    requires UnitAt(s).Some?
    ensures |NameOf(u)| == UnitAt(s).value.length && NanosOf(u) == UnitAt(s).value.nanos && NameOf(u) <= s
  {
    if |s| >= 2 && s[0] == 'n' && s[1] == 's' {
      u := Nano;
    } else if |s| >= 2 && s[0] == 'u' && s[1] == 's' {
      u := MicroU;
    } else if |s| >= 3 && s[0] as int == 0xc2 && s[1] as int == 0xb5 && s[2] == 's' {
      u := MicroSign;
    } else if |s| >= 2 && s[0] == 'm' && s[1] == 's' {
      u := Milli;
    } else if s[0] == 's' {
      u := Second;
    } else if s[0] == 'm' {
      u := Minute;
    } else {
      u := Hour;
    }
  }

  // How a count is printed.

  predicate Canonical(whole: string) {
    AllDigits(whole) && whole == ToDec(DecVal(whole))
  }

  /** A fraction of at most so many digits, without a zero at its end. */
  predicate Trimmed(fraction: string, places: nat) {
    |fraction| <= places && (fraction != [] ==> fraction[|fraction| - 1] != '0')
  }

  predicate WholePart(p: Part, unit: UnitName) {
    p.unit == unit && p.fraction == [] && Canonical(p.whole)
  }

  predicate Minutes(p: Part) {
    WholePart(p, Minute) && DecVal(p.whole) < 60
  }

  predicate Seconds(p: Part) {
    p.unit == Second && Canonical(p.whole) && DecVal(p.whole) < 60 && Trimmed(p.fraction, 9)
  }

  /** Below a second one part in the largest unit not above the count; from a second
      on hours, minutes and seconds, without those before the first not zero. */
  predicate Printed(ps: seq<Part>) {
    if |ps| == 1 && ps[0].unit != Second then
      && Canonical(ps[0].whole) && 0 < DecVal(ps[0].whole) < 1000
      && match ps[0].unit
         case Nano => ps[0].fraction == []
         case MicroSign => Trimmed(ps[0].fraction, 3)
         case Milli => Trimmed(ps[0].fraction, 6)
         case _ => false
    else
      && 1 <= |ps| <= 3 && Seconds(ps[|ps| - 1]) && ps[0].whole != "0"
      && (|ps| > 1 ==> Minutes(ps[|ps| - 2]))
      && (|ps| > 2 ==> WholePart(ps[0], Hour))
  }

  lemma {:induction false} FractionText(value: nat, unit: nat, u: UnitName)
    requires DecimalUnit(unit) && NanosOf(u) == unit
    ensures var p := Part(ToDec(value / unit), FractionOf(value, unit), u);
            && Proper(p) && Canonical(p.whole) && DecVal(p.whole) == value / unit
            && Trimmed(p.fraction, Places(unit)) && Nanos(p) == value
            && PartText(p) == TrimFraction(value, unit) + NameOf(u)
  {
    var whole, f := ToDec(value / unit), FractionOf(value, unit);
    FractionBack(value, unit);
    FractionTrimmed(value, unit);
    assert AllDigits(whole) && whole != [] && DecVal(whole) == value / unit && Canonical(whole);
    assert Proper(Part(whole, f, u));
    FractionNanos(value, unit, u);
    hide FractionOf, Places, DecimalUnit, Nanos, NanosOf, NameOf, ToDec, DecVal, AllDigits, Proper, Canonical, Trimmed;
  }

  lemma {:induction false} FractionNanos(value: nat, unit: nat, u: UnitName)
    requires DecimalUnit(unit) && NanosOf(u) == unit && Proper(Part(ToDec(value / unit), FractionOf(value, unit), u))
    ensures Nanos(Part(ToDec(value / unit), FractionOf(value, unit), u)) == value
  {
    var p := Part(ToDec(value / unit), FractionOf(value, unit), u);
    FractionBack(value, unit);
    PartNanos(p);
    ExactNanos(value, unit, DecVal(p.fraction), Pow(10, |p.fraction|));
    assert DecVal(p.whole) == value / unit;
    hide FractionOf, Nanos, NanosOf, ToDec, DecVal, AllDigits, CutOff, Pow;
  }

  lemma {:induction false} ExactNanos(value: nat, unit: nat, f: nat, scale: nat)
    requires unit > 0 && scale > 0
    ensures value % unit == 0 ==> value / unit * unit == value
    ensures f * unit / scale == value % unit ==> value / unit * unit + CutOff(f, unit, scale) == value
  {}

  lemma {:induction false} FractionTrimmed(value: nat, unit: nat)
    requires DecimalUnit(unit)
    ensures Trimmed(FractionOf(value, unit), Places(unit))
  {
    if value % unit != 0 {
      UnitPower(unit);
      NoZeroLast(Padded(value % unit, Places(unit)));
      hide Padded, BigFloats.TrimZeros;
    }
  }

  lemma {:induction false} NoZeroLast(s: string)
    ensures var r := BigFloats.TrimZeros(s);
            |r| <= |s| && (r != [] ==> r[|r| - 1] != '0')
    decreases |s|
  {
    if s != [] && s[|s| - 1] == '0' {
      NoZeroLast(s[..|s| - 1]);
    }
  }

  lemma {:induction false} WholeText(n: nat, u: UnitName)
    ensures var p := Part(ToDec(n), [], u);
            && Proper(p) && WholePart(p, u) && DecVal(p.whole) == n && Nanos(p) == n * NanosOf(u)
            && PartText(p) == ToDec(n) + NameOf(u)
  {
    var p := Part(ToDec(n), [], u);
    var digits := p.whole;
    assert digits != [] && AllDigits(digits) && DecVal(digits) == n && AllDigits([]);
    PartIs(p);
    PartNanos(p);
    assert digits + "" == digits;
    hide ToDec, DecVal, AllDigits, Nanos, NanosOf, NameOf, PartText, Proper;
  }

  lemma {:induction false} NotZeroText(n: nat)
    ensures ToDec(n) == "0" <==> n == 0
  {
    assert ToDec(0) == "0";
    if ToDec(n) == "0" {
      assert DecVal(ToDec(n)) == DecVal("0") == DecVal(ToDec(0));
    }
  }

  lemma {:induction false} TwoParts(a: Part, rest: seq<Part>)
    ensures ([a] + rest)[1..] == rest
    ensures Text([a] + rest) == PartText(a) + Text(rest)
    ensures AllProper(rest) && Proper(a) ==> AllProper([a] + rest) && Sum([a] + rest) == Nanos(a) + Sum(rest)
  {
    assert ([a] + rest)[1..] == rest;
    hide PartText, Nanos, Proper;
  }

  /** A count is printed by exact parts. */
  lemma {:induction false} BodyParts(total: nat) returns (ps: seq<Part>)
    requires total > 0
    ensures AllProper(ps) && Printed(ps) && Text(ps) == Body(total) && Sum(ps) == total
  {
    hide PartText, Nanos, ToDec, TrimFraction, DecVal, FractionOf, Text, Sum;
    if total < SECOND {
      var p := SmallPart(total);
      ps := [p];
      OnePart(p);
    } else {
      ps := LongParts(total);
    }
  }

  lemma {:induction false} OnePart(p: Part)
    requires Proper(p)
    ensures Text([p]) == PartText(p) && Sum([p]) == Nanos(p)
  {
    TwoParts(p, []);
    assert [p] + [] == [p];
  }

  lemma {:induction false} SmallPart(total: nat) returns (p: Part)
    requires 0 < total < SECOND
    ensures Proper(p) && Printed([p]) && PartText(p) == Body(total) && Nanos(p) == total
  {
    hide PartText, Nanos, ToDec, TrimFraction, DecVal, FractionOf;
    if total < 1_000 {
      p := Part(ToDec(total), [], Nano);
      WholeText(total, Nano);
    } else if total < 1_000_000 {
      p := Part(ToDec(total / 1_000), FractionOf(total, 1_000), MicroSign);
      FractionText(total, 1_000, MicroSign);
    } else {
      p := Part(ToDec(total / 1_000_000), FractionOf(total, 1_000_000), Milli);
      FractionText(total, 1_000_000, Milli);
    }
  }

  lemma {:induction false} LongParts(total: nat) returns (ps: seq<Part>)
    requires total >= SECOND
    ensures AllProper(ps) && Printed(ps) && Text(ps) == Body(total) && Sum(ps) == total
  {
    var h, m, s := ClockParts(total);
    hide *;
    if total < MINUTE {
      ps := [s];
      OnePrinted(s);
    } else if total < HOUR {
      ps := [m, s];
      TwoPrinted(m, s);
    } else {
      ps := [h, m, s];
      ThreePrinted(h, m, s);
    }
  }

  lemma {:induction false} OnePrinted(s: Part)
    requires Proper(s) && Seconds(s) && s.whole != "0"
    ensures AllProper([s]) && Printed([s]) && Text([s]) == PartText(s) && Sum([s]) == Nanos(s)
  {
    hide PartText, Nanos, Proper, Seconds;
    OnePart(s);
    assert s.unit == Second by { UnitSecond(s); }
  }

  lemma {:induction false} UnitSecond(s: Part)
    requires Seconds(s)
    ensures s.unit == Second
  {}

  lemma {:induction false} TwoPrinted(m: Part, s: Part)
    requires Proper(m) && Proper(s) && Minutes(m) && Seconds(s) && m.whole != "0"
    ensures var ps := [m, s];
            AllProper(ps) && Printed(ps) && Text(ps) == PartText(m) + PartText(s) && Sum(ps) == Nanos(m) + Nanos(s)
  {
    hide PartText, Nanos, Proper, Seconds, Minutes;
    OnePart(s);
    TwoParts(m, [s]);
    assert [m, s] == [m] + [s];
  }

  lemma {:induction false} ThreePrinted(h: Part, m: Part, s: Part)
    requires Proper(h) && Proper(m) && Proper(s) && WholePart(h, Hour) && Minutes(m) && Seconds(s) && h.whole != "0"
    ensures var ps := [h, m, s];
            && AllProper(ps) && Printed(ps)
            && Text(ps) == PartText(h) + (PartText(m) + PartText(s)) && Sum(ps) == Nanos(h) + (Nanos(m) + Nanos(s))
  {
    hide PartText, Nanos, Proper, Seconds, Minutes, WholePart;
    OnePart(s);
    TwoParts(m, [s]);
    TwoParts(h, [m] + [s]);
    assert [h, m, s] == [h] + ([m] + [s]);
  }

  lemma {:induction false} ClockParts(total: nat) returns (h: Part, m: Part, s: Part)
    requires total >= SECOND
    ensures Proper(h) && Proper(m) && Proper(s) && WholePart(h, Hour) && Minutes(m) && Seconds(s)
    ensures total >= HOUR ==> h.whole != "0" && Body(total) == PartText(h) + (PartText(m) + PartText(s))
    ensures MINUTE <= total < HOUR ==> m.whole != "0" && Body(total) == PartText(m) + PartText(s)
    ensures total < MINUTE ==> s.whole != "0" && Body(total) == PartText(s)
    ensures Nanos(h) + (Nanos(m) + Nanos(s)) == total
    ensures (total < HOUR ==> Nanos(h) == 0) && (total < MINUTE ==> Nanos(m) == 0)
  {
    var hours, minutes, rest := total / HOUR, total % HOUR / MINUTE, total % MINUTE;
    Clock(total);
    h, m := Part(ToDec(hours), [], Hour), Part(ToDec(minutes), [], Minute);
    s := Part(ToDec(rest / SECOND), FractionOf(rest, SECOND), Second);
    WholeText(hours, Hour);
    WholeText(minutes, Minute);
    FractionText(rest, SECOND, Second);
    ClockText(total, PartText(s));
    assert NanosOf(Hour) == HOUR && NanosOf(Minute) == MINUTE;
    hide TrimFraction, FractionOf, ToDec, DecVal, PartText, Nanos, Body, AllDigits, Trimmed, NanosOf, Canonical;
    NotZeroText(hours);
    NotZeroText(minutes);
    NotZeroText(rest / SECOND);
  }

  lemma {:induction false} ClockText(total: nat, seconds: string)
    requires total >= SECOND && seconds == TrimFraction(total % MINUTE, SECOND) + "s"
    ensures var hours, minutes := total / HOUR, total % HOUR / MINUTE;
            Body(total)
            == if hours > 0 then (ToDec(hours) + "h") + ((ToDec(minutes) + "m") + seconds)
               else if minutes > 0 then (ToDec(minutes) + "m") + seconds
               else seconds
  {
    var hours, minutes := ToDec(total / HOUR), ToDec(total % HOUR / MINUTE);
    LongText(total, seconds);
    hide Body, ToDec, TrimFraction;
    Joined(minutes, "m", seconds);
    Joined(hours, "h", minutes + ("m" + seconds));
  }

  lemma {:induction false} LongText(total: nat, seconds: string)
    requires total >= SECOND && seconds == TrimFraction(total % MINUTE, SECOND) + "s"
    ensures var hours, minutes := total / HOUR, total % HOUR / MINUTE;
            Body(total)
            == if hours > 0 then ToDec(hours) + ("h" + (ToDec(minutes) + ("m" + seconds)))
               else if minutes > 0 then ToDec(minutes) + ("m" + seconds)
               else seconds
  {
    hide ToDec, TrimFraction;
  }

  lemma {:induction false} Joined(a: string, b: string, c: string)
    ensures (a + b) + c == a + (b + c)
  {}

  /** Every Duration is printed by exact parts in that form, zero as "0s". */
  lemma {:induction false} PrintedForm(d: Duration)
    ensures TotalNanos(d) == 0 ==> Format(d) == "0s"
    ensures TotalNanos(d) != 0 ==>
      exists ps ::
        && AllProper(ps) && Printed(ps) && Sum(ps) == (if TotalNanos(d) < 0 then -TotalNanos(d) else TotalNanos(d))
        && Format(d) == SignText(if TotalNanos(d) < 0 then Minus else NoSign) + Text(ps)
  {
    var total := TotalNanos(d);
    if total != 0 {
      var ps := BodyParts(if total < 0 then -total else total);
      assert "" + Text(ps) == Text(ps);
      hide Body, Text, Sum, Printed, AllProper, TotalNanos;
    }
  }
}
