/** Durations and timestamps among the tokens: a literal that stands is taken whole,
    and nothing else is. */
module TimeTokens {
  import opened Decimals
  import opened Lexing
  import opened NumberSpelling
  import DurationSpelling
  import TimestampSpelling
  import Durations
  import Timestamps

  // Durations.

  predicate Continues(rest: string) {
    DurationPart(rest, 0) || MicroSign(rest, 0)
  }

  /** A duration literal without a plus, which no letter, digit or micro sign follows. */
  predicate DurationLexeme(text: string, rest: string) {
    Durations.Valid(text) && text != "" && text[0] != '+' && !Continues(rest)
  }

  lemma {:induction false} RunStops(s: string, i: nat)
    requires i <= |s|
    ensures !Continues(s[DurationEnd(s, i)..])
    decreases |s| - i
  {
    if i < |s| && DurationPart(s, i) {
      RunStops(s, i + 1);
    } else if i < |s| && MicroSign(s, i) {
      RunStops(s, i + 2);
    } else {
      AtFrom(s, i, 0);
      AtFrom(s, i, 1);
    }
  }

  lemma {:induction false} RunEnd(s: string, i: nat, rest: string)
    requires i <= |s| && s[i..] == rest && !Continues(rest)
    ensures DurationEnd(s, i) == i
  {
    AtFrom(s, i, 0);
    AtFrom(s, i, 1);
  }

  /** What stands from a position to the end. */
  predicate From(s: string, i: nat, t: string) {
    i <= |s| && s[i..] == t
  }

  lemma {:induction false} FromNext(s: string, i: nat, p: string, r: string)
    requires From(s, i, p + r)
    ensures i + |p| <= |s| && From(s, i + |p|, r)
    ensures forall k :: 0 <= k < |p| ==> s[i + k] == p[k]
    ensures At(s, i + |p|) == At(r, 0) && At(s, i + |p| + 1) == At(r, 1)
  {
    hide At;
    Split(s, i, p, r);
  }

  lemma {:induction false} RunDigits(s: string, i: nat, d: string, r: string)
    requires From(s, i, d + r) && AllDigits(d)
    ensures i + |d| <= |s| && DurationEnd(s, i) == DurationEnd(s, i + |d|)
    decreases |d|
  {
    FromNext(s, i, d, r);
    if d != "" {
      assert s[i] == s[i + 0] == d[0];
      assert s[i + 1..] == d[1..] + r by { assert s[i + 1..] == s[i..][1..]; }
      RunDigits(s, i + 1, d[1..], r);
    }
  }

  /** The point and the digits after it. */
  function PointText(p: DurationSpelling.Part): string {
    if p.fraction == "" then "" else "." + p.fraction
  }

  lemma {:induction false} RunPoint(s: string, i: nat, p: DurationSpelling.Part, r: string)
    requires From(s, i, PointText(p) + r) && AllDigits(p.fraction)
    ensures i + |PointText(p)| <= |s| && DurationEnd(s, i) == DurationEnd(s, i + |PointText(p)|)
  {
    var f := p.fraction;
    FromNext(s, i, PointText(p), r);
    if f != "" {
      assert s[i] == s[i + 0] == '.';
      assert s[i + 1] == f[0];
      assert s[i + 1..] == f + r by { assert s[i + 1..] == s[i..][1..]; }
      RunDigits(s, i + 1, f, r);
    }
  }

  lemma {:induction false} RunName(s: string, i: nat, u: DurationSpelling.UnitName, r: string)
    requires From(s, i, DurationSpelling.NameOf(u) + r)
    ensures var n := |DurationSpelling.NameOf(u)|;
            n > 0 && i + n <= |s| && DurationEnd(s, i) == DurationEnd(s, i + n) && DurationUnit(s, i)
  {
    var name := DurationSpelling.NameOf(u);
    FromNext(s, i, name, r);
    assert s[i] == s[i + 0] == name[0];
    if u.MicroSign? {
      assert MicroSign(s, i) && !DurationPart(s, i);
      assert DurationEnd(s, i) == DurationEnd(s, i + 2) == DurationEnd(s, i + 3);
    } else if |name| == 2 {
      assert DurationEnd(s, i) == DurationEnd(s, i + 1) == DurationEnd(s, i + 2);
    }
  }

  lemma {:induction false} PartJoined(p: DurationSpelling.Part)
    ensures DurationSpelling.PartText(p) == p.whole + PointText(p) + DurationSpelling.NameOf(p.unit)
    ensures DurationSpelling.Proper(p) ==> p.whole != "" && AllDigits(p.whole) && AllDigits(p.fraction)
  {
    DurationSpelling.PartIs(p);
  }

  lemma {:induction false} FromThree(s: string, i: nat, x: string, y: string, z: string, r: string)
    requires From(s, i, x + y + z + r)
    ensures From(s, i, x + (y + (z + r))) && From(s, i + |x|, y + (z + r)) && From(s, i + |x| + |y|, z + r)
    ensures From(s, i + |x + y + z|, r) && |x + y + z| == |x| + |y| + |z| && i + |x| + |y| + |z| <= |s|
  {
    assert x + y + z + r == x + (y + (z + r));
    hide At, From;
    FromNext(s, i, x, y + (z + r));
    FromNext(s, i + |x|, y, z + r);
    FromNext(s, i + |x| + |y|, z, r);
  }

  lemma {:induction false} PartFrom(s: string, i: nat, p: DurationSpelling.Part, more: string)
    requires From(s, i, DurationSpelling.PartText(p) + more)
    ensures var a, b, name := i + |p.whole|, i + |p.whole| + |PointText(p)|, DurationSpelling.NameOf(p.unit);
            && b + |name| == i + |DurationSpelling.PartText(p)| <= |s|
            && From(s, i, p.whole + (PointText(p) + (name + more))) && From(s, a, PointText(p) + (name + more))
            && From(s, b, name + more) && From(s, b + |name|, more)
  {
    PartJoined(p);
    hide *;
    FromThree(s, i, p.whole, PointText(p), DurationSpelling.NameOf(p.unit), more);
  }

  lemma {:induction false} RunNumber(s: string, i: nat, a: nat, b: nat, p: DurationSpelling.Part, r: string)
    requires From(s, i, p.whole + (PointText(p) + r)) && From(s, a, PointText(p) + r) && From(s, b, r)
    requires a == i + |p.whole| && b == a + |PointText(p)| && AllDigits(p.whole) && AllDigits(p.fraction)
    ensures i <= b <= |s| && DurationEnd(s, i) == DurationEnd(s, b)
  {
    FromNext(s, i, p.whole, PointText(p) + r);
    hide *;
    RunDigits(s, i, p.whole, PointText(p) + r);
    RunPoint(s, a, p, r);
  }

  lemma {:induction false} RunToUnit(s: string, i: nat, b: nat, p: DurationSpelling.Part, more: string)
    requires From(s, i, DurationSpelling.PartText(p) + more) && DurationSpelling.Proper(p)
    requires b == i + |p.whole| + |PointText(p)|
    ensures i <= b <= |s| && DurationEnd(s, i) == DurationEnd(s, b)
  {
    PartFrom(s, i, p, more);
    PartJoined(p);
    var name, a := DurationSpelling.NameOf(p.unit), i + |p.whole|;
    hide *;
    RunNumber(s, i, a, b, p, name + more);
  }

  lemma {:induction false} RunUnit(s: string, i: nat, b: nat, k: nat, p: DurationSpelling.Part, more: string)
    requires From(s, i, DurationSpelling.PartText(p) + more)
    requires b == i + |p.whole| + |PointText(p)| && k == i + |DurationSpelling.PartText(p)|
    ensures b < k <= |s| && From(s, k, more) && DurationEnd(s, b) == DurationEnd(s, k) && DurationUnit(s, b)
  {
    PartFrom(s, i, p, more);
    hide *;
    RunName(s, b, p.unit, more);
  }

  lemma {:induction false} RunPart(s: string, i: nat, b: nat, k: nat, p: DurationSpelling.Part, more: string)
    requires From(s, i, DurationSpelling.PartText(p) + more) && DurationSpelling.Proper(p)
    requires b == i + |p.whole| + |PointText(p)| && k == i + |DurationSpelling.PartText(p)|
    ensures i <= b < k <= |s| && From(s, k, more)
    ensures DurationEnd(s, i) == DurationEnd(s, k) && DurationEnd(s, b) == DurationEnd(s, k) && DurationUnit(s, b)
  {
    hide *;
    RunToUnit(s, i, b, p, more);
    RunUnit(s, i, b, k, p, more);
  }

  lemma {:induction false} RunParts(s: string, i: nat, e: nat, ps: seq<DurationSpelling.Part>, rest: string)
    requires From(s, i, DurationSpelling.Text(ps) + rest) && DurationSpelling.AllProper(ps) && !Continues(rest)
    requires e == i + |DurationSpelling.Text(ps)|
    ensures i <= e <= |s| && DurationEnd(s, i) == e
    decreases |ps|
  {
    if ps == [] {
      NoParts(s, i, rest);
      hide *;
    } else {
      var b, k := FirstParted(s, i, e, ps, rest);
      hide *;
      RunPart(s, i, b, k, ps[0], DurationSpelling.Text(ps[1..]) + rest);
      RunParts(s, k, e, ps[1..], rest);
    }
  }

  lemma {:induction false} NoParts(s: string, i: nat, rest: string)
    requires From(s, i, DurationSpelling.Text([]) + rest) && !Continues(rest)
    ensures i <= |s| && DurationEnd(s, i) == i && |DurationSpelling.Text([])| == 0
  {
    hide Continues, DurationEnd;
    assert s[i..] == rest;
    RunEnd(s, i, rest);
  }

  lemma {:induction false} FirstParted(s: string, i: nat, e: nat, ps: seq<DurationSpelling.Part>, rest: string)
    returns (b: nat, k: nat)
    requires ps != [] && From(s, i, DurationSpelling.Text(ps) + rest) && DurationSpelling.AllProper(ps)
    requires e == i + |DurationSpelling.Text(ps)|
    ensures From(s, i, DurationSpelling.PartText(ps[0]) + (DurationSpelling.Text(ps[1..]) + rest))
    ensures DurationSpelling.Proper(ps[0]) && DurationSpelling.AllProper(ps[1..])
    ensures b == i + |ps[0].whole| + |PointText(ps[0])| && k == i + |DurationSpelling.PartText(ps[0])|
    ensures e == k + |DurationSpelling.Text(ps[1..])|
  {
    DurationSpelling.FirstOf(ps);
    var first, tail := DurationSpelling.PartText(ps[0]), DurationSpelling.Text(ps[1..]);
    b, k := i + |ps[0].whole| + |PointText(ps[0])|, i + |first|;
    hide *;
    assert first + tail + rest == first + (tail + rest);
  }

  /** The first part of a duration, where the lexer looks for its unit. */
  lemma {:induction false} HeadCut(s: string, start: nat, p: DurationSpelling.Part, more: string)
    requires From(s, start, DurationSpelling.PartText(p) + more) && DurationSpelling.Proper(p)
    ensures var i := start + |p.whole|;
            var j := i + |PointText(p)|;
            && start < |s| && IsDigit(s[start]) && i <= j <= |s| && DigitsEnd(s, start) == i
            && FractionEnd(s, i) == j && At(s, i) != '-'
  {
    PartFrom(s, start, p, more);
    PartJoined(p);
    var name := DurationSpelling.NameOf(p.unit);
    NameMarks(p.unit, more);
    PointFormedOf(p, name + more);
    hide DurationSpelling.NameOf, DurationSpelling.PartText, AllDigits, At, IsDigit, From;
    WholeRun(s, start, p.whole, PointText(p) + (name + more));
    PointRun(s, start + |p.whole|, p, name + more);
  }

  lemma {:induction false} WholeRun(s: string, i: nat, w: string, r: string)
    requires From(s, i, w + r) && w != "" && AllDigits(w) && !IsDigit(At(r, 0))
    ensures i + |w| <= |s| && IsDigit(s[i]) && DigitsEnd(s, i) == i + |w|
  {
    FromNext(s, i, w, r);
    assert s[i] == s[i + 0];
    forall k | i <= k < i + |w| ensures IsDigit(s[k]) {
      assert s[i + (k - i)] == w[k - i];
    }
    DigitsRun(s, i, i + |w|);
  }

  lemma {:induction false} PointRun(s: string, i: nat, p: DurationSpelling.Part, r: string)
    requires From(s, i, PointText(p) + r) && AllDigits(p.fraction) && !IsDigit(At(r, 0)) && At(r, 0) != '.'
    ensures i + |PointText(p)| <= |s| && FractionEnd(s, i) == i + |PointText(p)|
  {
    FromNext(s, i, PointText(p), r);
    PointFormedOf(p, r);
    hide PointText, At, IsDigit, AllDigits;
    FractionCut(s, i, PointText(p), r);
  }

  lemma {:induction false} PointFormedOf(p: DurationSpelling.Part, r: string)
    requires AllDigits(p.fraction) && !IsDigit(At(r, 0)) && At(r, 0) != '.'
    ensures var f := PointText(p);
            && (f != "" ==> |f| > 1 && f[0] == '.' && AllDigits(f[1..]))
            && !IsDigit(At(f + r, 0)) && (At(r, 0) != '-' ==> At(f + r, 0) != '-')
  {
    if p.fraction != "" {
      assert PointText(p)[1..] == p.fraction;
      assert (PointText(p) + r)[0] == '.';
    } else {
      assert PointText(p) + r == r;
    }
  }

  lemma {:induction false} NameMarks(u: DurationSpelling.UnitName, more: string)
    ensures var r := DurationSpelling.NameOf(u) + more;
            r != "" && !IsDigit(r[0]) && r[0] != '.' && r[0] != '-'
  {}

  lemma {:induction false} DurationCut(s: string, start: nat, i: nat, j: nat, e: nat)
    requires start < |s| && (start == 0 || (start == 1 && s[0] == '-')) && IsDigit(s[start])
    requires DigitsEnd(s, start) == i <= |s| && FractionEnd(s, i) == j < |s| && DurationUnit(s, j) && At(s, i) != '-'
    requires DurationEnd(s, j) == e <= |s| && Durations.Valid(s[..e])
    ensures LexNumber(s) == Lexed(Plain(DurationLit, s[..e]), s[e..])
  {
    hide LexNumber;
    FromDigits(s);
    hide DigitsEnd, FractionEnd, DurationUnit, DurationEnd, Durations.Valid, LexTimestamp, NumberToken;
  }

  /** A duration literal that stands is taken off the front. */
  lemma {:induction false} DurationTaken(text: string, rest: string)
    requires DurationLexeme(text, rest)
    ensures text[0] == '-' || IsDigit(text[0])
    ensures LexNumber(text + rest) == Lexed(Plain(DurationLit, text), rest)
  {
    DurationSpelling.OnlySpelled(text);
    var sign: DurationSpelling.Sign, ps :|
      DurationSpelling.AllProper(ps) && ps != [] && text == DurationSpelling.SignText(sign) + DurationSpelling.Text(ps);
    SpelledTaken(sign, ps, rest);
  }

  lemma {:induction false} SpelledTaken(sign: DurationSpelling.Sign, ps: seq<DurationSpelling.Part>, rest: string)
    requires DurationSpelling.AllProper(ps) && ps != [] && !Continues(rest)
    requires var text := DurationSpelling.SignText(sign) + DurationSpelling.Text(ps);
             Durations.Valid(text) && text != "" && text[0] != '+'
    ensures var text := DurationSpelling.SignText(sign) + DurationSpelling.Text(ps);
            (text[0] == '-' || IsDigit(text[0])) && LexNumber(text + rest) == Lexed(Plain(DurationLit, text), rest)
  {
    var mark, body := DurationSpelling.SignText(sign), DurationSpelling.Text(ps);
    var text := mark + body;
    var s, start := text + rest, |mark|;
    assert mark == "" || mark == "-";
    Positioned(mark, body, rest);
    assert From(s, start, body + rest);
    hide *;
    var i, j := HeadEnds(s, start, |text|, ps, rest);
    DurationCut(s, start, i, j, |text|);
  }

  lemma {:induction false} HeadEnds(s: string, start: nat, e: nat, ps: seq<DurationSpelling.Part>, rest: string)
    returns (i: nat, j: nat)
    requires ps != [] && From(s, start, DurationSpelling.Text(ps) + rest) && DurationSpelling.AllProper(ps) && !Continues(rest)
    requires e == start + |DurationSpelling.Text(ps)|
    ensures start < |s| && IsDigit(s[start]) && i <= |s| && DigitsEnd(s, start) == i && FractionEnd(s, i) == j && At(s, i) != '-'
    ensures j < |s| && DurationUnit(s, j) && e <= |s| && DurationEnd(s, j) == e
  {
    var k;
    j, k := FirstParted(s, start, e, ps, rest);
    i := start + |ps[0].whole|;
    var more := DurationSpelling.Text(ps[1..]) + rest;
    hide *;
    HeadCut(s, start, ps[0], more);
    RunPart(s, start, j, k, ps[0], more);
    RunParts(s, k, e, ps[1..], rest);
  }

  lemma {:induction false} Positioned(mark: string, body: string, rest: string)
    ensures var text := mark + body;
            var s := text + rest;
            && s[|mark|..] == body + rest && s[..|text|] == text && s[|text|..] == rest
            && (mark != "" ==> s[0] == mark[0]) && (text != "" ==> s[0] == text[0])
  {}

  /** What the lexer takes for a duration is one that stands. */
  lemma {:induction false} DurationTakes(s: string)
    requires s != "" && (IsDigit(s[0]) || s[0] == '-' || s[0] == '+') && LexNumber(s).token.kind == DurationLit
    ensures var l := LexNumber(s);
            s == l.token.value + l.rest && l.token == Plain(DurationLit, l.token.value) && DurationLexeme(l.token.value, l.rest)
  {
    hide LexNumber, DurationEnd, Durations.Valid, Continues;
    var j := DurationFrom(s);
    RunStops(s, j);
    var e := DurationEnd(s, j);
    assert LexNumber(s) == Lexed(Plain(DurationLit, s[..e]), s[e..]) && Durations.Valid(s[..e]);
    hide LexNumber, DurationEnd, Durations.Valid, Continues, LexDuration;
    ValidNotEmpty(s[..e]);
    assert s[..e][0] == s[0];
  }

  lemma {:induction false} DurationFrom(s: string) returns (j: nat)
    requires s != "" && (IsDigit(s[0]) || s[0] == '-' || s[0] == '+') && LexNumber(s).token.kind == DurationLit
    ensures 0 < j <= |s| && LexNumber(s) == LexDuration(s, j) && s[0] != '+'
  {
    assert s[0] != '+';
    var start := if IsDigit(s[0]) then 0 else 1;
    assert start < |s| && IsDigit(s[start]) && LexNumber(s) == LexMagnitude(s, start);
    hide LexNumber;
    j := FractionEnd(s, DigitsEnd(s, start));
    TimestampKind(s, DigitsEnd(s, start));
    hide DigitsEnd, FractionEnd, DurationUnit, LexTimestamp, NumberToken, LexDuration;
  }

  lemma {:induction false} TimestampKind(s: string, i: nat)
    requires i <= |s|
    ensures 0 < i ==> LexTimestamp(s, i).token.kind in {TimestampLit, Illegal}
  {}

  lemma {:induction false} ValidNotEmpty(text: string)
    requires Durations.Valid(text)
    ensures text != ""
  {}

  // Timestamps.

  /** A date-time, which nothing but a separator follows. */
  predicate TimestampLexeme(text: string, rest: string) {
    Timestamps.Valid(text) && (rest == "" || TimestampStop(rest, 0))
  }

  predicate Plainly(c: char) {
    c !in {' ', '\n', '\t', '\r', ',', ']', '}', '#', '/'}
  }

  predicate AllPlain(s: string) {
    forall k :: 0 <= k < |s| ==> Plainly(s[k])
  }

  lemma {:induction false} PlainJoin(a: string, b: string)
    ensures AllPlain(a + b) <==> AllPlain(a) && AllPlain(b)
  {
    var s := a + b;
    if AllPlain(s) {
      assert forall k :: 0 <= k < |a| ==> a[k] == s[k];
      assert forall k :: 0 <= k < |b| ==> b[k] == s[|a| + k];
    }
  }

  lemma {:induction false} DigitsPlain(s: string)
    requires AllDigits(s)
    ensures AllPlain(s)
  {}

  lemma {:induction false} ZonePlain(sp: TimestampSpelling.Spelling)
    requires TimestampSpelling.Proper(sp)
    ensures AllPlain(TimestampSpelling.TailText(sp))
  {
    assert AllDigits(sp.fraction) && (!sp.zone.Utc? ==> AllDigits(sp.zone.hours) && AllDigits(sp.zone.minutes));
    var mark := if sp.zone.Ahead? then "+" else "-";
    DigitsPlain(sp.fraction);
    PlainJoin(".", sp.fraction);
    if !sp.zone.Utc? {
      DigitsPlain(sp.zone.hours);
      DigitsPlain(sp.zone.minutes);
      PlainJoin(":", sp.zone.minutes);
      PlainJoin(sp.zone.hours, ":" + sp.zone.minutes);
      PlainJoin(mark, sp.zone.hours + (":" + sp.zone.minutes));
    }
    PlainJoin(if sp.fraction == "" then "" else "." + sp.fraction, TimestampSpelling.ZoneText(sp.zone));
    assert AllPlain(".") && AllPlain(":") && AllPlain("+") && AllPlain("-") && AllPlain("z") && AllPlain("Z") && AllPlain("");
    hide AllDigits;
  }

  lemma {:induction false} TextPlain(sp: TimestampSpelling.Spelling)
    requires TimestampSpelling.Proper(sp)
    ensures AllPlain(TimestampSpelling.Text(sp))
  {
    ZonePlain(sp);
    assert AllDigits(sp.year) && AllDigits(sp.month) && AllDigits(sp.day);
    assert AllDigits(sp.hour) && AllDigits(sp.minute) && AllDigits(sp.second);
    hide AllDigits, TimestampSpelling.TailText;
    DigitsPlain(sp.year);
    DigitsPlain(sp.month);
    DigitsPlain(sp.day);
    DigitsPlain(sp.hour);
    DigitsPlain(sp.minute);
    DigitsPlain(sp.second);
    var t := if sp.lower then "t" else "T";
    assert AllPlain("-") && AllPlain(":") && AllPlain(t);
    var r := TimestampSpelling.TailText(sp);
    PlainThree(":", sp.second, r);
    var r1 := ":" + (sp.second + r);
    PlainThree(":", sp.minute, r1);
    var r2 := ":" + (sp.minute + r1);
    PlainThree(t, sp.hour, r2);
    var r3 := t + (sp.hour + r2);
    PlainThree("-", sp.day, r3);
    var r4 := "-" + (sp.day + r3);
    PlainThree("-", sp.month, r4);
    PlainJoin(sp.year, "-" + (sp.month + r4));
    hide AllPlain;
  }

  lemma {:induction false} PlainThree(a: string, b: string, c: string)
    requires AllPlain(a) && AllPlain(b) && AllPlain(c)
    ensures AllPlain(a + (b + c))
  {
    PlainJoin(b, c);
    PlainJoin(a, b + c);
  }

  lemma {:induction false} StopIs(s: string, i: nat, e: nat)
    requires i <= e <= |s| && (forall k :: i <= k < e ==> Plainly(s[k])) && (e < |s| ==> TimestampStop(s, e))
    ensures TimestampEnd(s, i) == e
    decreases e - i
  {
    if i < e {
      assert !TimestampStop(s, i);
      StopIs(s, i + 1, e);
    }
  }

  lemma {:induction false} StopStops(s: string, i: nat)
    requires i <= |s|
    ensures var e := TimestampEnd(s, i);
            e < |s| ==> TimestampStop(s, e)
    decreases |s| - i
  {
    if i < |s| && !TimestampStop(s, i) {
      StopStops(s, i + 1);
    }
  }

  lemma {:induction false} StopFrom(s: string, i: nat)
    requires i <= |s|
    ensures TimestampStop(s, i) <==> TimestampStop(s[i..], 0)
  {
    AtFrom(s, i, 0);
    AtFrom(s, i, 1);
  }

  /** A date-time that stands is taken off the front. */
  lemma {:induction false} TimestampTaken(text: string, rest: string)
    requires TimestampLexeme(text, rest)
    ensures text != "" && IsDigit(text[0])
    ensures LexNumber(text + rest) == Lexed(Plain(TimestampLit, text), rest)
  {
    DatePlain(text);
    hide Timestamps.Valid, TimestampStop;
    StampEnds(text, rest);
    assert (text + rest)[..|text|] == text && (text + rest)[|text|..] == rest;
    assert (text + rest)[0] == text[0] && (text + rest)[4] == text[4];
    hide TimestampEnd, DigitsEnd, LexNumber;
    DatedCut(text + rest, |text|);
  }

  lemma {:induction false} DatePlain(text: string)
    requires Timestamps.Valid(text)
    ensures |text| >= 5 && text[4] == '-' && AllPlain(text) && forall k :: 0 <= k < 4 ==> IsDigit(text[k])
  {
    TimestampSpelling.OnlySpelled(text);
    var sp :| TimestampSpelling.Proper(sp) && text == TimestampSpelling.Text(sp);
    hide TimestampSpelling.Proper, TimestampSpelling.Text, AllPlain;
    TextPlain(sp);
    YearFirst(sp);
  }

  lemma {:induction false} StampEnds(text: string, rest: string)
    requires |text| >= 5 && text[4] == '-' && AllPlain(text) && (forall k :: 0 <= k < 4 ==> IsDigit(text[k]))
    requires rest == "" || TimestampStop(rest, 0)
    ensures TimestampEnd(text + rest, 4) == |text| && DigitsEnd(text + rest, 0) == 4
  {
    var s, e := text + rest, |text|;
    assert s[e..] == rest;
    assert forall k :: 0 <= k < e ==> s[k] == text[k];
    StopFrom(s, e);
    hide TimestampStop;
    StopIs(s, 4, e);
    DigitsRun(s, 0, 4);
  }

  lemma {:induction false} YearFirst(sp: TimestampSpelling.Spelling)
    requires TimestampSpelling.Proper(sp)
    ensures var s := TimestampSpelling.Text(sp);
            |s| >= 5 && s[4] == '-' && forall k :: 0 <= k < 4 ==> IsDigit(s[k])
  {
    var s := TimestampSpelling.Text(sp);
    var year := sp.year;
    assert |year| == 4 && AllDigits(year);
    assert s[..4] == year && s[4] == '-';
    assert forall k :: 0 <= k < 4 ==> s[k] == year[k];
  }

  lemma {:induction false} DatedCut(s: string, e: nat)
    requires |s| >= 5 && IsDigit(s[0]) && DigitsEnd(s, 0) == 4 && s[4] == '-' && TimestampEnd(s, 4) == e && Timestamps.Valid(s[..e])
    ensures LexNumber(s) == Lexed(Plain(TimestampLit, s[..e]), s[e..])
  {
    hide DigitsEnd, TimestampEnd, Timestamps.Valid;
  }

  lemma {:induction false} DurationKind(s: string, i: nat)
    requires i <= |s|
    ensures 0 < i ==> LexDuration(s, i).token.kind in {DurationLit, Illegal}
  {}

  /** What the lexer takes for a timestamp is one that stands. */
  lemma {:induction false} TimestampTakes(s: string)
    requires s != "" && (IsDigit(s[0]) || s[0] == '-' || s[0] == '+') && LexNumber(s).token.kind == TimestampLit
    ensures var l := LexNumber(s);
            s == l.token.value + l.rest && l.token == Plain(TimestampLit, l.token.value) && TimestampLexeme(l.token.value, l.rest)
  {
    hide LexNumber, Timestamps.Valid, TimestampStop, TimestampEnd;
    var i := TimestampFrom(s);
    StopStops(s, i);
    StopFrom(s, TimestampEnd(s, i));
  }

  lemma {:induction false} TimestampFrom(s: string) returns (i: nat)
    requires s != "" && (IsDigit(s[0]) || s[0] == '-' || s[0] == '+') && LexNumber(s).token.kind == TimestampLit
    ensures 0 < i <= |s| && LexNumber(s) == LexTimestamp(s, i)
  {
    var start := if IsDigit(s[0]) then 0 else 1;
    assert start < |s| && IsDigit(s[start]) && LexNumber(s) == LexMagnitude(s, start);
    hide LexNumber;
    i := DigitsEnd(s, start);
    DurationKind(s, FractionEnd(s, i));
    hide DigitsEnd, FractionEnd, DurationUnit, LexTimestamp, NumberToken, LexDuration;
  }
}
