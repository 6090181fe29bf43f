/** The duration and timestamp readers as they run. */
module TimeCode {
  import opened Options
  import opened Powers
  import opened Decimals
  import opened Calendar
  import Durations
  import Timestamps

  /** The loop over a run of digits. */
  method SkipDigits(s: string, from: nat) returns (i: nat)
    requires from <= |s|
    ensures i == from + Durations.LeadDigits(s[from..]) && i <= |s|
  {
    i := from;
    while i < |s| && IsDigit(s[i])
      invariant i <= |s| && i + Durations.LeadDigits(s[i..]) == from + Durations.LeadDigits(s[from..])
    {
      assert s[i..][1..] == s[i + 1..];
      i := i + 1;
    }
  }

  /** parse_int_n */
  method ParseDigits(s: string) returns (r: Option<nat>)
    ensures r == Timestamps.Number(s)
  {
    var n: nat := 0;
    var i := 0;
    while i < |s|
      invariant i <= |s| && AllDigits(s[..i]) && n == DecVal(s[..i])
    {
      if !IsDigit(s[i]) {
        return None;
      }
      assert s[..i + 1][..i] == s[..i];
      n := n * 10 + Digit(s[i]);
      i := i + 1;
    }
    assert s[..|s|] == s;
    r := Some(n);
  }

  /** One group of a duration, from i on: its parts and where its unit starts. */
  method ReadGroupAt(s: string, i: nat) returns (r: Option<Durations.Group>, at: nat)
    requires i < |s|
    ensures r == Durations.GroupAt(s[i..])
    ensures r.Some? ==> at <= |s| && r.value.rest == s[at..]
  {
    hide Durations.LeadDigits;
    var end := SkipDigits(s, i);
    if end == i {
      return None, 0;
    }
    assert s[i..][end - i..] == s[end..] && s[i..][..end - i] == s[i..end];
    if end < |s| && s[end] == '.' {
      var last := SkipDigits(s, end + 1);
      if last == end + 1 {
        return None, 0;
      }
      assert s[end..][1..] == s[end + 1..];
      assert s[end + 1..][..last - end - 1] == s[end + 1..last] && s[end + 1..][last - end - 1..] == s[last..];
      return Some(Durations.Group(s[i..end], s[end + 1..last], s[last..])), last;
    }
    r, at := Some(Durations.Group(s[i..end], [], s[end..])), end;
  }

  lemma ReadStep(s: string, total: nat)
    requires s != []
    ensures Durations.ReadGroups(s, total)
         == match Durations.GroupAt(s)
            case None => None
            case Some(g) =>
              match Durations.UnitAt(g.rest)
              case None => None
              case Some(u) =>
                match Durations.AddGroup(total, DecVal(g.whole), DecVal(g.fraction), |g.fraction|, u.nanos)
                case None => None
                case Some(t) => Durations.ReadGroups(g.rest[u.length..], t)
  {
    hide Durations.GroupAt, Durations.UnitAt, Durations.AddGroup, DecVal;
  }

  /** parse_go_duration: group after group, each step checked against the range. */
  method ParseGoDuration(s: string) returns (r: Option<Durations.Duration>)
    ensures r == Durations.Parse(s)
  {
    hide Durations.Normalized, Durations.ReadGroups;
    if s == "0" {
      return Some(Durations.Duration(0, 0));
    }
    var signed := s != [] && (s[0] == '-' || s[0] == '+');
    assert s[0..] == s;
    var total := SumGroups(s, if signed then 1 else 0);
    if total.None? {
      return None;
    }
    var count: int := if signed && s[0] == '-' then -(total.value as int) else total.value;
    if count >= Durations.MAX_ABS {
      return None;
    }
    r := Some(Durations.Normalized(count));
  }

  /** Its loop. */
  method SumGroups(s: string, from: nat) returns (r: Option<nat>)
    requires from <= |s|
    ensures r == Durations.ReadGroups(s[from..], 0)
  {
    hide Durations.GroupAt, Durations.UnitAt, Durations.AddGroup, Durations.ReadGroups, DecVal;
    var i, total: nat := from, 0;
    while i < |s|
      invariant i <= |s| && Durations.ReadGroups(s[from..], 0) == Durations.ReadGroups(s[i..], total)
      decreases |s| - i
    {
      var group, at := ReadGroupAt(s, i);
      ReadStep(s[i..], total);
      if group.None? {
        return None;
      }
      var g := group.value;
      var unit := Durations.UnitAt(g.rest);
      if unit.None? {
        return None;
      }
      var next := Durations.AddGroup(total, DecVal(g.whole), DecVal(g.fraction), |g.fraction|, unit.value.nanos);
      if next.None? {
        return None;
      }
      assert g.rest[unit.value.length..] == s[at + unit.value.length..];
      total := next.value;
      i := at + unit.value.length;
    }
    Durations.NoGroups(total);
    assert s[i..] == [];
    r := Some(total);
  }

  /** is_valid_go_duration */
  method IsValidGoDuration(s: string) returns (ok: bool)
    ensures ok <==> Durations.Valid(s)
  {
    hide Durations.GroupAt, Durations.UnitAt;
    var i := if s != [] && (s[0] == '-' || s[0] == '+') then 1 else 0;
    if i >= |s| {
      return false;
    }
    while i < |s|
      invariant i <= |s| && (i < |s| ==> (Durations.Valid(s) <==> Durations.ValidGroups(s[i..])))
      invariant i == |s| ==> Durations.Valid(s)
      decreases |s| - i
    {
      var group, at := ReadGroupAt(s, i);
      if group.None? {
        return false;
      }
      var unit := Durations.UnitAt(group.value.rest);
      if unit.None? {
        return false;
      }
      assert group.value.rest[unit.value.length..] == s[at + unit.value.length..];
      i := at + unit.value.length;
    }
    ok := true;
  }

  /** The fraction's nine digits: cut off, or padded with zeros. */
  method FractionNanos(fraction: string) returns (nanos: nat)
    requires AllDigits(fraction)
    ensures nanos == Timestamps.NanosOf(fraction)
  {
    var digits := fraction;
    if |digits| > 9 {
      digits := digits[..9];
    }
    ghost var taken := digits;
    assert Pow(10, 0) == 1;
    while |digits| < 9
      invariant |taken| <= |digits| <= 9 && AllDigits(digits)
      invariant DecVal(digits) == DecVal(taken) * Pow(10, |digits| - |taken|)
      decreases 9 - |digits|
    {
      SnocVal(digits, 0);
      assert [DigitChar(0)] == ['0'];
      Assoc(10, DecVal(taken), Pow(10, |digits| - |taken|));
      Assoc(DecVal(taken), 10, Pow(10, |digits| - |taken|));
      digits := digits + ['0'];
    }
    if |fraction| == 9 {
      assert fraction[..9] == fraction;
    }
    nanos := DecVal(digits);
  }

  /** parse_rfc3339 */
  method ParseRfc3339(s: string) returns (r: Option<Timestamps.Timestamp>)
    ensures r == Timestamps.Parse(s)
  {
    if |s| < 20 {
      return None;
    }
    hide Timestamps.Number, Timestamps.NanosOf, DaysFromCivil;
    var year := ParseDigits(s[0..4]);
    var month := ParseDigits(s[5..7]);
    var day := ParseDigits(s[8..10]);
    var hour := ParseDigits(s[11..13]);
    var minute := ParseDigits(s[14..16]);
    var second := ParseDigits(s[17..19]);
    if year.None? || month.None? || day.None? || hour.None? || minute.None? || second.None? {
      return None;
    }
    var i, nanos := ReadFraction(s);
    var offset := ReadOffset(s, i);
    if offset.None? {
      return None;
    }
    hide Timestamps.TailOf, Timestamps.Offset;
    var days := DaysFromCivil(Date(year.value, month.value, day.value));
    var seconds := days * 86400 + hour.value * 3600 + minute.value * 60 + second.value - offset.value;
    r := Some(Timestamps.Timestamp(seconds, nanos));
  }

  method ReadFraction(s: string) returns (i: nat, nanos: nat)
    requires |s| >= 20
    ensures 19 <= i <= |s|
    ensures Timestamps.TailOf(s[19..]).zone == s[i..] && nanos == Timestamps.NanosOf(Timestamps.TailOf(s[19..]).fraction)
  {
    hide Durations.LeadDigits, Timestamps.NanosOf;
    i, nanos := 19, 0;
    if s[i] == '.' {
      i := SkipDigits(s, 20);
      assert s[19..][1..] == s[20..] && s[20..][..i - 20] == s[20..i] && s[20..][i - 20..] == s[i..];
      nanos := FractionNanos(s[20..i]);
    } else {
      NoFraction();
    }
  }

  method ReadOffset(s: string, i: nat) returns (r: Option<int>)
    requires i <= |s|
    ensures r == Timestamps.Offset(s[i..])
  {
    hide Timestamps.Number;
    if i >= |s| {
      return None;
    }
    if s[i] == 'Z' || s[i] == 'z' {
      return Some(0);
    }
    if (s[i] != '+' && s[i] != '-') || |s| < i + 6 {
      return None;
    }
    assert s[i..][1..3] == s[i + 1..i + 3] && s[i..][4..6] == s[i + 4..i + 6];
    var hours := ParseDigits(s[i + 1..i + 3]);
    var minutes := ParseDigits(s[i + 4..i + 6]);
    if hours.None? || minutes.None? {
      return None;
    }
    var seconds := hours.value * 3600 + minutes.value * 60;
    r := Some(if s[i] == '-' then -(seconds as int) else seconds);
  }

  lemma NoFraction()
    ensures Timestamps.NanosOf([]) == 0
  {
    assert DecVal([]) == 0;
  }
}
