/** Timestamp literals: what format_rfc3339_nano prints is an RFC 3339 date-time
    (section 5.6), and reads back. A text is its bytes, a character each. */
module Timestamps {
  import opened Options
  import opened Powers
  import opened Decimals
  import opened Calendar
  import BigFloats
  import Durations

  datatype Timestamp = Timestamp(seconds: int, nanos: int)

  const DAY: nat := 86400

  // Reading.

  /** parse_int_n */
  function Number(s: string): Option<nat> {
    if AllDigits(s) then Some(DecVal(s)) else None
  }

  /** The six numbers before the fraction and the zone. */
  datatype Clock = Clock(date: Date, hour: nat, minute: nat, second: nat)

  function ClockOf(s: string): Option<Clock>
    requires |s| >= 19
  {
    var year, month, day := Number(s[0..4]), Number(s[5..7]), Number(s[8..10]);
    var hour, minute, second := Number(s[11..13]), Number(s[14..16]), Number(s[17..19]);
    if year.None? || month.None? || day.None? || hour.None? || minute.None? || second.None? then None
    else Some(Clock(Date(year.value, month.value, day.value), hour.value, minute.value, second.value))
  }

  /** The fraction's digits and what follows. */
  datatype Tail = Tail(fraction: string, zone: string)

  function TailOf(s: string): (t: Tail)
    ensures AllDigits(t.fraction)
  {
    if s != [] && s[0] == '.' then
      var n := Durations.LeadDigits(s[1..]);
      Tail(s[1..][..n], s[1..][n..])
    else Tail([], s)
  }

  /** Nine places, more cut off. */
  function NanosOf(fraction: string): nat
    requires AllDigits(fraction)
  {
    if |fraction| >= 9 then DecVal(fraction[..9]) else DecVal(fraction) * Pow(10, 9 - |fraction|)
  }

  /** The offset of a zone in seconds. */
  function Offset(zone: string): Option<int> {
    if zone == [] then None
    else if zone[0] == 'Z' || zone[0] == 'z' then Some(0)
    else if (zone[0] == '+' || zone[0] == '-') && |zone| >= 6 then
      var h, m := Number(zone[1..3]), Number(zone[4..6]);
      if h.None? || m.None? then None
      else
        var seconds := h.value * 3600 + m.value * 60;
        Some(if zone[0] == '-' then -(seconds as int) else seconds)
    else None
  }

  /** parse_rfc3339 */
  function Parse(s: string): Option<Timestamp> {
    if |s| < 20 || ClockOf(s).None? then None
    else
      var c, tail := ClockOf(s).value, TailOf(s[19..]);
      match Offset(tail.zone)
      case None => None
      case Some(offset) =>
        Some(Timestamp(DaysFromCivil(c.date) * DAY + c.hour * 3600 + c.minute * 60 + c.second - offset, NanosOf(tail.fraction)))
  }

  /** is_valid_rfc3339 */
  predicate Valid(s: string) {
    && |s| >= 20
    && ClockOf(s).Some? && s[4] == '-' && s[7] == '-' && (s[10] == 'T' || s[10] == 't') && s[13] == ':' && s[16] == ':'
    && var c, tail := ClockOf(s).value, TailOf(s[19..]);
       && ValidDate(c.date) && c.hour <= 23 && c.minute <= 59 && c.second <= 60
       && (s[19] == '.' ==> tail.fraction != [])
       && ValidZone(tail.zone)
  }

  predicate ValidZone(zone: string) {
    zone != [] &&
    if zone[0] == 'Z' || zone[0] == 'z' then |zone| == 1
    else
      && (zone[0] == '+' || zone[0] == '-') && |zone| == 6 && zone[3] == ':'
      && AllDigits(zone[1..3]) && AllDigits(zone[4..6]) && DecVal(zone[1..3]) <= 23 && DecVal(zone[4..6]) <= 59
  }

  // Printing.

  /** At least w digits, zeros first. */
  function AtLeast(n: nat, w: nat): string
    requires w > 0
  {
    if n < Pow(10, w) then Padded(n, w) else ToDec(n)
  }

  /** A sign takes one of the four places. */
  function YearText(y: int): string {
    if y >= 0 then AtLeast(y, 4) else "-" + AtLeast(-y, 3)
  }

  /** The date and time, before the rest of the text. */
  function DateText(c: Clock, rest: string): string
    requires 0 <= c.date.month && 0 <= c.date.day
  {
    YearText(c.date.year) + ("-" + (AtLeast(c.date.month, 2) + ("-" + (AtLeast(c.date.day, 2) + ("T"
      + (AtLeast(c.hour, 2) + (":" + (AtLeast(c.minute, 2) + (":" + (AtLeast(c.second, 2) + rest))))))))))
  }

  function NanosText(nanos: int): string {
    var abs := if nanos < 0 then -nanos else nanos;
    if nanos == 0 then "Z" else "." + (BigFloats.TrimZeros(AtLeast(abs, 9)) + "Z")
  }

  /** The clock of a count of seconds. */
  function ClockAt(seconds: int): (c: Clock)
    ensures ValidDate(c.date) && c.hour <= 23 && c.minute <= 59 && c.second <= 59
  {
    DaysBack(seconds / DAY);
    var within := seconds % DAY;
    Clock(CivilFromDays(seconds / DAY), within / 3600, within % 3600 / 60, within % 60)
  }

  /** format_rfc3339_nano */
  function Format(t: Timestamp): string {
    DateText(ClockAt(t.seconds), NanosText(t.nanos))
  }

  // Reading the date.

  lemma NumberBack(n: nat, w: nat)
    requires w > 0 && n < Pow(10, w)
    ensures |AtLeast(n, w)| == w && Number(AtLeast(n, w)) == Some(n)
  {}

  lemma SmallPowers()
    ensures Pow(10, 2) == 100 && Pow(10, 4) == 10000 && Pow(10, 9) == 1_000_000_000
  {
    PowAdd(10, 4, 4);
    PowAdd(10, 8, 1);
  }

  /** The nineteen characters of a date and time, cut into their fields. */
  lemma Cut(y: string, mo: string, d: string, h: string, mi: string, s: string, rest: string)
    requires |y| == 4 && |mo| == |d| && |d| == |h| && |h| == |mi| && |mi| == |s| && |s| == 2
    ensures var all := y + ("-" + (mo + ("-" + (d + ("T" + (h + (":" + (mi + (":" + (s + rest))))))))));
            && |all| == 19 + |rest| && all[19..] == rest
            && all[0..4] == y && all[5..7] == mo && all[8..10] == d && all[11..13] == h && all[14..16] == mi && all[17..19] == s
            && all[4] == '-' && all[7] == '-' && all[10] == 'T' && all[13] == ':' && all[16] == ':'
  {
    var time := "T" + (h + (":" + (mi + (":" + (s + rest)))));
    var all := y + ("-" + (mo + ("-" + (d + time))));
    CutDate(y, mo, d, time);
    assert time == "T" + (h + (":" + (mi + (":" + (s + rest)))));
    CutTime(all, h, mi, s, rest);
  }

  lemma CutDate(y: string, mo: string, d: string, rest: string)
    requires |y| == 4 && |mo| == |d| && |d| == 2
    ensures var all := y + ("-" + (mo + ("-" + (d + rest))));
            && |all| == 10 + |rest| && all[10..] == rest
            && all[0..4] == y && all[5..7] == mo && all[8..10] == d && all[4] == '-' && all[7] == '-'
  {
    var r2 := "-" + (d + rest);
    var r1 := "-" + (mo + r2);
    var all := y + r1;
    Piece(all, 0, y, r1);
    Piece(all, 4, "-", mo + r2);
    Piece(all, 5, mo, r2);
    Piece(all, 7, "-", d + rest);
    Piece(all, 8, d, rest);
  }

  lemma CutTime(all: string, h: string, mi: string, s: string, rest: string)
    requires |h| == |mi| && |mi| == |s| && |s| == 2
    requires |all| >= 10 && all[10..] == "T" + (h + (":" + (mi + (":" + (s + rest)))))
    ensures |all| == 19 + |rest| && all[19..] == rest
    ensures all[11..13] == h && all[14..16] == mi && all[17..19] == s
    ensures all[10] == 'T' && all[13] == ':' && all[16] == ':'
  {
    var r5 := ":" + (s + rest);
    var r4 := ":" + (mi + r5);
    Piece(all, 10, "T", h + r4);
    Piece(all, 11, h, r4);
    Piece(all, 13, ":", mi + r5);
    Piece(all, 14, mi, r5);
    Piece(all, 16, ":", s + rest);
    Piece(all, 17, s, rest);
  }

  lemma Piece(all: string, at: nat, f: string, rest: string)
    requires at <= |all| && all[at..] == f + rest
    ensures at + |f| <= |all| && all[at..at + |f|] == f && all[at + |f|..] == rest
    ensures f != [] ==> all[at] == f[0]
  {
    assert |all[at..]| == |f| + |rest|;
    assert all[at..at + |f|] == all[at..][..|f|];
    assert all[at + |f|..] == all[at..][|f|..];
    assert f != [] ==> all[at] == all[at..][0];
  }

  lemma ClockBack(c: Clock, rest: string)
    requires ValidDate(c.date) && c.hour <= 23 && c.minute <= 59 && c.second <= 59 && 0 <= c.date.year <= 9999
    ensures var s := DateText(c, rest);
            && |s| == 19 + |rest| && s[19..] == rest && ClockOf(s) == Some(c)
            && s[4] == '-' && s[7] == '-' && s[10] == 'T' && s[13] == ':' && s[16] == ':'
  {
    SmallPowers();
    NumberBack(c.date.year, 4);
    NumberBack(c.date.month, 2);
    NumberBack(c.date.day, 2);
    NumberBack(c.hour, 2);
    NumberBack(c.minute, 2);
    NumberBack(c.second, 2);
    hide AtLeast, Number, Pow;
    Cut(AtLeast(c.date.year, 4), AtLeast(c.date.month, 2), AtLeast(c.date.day, 2),
        AtLeast(c.hour, 2), AtLeast(c.minute, 2), AtLeast(c.second, 2), rest);
  }

  lemma SecondsBack(seconds: int)
    ensures var c := ClockAt(seconds);
            DaysFromCivil(c.date) * DAY + c.hour * 3600 + c.minute * 60 + c.second == seconds
  {
    hide CivilFromDays, DaysFromCivil, ValidDate;
    DaysBack(seconds / DAY);
    OfDay(seconds % DAY);
    assert seconds == seconds / DAY * DAY + seconds % DAY;
  }

  lemma OfDay(within: nat)
    ensures within / 3600 * 3600 + within % 3600 / 60 * 60 + within % 60 == within
  {
    assert within % 60 == within % 3600 % 60 by {
      DivModUnique(within, 60, within / 3600 * 60 + within % 3600 / 60, within % 3600 % 60);
    }
  }

  // Reading the nanoseconds.

  /** What is read of a printed fraction: for nine digits at most, the value. */
  function NanosBack(nanos: int): nat {
    var abs: nat := if nanos < 0 then -nanos else nanos;
    if abs < 1_000_000_000 then abs else NanosOf(BigFloats.TrimZeros(ToDec(abs)))
  }

  lemma {:induction false} TrimDigits(s: string)
    ensures AllDigits(s) ==> AllDigits(BigFloats.TrimZeros(s))
    decreases |s|
  {
    if s != [] && s[|s| - 1] == '0' {
      TrimDigits(s[..|s| - 1]);
    }
  }

  lemma FractionRead(fraction: string)
    requires AllDigits(fraction)
    ensures TailOf("." + (fraction + "Z")) == Tail(fraction, "Z")
  {
    var s := "." + (fraction + "Z");
    assert s[1..] == fraction + "Z";
    Durations.LeadDigitsOf(fraction, "Z");
  }

  lemma NanosRead(nanos: int)
    ensures var tail := TailOf(NanosText(nanos));
            tail.zone == "Z" && NanosOf(tail.fraction) == NanosBack(nanos) && (nanos != 0 ==> tail.fraction != [])
  {
    var abs: nat := if nanos < 0 then -nanos else nanos;
    SmallPowers();
    if nanos == 0 {
      assert DecVal([]) == 0;
    } else {
      hide ToDec, BigFloats.TrimZeros, DecVal, Padded, TailOf, AllDigits, NanosOf;
      var text := AtLeast(abs, 9);
      TextValue(abs);
      TrimDigits(text);
      FractionRead(BigFloats.TrimZeros(text));
      TrimmedNanos(text, abs);
    }
  }

  lemma TextValue(n: nat)
    ensures AllDigits(AtLeast(n, 9)) && DecVal(AtLeast(n, 9)) == n
    ensures if n < 1_000_000_000 then |AtLeast(n, 9)| == 9 else AtLeast(n, 9) == ToDec(n)
  {
    SmallPowers();
  }

  lemma TrimmedNanos(text: string, n: nat)
    requires AllDigits(text) && DecVal(text) == n > 0
    ensures var f := BigFloats.TrimZeros(text);
            AllDigits(f) && f != [] && (|text| == 9 ==> NanosOf(f) == n)
  {
    var f := BigFloats.TrimZeros(text);
    TrimDigits(text);
    Durations.TrimmedValue(text);
    Durations.NoDigits();
    hide BigFloats.TrimZeros, DecVal, AllDigits;
    assert 0 * Pow(10, |text| - |f|) == 0;
    if |f| == 9 {
      assert f[..9] == f && Pow(10, 0) == 1;
    }
  }

  /** Every timestamp of the years 0 to 9999 prints a date-time, which reads back with
      its seconds, and with its nanoseconds exactly when these are within a second
      and not negative. */
  lemma TimestampBack(t: Timestamp)
    requires 0 <= ClockAt(t.seconds).date.year <= 9999
    ensures Valid(Format(t))
    ensures Parse(Format(t)) == Some(Timestamp(t.seconds, NanosBack(t.nanos)))
    ensures Parse(Format(t)) == Some(t) <==> 0 <= t.nanos < 1_000_000_000
  {
    hide *;
    var c := ClockAt(t.seconds);
    ClockBack(c, NanosText(t.nanos));
    SecondsBack(t.seconds);
    NanosRead(t.nanos);
    NanosSmall(t.nanos);
    TextNotEmpty(t.nanos);
    Joined(t);
    assert |Format(t)| >= 20;
    ReadParts(Format(t), c, NanosText(t.nanos));
  }

  lemma Joined(t: Timestamp)
    ensures Format(t) == DateText(ClockAt(t.seconds), NanosText(t.nanos))
  {}

  /** A text of these parts is valid, and read from them. */
  lemma ReadParts(s: string, c: Clock, rest: string)
    requires |s| >= 20 && s[19..] == rest && ClockOf(s) == Some(c)
    requires s[4] == '-' && s[7] == '-' && s[10] == 'T' && s[13] == ':' && s[16] == ':'
    requires ValidDate(c.date) && c.hour <= 23 && c.minute <= 59 && c.second <= 59
    requires TailOf(rest).zone == "Z" && (rest[0] == '.' ==> TailOf(rest).fraction != [])
    ensures Valid(s)
    ensures Parse(s) == Some(Timestamp(DaysFromCivil(c.date) * DAY + c.hour * 3600 + c.minute * 60 + c.second,
                                       NanosOf(TailOf(rest).fraction)))
  {
    hide ClockOf, TailOf, NanosOf, DaysFromCivil, ValidDate;
    assert s[19] == rest[0];
  }

  lemma TextNotEmpty(nanos: int)
    ensures |NanosText(nanos)| > 0 && (NanosText(nanos)[0] == '.' <==> nanos != 0)
  {}

  lemma NanosSmall(nanos: int)
    ensures NanosBack(nanos) == nanos <==> 0 <= nanos < 1_000_000_000
  {
    var abs: nat := if nanos < 0 then -nanos else nanos;
    if abs >= 1_000_000_000 {
      var f := BigFloats.TrimZeros(ToDec(abs));
      TrimDigits(ToDec(abs));
      NanosBelow(f);
    }
    hide ToDec, BigFloats.TrimZeros, NanosOf;
  }

  lemma NanosBelow(f: string)
    requires AllDigits(f)
    ensures NanosOf(f) < 1_000_000_000
  {
    SmallPowers();
    if |f| >= 9 {
      DecBound(f[..9]);
    } else {
      DecBound(f);
      PowAdd(10, |f|, 9 - |f|);
      MulLt(DecVal(f), Pow(10, |f|), Pow(10, 9 - |f|));
    }
  }
}
