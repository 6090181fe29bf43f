/** Every date-time of RFC 3339 (section 5.6) by its parts: what each text denotes,
    and how a timestamp is printed. */
module TimestampSpelling {
  import opened Options
  import opened Powers
  import opened Decimals
  import opened Calendar
  import opened Timestamps
  import BigFloats
  import Durations

  // Texts.

  /** UTC, or so many hours and minutes ahead of it or behind. */
  datatype Zone = Utc(lower: bool) | Ahead(hours: string, minutes: string) | Behind(hours: string, minutes: string)

  datatype Spelling = Spelling(
    year: string, month: string, day: string, lower: bool, hour: string, minute: string, second: string,
    fraction: string, zone: Zone)

  function ZoneText(z: Zone): string {
    match z
    case Utc(lower) => if lower then "z" else "Z"
    case Ahead(h, m) => "+" + (h + (":" + m))
    case Behind(h, m) => "-" + (h + (":" + m))
  }

  function TailText(sp: Spelling): string {
    (if sp.fraction == [] then "" else "." + sp.fraction) + ZoneText(sp.zone)
  }

  function Text(sp: Spelling): string {
    sp.year + ("-" + (sp.month + ("-" + (sp.day + ((if sp.lower then "t" else "T")
      + (sp.hour + (":" + (sp.minute + (":" + (sp.second + TailText(sp)))))))))))
  }

  /** So many digits, for a number of at most so much. */
  predicate Digits(s: string, length: nat, most: nat) {
    |s| == length && AllDigits(s) && DecVal(s) <= most
  }

  function DateOf(sp: Spelling): Date
    requires AllDigits(sp.year) && AllDigits(sp.month) && AllDigits(sp.day)
  {
    Date(DecVal(sp.year), DecVal(sp.month), DecVal(sp.day))
  }

  predicate Proper(sp: Spelling) {
    && Digits(sp.year, 4, 9999) && Digits(sp.month, 2, 99) && Digits(sp.day, 2, 99) && ValidDate(DateOf(sp))
    && Digits(sp.hour, 2, 23) && Digits(sp.minute, 2, 59) && Digits(sp.second, 2, 60)
    && AllDigits(sp.fraction)
    && (!sp.zone.Utc? ==> Digits(sp.zone.hours, 2, 23) && Digits(sp.zone.minutes, 2, 59))
  }

  /** The seconds UTC is behind the clock of the zone. */
  function AheadBy(z: Zone): int
    requires !z.Utc? ==> AllDigits(z.hours) && AllDigits(z.minutes)
  {
    match z
    case Utc(_) => 0
    case Ahead(h, m) => 3600 * DecVal(h) + 60 * DecVal(m)
    case Behind(h, m) => -(3600 * DecVal(h) + 60 * DecVal(m) as int)
  }

  /** The fraction to nine places, more cut off. */
  function NineDigits(fraction: string): (s: string)
    ensures |s| == 9 && (AllDigits(fraction) ==> AllDigits(s))
  {
    (fraction + "000000000")[..9]
  }

  /** The moment the text names: the seconds of its day and clock, less those its zone
      is ahead, and the nanoseconds of its fraction. */
  function Moment(sp: Spelling): Timestamp
    requires Proper(sp)
  {
    Timestamp(
      DaysFromCivil(DateOf(sp)) * 86400 + 3600 * DecVal(sp.hour) + 60 * DecVal(sp.minute) + DecVal(sp.second) - AheadBy(sp.zone),
      DecVal(NineDigits(sp.fraction)))
  }

  // A text is cut into its parts.

  /** The nineteen characters of a date and time, whatever stands between them. */
  lemma {:induction false} CutAt(s: string, sp: Spelling, sep: string, rest: string)
    requires |sp.year| == 4 && |sp.month| == 2 && |sp.day| == 2 && |sp.hour| == 2 && |sp.minute| == 2 && |sp.second| == 2
    requires |sep| == 1
    requires s == sp.year + ("-" + (sp.month + ("-" + (sp.day + (sep + (sp.hour + (":" + (sp.minute + (":" + (sp.second + rest))))))))))
    ensures |s| == 19 + |rest| && s[19..] == rest
    ensures s[0..4] == sp.year && s[5..7] == sp.month && s[8..10] == sp.day
    ensures s[11..13] == sp.hour && s[14..16] == sp.minute && s[17..19] == sp.second
    ensures s[4] == '-' && s[7] == '-' && s[10] == sep[0] && s[13] == ':' && s[16] == ':'
  {
    var r5 := ":" + (sp.second + rest);
    var r4 := ":" + (sp.minute + r5);
    var r3 := sep + (sp.hour + r4);
    var r2 := "-" + (sp.day + r3);
    CutDate(sp.year, sp.month, sp.day, r3);
    assert s == sp.year + ("-" + (sp.month + r2));
    assert s[10..] == r3;
    Piece(s, 10, sep, sp.hour + r4);
    Piece(s, 11, sp.hour, r4);
    Piece(s, 13, ":", sp.minute + r5);
    Piece(s, 14, sp.minute, r5);
    Piece(s, 16, ":", sp.second + rest);
    Piece(s, 17, sp.second, rest);
  }

  lemma {:induction false} TailCut(sp: Spelling)
    requires Proper(sp)
    ensures TailOf(TailText(sp)) == Tail(sp.fraction, ZoneText(sp.zone))
    ensures TailText(sp) != [] && (TailText(sp)[0] == '.' <==> sp.fraction != [])
  {
    var zone := ZoneText(sp.zone);
    assert zone != [] && zone[0] in {'z', 'Z', '+', '-'};
    if sp.fraction == [] {
      assert TailText(sp) == zone;
    } else {
      assert TailText(sp) == "." + (sp.fraction + zone);
      FractionCut(sp.fraction, zone);
    }
  }

  lemma {:induction false} FractionCut(fraction: string, zone: string)
    requires AllDigits(fraction) && zone != [] && !IsDigit(zone[0])
    ensures TailOf("." + (fraction + zone)) == Tail(fraction, zone)
  {
    assert ("." + (fraction + zone))[1..] == fraction + zone;
    Durations.LeadDigitsOf(fraction, zone);
    hide Durations.LeadDigits, AllDigits;
  }

  lemma {:induction false} ZoneRead(z: Zone)
    requires !z.Utc? ==> Digits(z.hours, 2, 23) && Digits(z.minutes, 2, 59)
    ensures ValidZone(ZoneText(z)) && Offset(ZoneText(z)) == Some(AheadBy(z))
  {
    var s := ZoneText(z);
    if !z.Utc? {
      assert s[1..3] == z.hours && s[3] == ':' && s[4..6] == z.minutes;
    }
    hide DecVal, AllDigits;
  }

  lemma {:induction false} NanosRead(fraction: string)
    requires AllDigits(fraction)
    ensures Timestamps.NanosOf(fraction) == DecVal(NineDigits(fraction))
  {
    if |fraction| >= 9 {
      assert NineDigits(fraction) == fraction[..9];
    } else {
      var zeros := "000000000"[..9 - |fraction|];
      assert NineDigits(fraction) == fraction + zeros;
      assert zeros == seq(9 - |fraction|, i => '0');
      DecAppend(fraction, zeros);
      ZerosVal(9 - |fraction|);
    }
  }

  lemma {:induction false} ClockCut(s: string, sp: Spelling)
    requires Proper(sp) && s == Text(sp)
    ensures |s| >= 20 && s[19..] == TailText(sp)
    ensures ClockOf(s) == Some(Clock(DateOf(sp), DecVal(sp.hour), DecVal(sp.minute), DecVal(sp.second)))
    ensures s[4] == '-' && s[7] == '-' && s[13] == ':' && s[16] == ':'
    ensures s[10] == if sp.lower then 't' else 'T'
  {
    hide TailText, ValidDate, DecVal, AllDigits;
    CutAt(s, sp, if sp.lower then "t" else "T", TailText(sp));
    TailCut(sp);
    hide Text;
  }

  predicate Stands(s: string, c: Clock, rest: string) {
    && |s| >= 20 && s[19..] == rest && ClockOf(s) == Some(c)
    && s[4] == '-' && s[7] == '-' && (s[10] == 'T' || s[10] == 't') && s[13] == ':' && s[16] == ':'
    && ValidDate(c.date) && c.hour <= 23 && c.minute <= 59 && c.second <= 60
  }

  predicate Follows(rest: string, offset: int, nanos: int) {
    && rest != [] && ValidZone(TailOf(rest).zone) && Offset(TailOf(rest).zone) == Some(offset)
    && (rest[0] == '.' ==> TailOf(rest).fraction != []) && Timestamps.NanosOf(TailOf(rest).fraction) == nanos
  }

  lemma {:induction false} ReadCut(s: string, c: Clock, rest: string, offset: int, nanos: int)
    requires Stands(s, c, rest) && Follows(rest, offset, nanos)
    ensures Valid(s)
    ensures Parse(s) == Some(Timestamp(DaysFromCivil(c.date) * DAY + c.hour * 3600 + c.minute * 60 + c.second - offset, nanos))
  {
    hide ClockOf, TailOf, Timestamps.NanosOf, DaysFromCivil, ValidDate, Offset, ValidZone;
    assert s[19] == rest[0];
  }

  lemma {:induction false} ProperClock(sp: Spelling)
    requires Proper(sp)
    ensures ValidDate(DateOf(sp)) && DecVal(sp.hour) <= 23 && DecVal(sp.minute) <= 59 && DecVal(sp.second) <= 60
    ensures AllDigits(sp.fraction) && (!sp.zone.Utc? ==> Digits(sp.zone.hours, 2, 23) && Digits(sp.zone.minutes, 2, 59))
    ensures Moment(sp)
         == Timestamp(DaysFromCivil(DateOf(sp)) * DAY + DecVal(sp.hour) * 3600 + DecVal(sp.minute) * 60 + DecVal(sp.second)
                      - AheadBy(sp.zone), DecVal(NineDigits(sp.fraction)))
  {
    hide DaysFromCivil, ValidDate, DecVal, NineDigits, AheadBy;
  }

  lemma {:induction false} TailRead(sp: Spelling)
    requires Proper(sp)
    ensures Follows(TailText(sp), AheadBy(sp.zone), Moment(sp).nanos)
  {
    TailCut(sp);
    ZoneRead(sp.zone);
    NanosRead(sp.fraction);
    hide TailText, TailOf, ValidZone, Offset, ZoneText, AheadBy, DecVal, NineDigits, DaysFromCivil, ValidDate, AllDigits,
      Timestamps.NanosOf;
  }

  lemma {:induction false} ClockRead(s: string, sp: Spelling) returns (c: Clock)
    requires Proper(sp) && s == Text(sp)
    ensures Stands(s, c, TailText(sp))
    ensures DaysFromCivil(c.date) * DAY + c.hour * 3600 + c.minute * 60 + c.second - AheadBy(sp.zone) == Moment(sp).seconds
  {
    ClockCut(s, sp);
    ProperClock(sp);
    c := ClockOf(s).value;
    hide TailText, ClockOf, AheadBy, DecVal, NineDigits, DaysFromCivil, ValidDate, AllDigits, Text, Proper;
  }

  /** Every such text is a date-time, read as the moment it names. */
  lemma {:induction false} SpelledRead(sp: Spelling)
    requires Proper(sp)
    ensures Valid(Text(sp)) && Parse(Text(sp)) == Some(Moment(sp))
  {
    hide *;
    ZoneDigits(sp);
    var s, m, rest := Text(sp), Moment(sp), TailText(sp);
    var offset := AheadBy(sp.zone);
    var c := ClockRead(s, sp);
    TailRead(sp);
    ReadCut(s, c, rest, offset, m.nanos);
  }

  lemma {:induction false} ZoneDigits(sp: Spelling)
    requires Proper(sp)
    ensures !sp.zone.Utc? ==> AllDigits(sp.zone.hours) && AllDigits(sp.zone.minutes)
  {
    hide AllDigits, ValidDate, DecVal;
  }

  // Nothing else is one.

  lemma {:induction false} ZoneOf(s: string) returns (z: Zone)
    requires ValidZone(s)
    ensures s == ZoneText(z) && (!z.Utc? ==> Digits(z.hours, 2, 23) && Digits(z.minutes, 2, 59))
  {
    if s[0] == 'Z' || s[0] == 'z' {
      z := Utc(s[0] == 'z');
      assert s == [s[0]];
    } else {
      z := if s[0] == '+' then Ahead(s[1..3], s[4..6]) else Behind(s[1..3], s[4..6]);
      assert s == [s[0]] + (s[1..3] + (":" + s[4..6]));
    }
  }

  lemma {:induction false} Rebuilt(s: string)
    requires |s| >= 20 && s[4] == '-' && s[7] == '-' && s[13] == ':' && s[16] == ':'
    ensures s == s[0..4] + ("-" + (s[5..7] + ("-" + (s[8..10] + ([s[10]]
      + (s[11..13] + (":" + (s[14..16] + (":" + (s[17..19] + s[19..]))))))))))
  {
    assert s[16..] == ":" + (s[17..19] + s[19..]);
    assert s[13..] == ":" + (s[14..16] + s[16..]);
    assert s[10..] == [s[10]] + (s[11..13] + s[13..]);
    assert s[7..] == "-" + (s[8..10] + s[10..]);
    assert s == s[0..4] + ("-" + (s[5..7] + s[7..]));
  }

  lemma {:induction false} TailIs(s: string)
    requires s != []
    ensures var tail := TailOf(s);
            (s[0] == '.' ==> tail.fraction != []) ==> s == (if tail.fraction == [] then "" else "." + tail.fraction) + tail.zone
  {
    if s[0] == '.' {
      var n := Durations.LeadDigits(s[1..]);
      assert s == "." + (s[1..][..n] + s[1..][n..]);
    } else {
      assert s == "" + s;
    }
  }

  lemma {:induction false} OnlySpelled(s: string)
    requires Valid(s)
    ensures exists sp :: Proper(sp) && s == Text(sp)
  {
    var tail := TailOf(s[19..]);
    var z := ZoneOf(tail.zone);
    var sp := Spelling(s[0..4], s[5..7], s[8..10], s[10] == 't', s[11..13], s[14..16], s[17..19], tail.fraction, z);
    TailIs(s[19..]);
    Rebuilt(s);
    assert s[19] == s[19..][0];
    assert [s[10]] == if sp.lower then "t" else "T";
    assert s == Text(sp) by { hide TailOf, ZoneText, ClockOf, ValidDate, AllDigits, DecVal; }
    ClockDigits(s);
    var c := ClockOf(s).value;
    assert ValidDate(c.date) && c.hour <= 23 && c.minute <= 59 && c.second <= 60 && AllDigits(tail.fraction);
    hide Text, TailOf, ZoneText, ClockOf, DecVal, AllDigits, ValidDate, Valid;
    assert Proper(sp);
  }

  lemma {:induction false} ClockDigits(s: string)
    requires |s| >= 20 && ClockOf(s).Some?
    ensures AllDigits(s[0..4]) && AllDigits(s[5..7]) && AllDigits(s[8..10])
    ensures AllDigits(s[11..13]) && AllDigits(s[14..16]) && AllDigits(s[17..19])
    ensures DecVal(s[0..4]) <= 9999 && DecVal(s[5..7]) <= 99 && DecVal(s[8..10]) <= 99
    ensures ClockOf(s).value
         == Clock(Date(DecVal(s[0..4]), DecVal(s[5..7]), DecVal(s[8..10])),
                  DecVal(s[11..13]), DecVal(s[14..16]), DecVal(s[17..19]))
  {
    hide AllDigits, DecVal;
    DecBound(s[0..4]);
    DecBound(s[5..7]);
    DecBound(s[8..10]);
    SmallPowers();
  }

  /** The same clock in another zone is another moment, by exactly what the zone is
      ahead. */
  lemma {:induction false} ZonesApart(sp: Spelling, lower: bool)
    requires Proper(sp)
    ensures var utc := sp.(zone := Utc(lower));
            && Proper(utc) && Parse(Text(sp)) == Some(Moment(sp)) && Parse(Text(utc)) == Some(Moment(utc))
            && Moment(utc).seconds - Moment(sp).seconds == AheadBy(sp.zone) && Moment(utc).nanos == Moment(sp).nanos
  {
    var utc := sp.(zone := Utc(lower));
    assert Proper(utc) by { hide DecVal, AllDigits, ValidDate; }
    SpelledRead(sp);
    SpelledRead(utc);
    hide Parse, Text, DaysFromCivil, DecVal, NineDigits, AllDigits, ValidDate, Proper;
  }

  // How a timestamp is printed.

  /** The text of a timestamp: upper-case marks, UTC, no leap second, and a fraction
      only of nanoseconds, without a zero at its end. */
  predicate Printed(sp: Spelling, nanos: int) {
    && !sp.lower && sp.zone == Utc(false) && AllDigits(sp.second) && DecVal(sp.second) <= 59
    && (sp.fraction == [] <==> nanos == 0)
    && (sp.fraction != [] ==> sp.fraction[|sp.fraction| - 1] != '0')
  }

  lemma {:induction false} Last(s: string)
    ensures var r := BigFloats.TrimZeros(s);
            r != [] ==> r[|r| - 1] != '0'
    decreases |s|
  {
    if s != [] && s[|s| - 1] == '0' {
      Last(s[..|s| - 1]);
    }
  }

  lemma {:induction false} FieldDigits(n: nat, w: nat, most: nat)
    requires w > 0 && n <= most < Pow(10, w)
    ensures Digits(AtLeast(n, w), w, most) && DecVal(AtLeast(n, w)) == n
  {}

  lemma {:induction false} NanosPrinted(nanos: int) returns (fraction: string)
    ensures AllDigits(fraction) && (fraction == [] <==> nanos == 0) && (fraction != [] ==> fraction[|fraction| - 1] != '0')
    ensures NanosText(nanos) == (if fraction == [] then "" else "." + fraction) + "Z"
  {
    if nanos == 0 {
      fraction := [];
      assert "" + "Z" == "Z";
    } else {
      var abs: nat := if nanos < 0 then -nanos else nanos;
      fraction := BigFloats.TrimZeros(AtLeast(abs, 9));
      TrimmedText(abs);
      hide AtLeast, BigFloats.TrimZeros, AllDigits;
      assert ("." + fraction) + "Z" == "." + (fraction + "Z");
    }
  }

  lemma {:induction false} TrimmedText(n: nat)
    requires n > 0
    ensures var f := BigFloats.TrimZeros(AtLeast(n, 9));
            AllDigits(f) && f != [] && f[|f| - 1] != '0'
  {
    var text := AtLeast(n, 9);
    TextValue(n);
    hide *;
    TrimDigits(text);
    Last(text);
    TrimmedNanos(text, n);
  }

  lemma {:induction false} DayAndMonth(d: Date)
    requires ValidDate(d)
    ensures 1 <= d.month <= 12 && 1 <= d.day <= 31
  {}

  /** Every timestamp of the years 0 to 9999 is printed so, with the clock of its
      seconds. */
  lemma {:induction false} PrintedForm(t: Timestamp)
    requires 0 <= ClockAt(t.seconds).date.year <= 9999
    ensures exists sp :: Proper(sp) && Printed(sp, t.nanos) && Moment(sp).seconds == t.seconds && Format(t) == Text(sp)
  {
    var c := ClockAt(t.seconds);
    assert 1 <= c.date.month <= 12 && 1 <= c.date.day <= 31 by { hide ClockAt; DayAndMonth(c.date); }
    hide AtLeast, ClockAt, DecVal, ValidDate, DaysFromCivil, NanosText, NineDigits;
    var fraction := NanosPrinted(t.nanos);
    SmallPowers();
    FieldDigits(c.date.year, 4, 9999);
    FieldDigits(c.date.month, 2, 99);
    FieldDigits(c.date.day, 2, 99);
    FieldDigits(c.hour, 2, 23);
    FieldDigits(c.minute, 2, 59);
    FieldDigits(c.second, 2, 59);
    var sp := Spelling(AtLeast(c.date.year, 4), AtLeast(c.date.month, 2), AtLeast(c.date.day, 2), false,
                       AtLeast(c.hour, 2), AtLeast(c.minute, 2), AtLeast(c.second, 2), fraction, Utc(false));
    SecondsBack(t.seconds);
    assert DateOf(sp) == c.date;
    hide AllDigits;
    assert Proper(sp) by { hide Text, Format, Moment, TailText; }
    assert TailText(sp) == NanosText(t.nanos) by { hide Text, Format, Moment, Proper; }
    assert Format(t) == Text(sp) by { hide Moment, Proper, TailText; }
    assert Moment(sp).seconds == t.seconds by { hide Text, Format, Proper, TailText; }
    hide Text, Format, Moment, Proper, TailText;
  }
}
