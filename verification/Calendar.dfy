/** The proleptic Gregorian calendar: days since 1970-01-01 and dates, each the
    inverse of the other. */
module Calendar {
  import opened Powers

  datatype Date = Date(year: int, month: int, day: int)

  predicate LeapYear(y: int) {
    (y % 4 == 0 && y % 100 != 0) || y % 400 == 0
  }

  function DaysInMonth(y: int, m: int): int {
    if m == 2 then if LeapYear(y) then 29 else 28
    else if m == 4 || m == 6 || m == 9 || m == 11 then 30
    else if 1 <= m <= 12 then 31
    else 0
  }

  predicate ValidDate(x: Date) {
    1 <= x.month <= 12 && 1 <= x.day <= DaysInMonth(x.year, x.month)
  }

  /** The day after. */
  function NextDay(x: Date): Date {
    if x.day < DaysInMonth(x.year, x.month) then Date(x.year, x.month, x.day + 1)
    else if x.month < 12 then Date(x.year, x.month + 1, 1)
    else Date(x.year + 1, 1, 1)
  }

  /** Division that truncates toward zero. */
  function Quot(a: int, b: int): int
    requires b > 0
  {
    if a >= 0 then a / b else -((-a) / b)
  }

  /** days_from_civil */
  function DaysFromCivil(x: Date): int {
    var y := if x.month <= 2 then x.year - 1 else x.year;
    var era := if y >= 0 then Quot(y, 400) else Quot(y - 399, 400);
    var yoe := y - era * 400;
    var shifted := if x.month > 2 then x.month - 3 else x.month + 9;
    var doy := Quot(153 * shifted + 2, 5) + x.day - 1;
    var doe := yoe * 365 + Quot(yoe, 4) - Quot(yoe, 100) + doy;
    era * 146097 + doe - 719468
  }

  /** civil_from_days */
  function CivilFromDays(days: int): Date {
    var z := days + 719468;
    var era := if z >= 0 then Quot(z, 146097) else Quot(z - 146096, 146097);
    var doe := z - era * 146097;
    var yoe := YearOfEra(doe);
    var y := yoe + era * 400;
    var doy := doe - (365 * yoe + Quot(yoe, 4) - Quot(yoe, 100));
    var mp := Quot(5 * doy + 2, 153);
    var d := doy - Quot(153 * mp + 2, 5) + 1;
    var m := if mp < 10 then mp + 3 else mp - 9;
    Date(if m <= 2 then y + 1 else y, m, d)
  }

  function YearOfEra(doe: int): int {
    Quot(doe - Quot(doe, 1460) + Quot(doe, 36524) - Quot(doe, 146096), 365)
  }

  // Years that start in March.

  /** Days before the March-based year y of an era. */
  function YearStart(y: int): int {
    365 * y + y / 4 - y / 100
  }

  /** Whether the March-based year ends with a leap day. */
  predicate LongYear(y: int) {
    LeapYear(y + 1)
  }

  /** Days before the month, counted from March. */
  function MonthStart(mp: int): int {
    (153 * mp + 2) / 5
  }

  function MarchYear(x: Date): int {
    if x.month <= 2 then x.year - 1 else x.year
  }

  function MarchMonth(x: Date): int {
    if x.month > 2 then x.month - 3 else x.month + 9
  }

  lemma FloorEra(y: int, n: int)
    requires n > 0
    ensures (if y >= 0 then Quot(y, n) else Quot(y - (n - 1), n)) == y / n
  {
    if y < 0 {
      var a := -(y - (n - 1));
      var q, r := a / n, a % n;
      assert a == q * n + r;
      assert y == (-q) * n + (n - 1 - r);
      Floor(y, n, -q, n - 1 - r);
    }
  }

  lemma Floor(y: int, n: int, q: int, r: int)
    requires n > 0 && y == q * n + r && 0 <= r < n
    ensures y / n == q && y % n == r
  {
    DivModUnique(y, n, q, r);
  }

  /** The day number by the March-based year. */
  lemma DaysByYear(x: Date)
    requires 1 <= x.month <= 12
    ensures DaysFromCivil(x)
         == (MarchYear(x) / 400) * 146097 + YearStart(MarchYear(x) % 400) + MonthStart(MarchMonth(x)) + x.day - 1 - 719468
  {
    FloorEra(MarchYear(x), 400);
  }

  /** A year of the era has 366 days when it ends with a leap day; the last one
      takes the era's extra day. */
  lemma NextYear(y: int)
    requires 0 <= y < 400
    ensures y < 399 ==> YearStart(y + 1) - YearStart(y) == if LongYear(y) then 366 else 365
    ensures y == 399 ==> 146097 - YearStart(y) == 366 && LongYear(y)
  {}

  lemma LeapPeriod(y: int)
    ensures LeapYear(y) <==> LeapYear(y % 400)
  {
    var q := y / 400;
    assert y == 400 * q + y % 400;
    assert y % 4 == (y % 400) % 4 by { Floor(y, 4, 100 * q + (y % 400) / 4, (y % 400) % 4); }
    assert y % 100 == (y % 400) % 100 by { Floor(y, 100, 4 * q + (y % 400) / 100, (y % 400) % 100); }
  }

  /** The day after a date is one more, across months, years and leap days, and the
      first of January 1970 is zero: the day number counts calendar days. */
  lemma CountsDays(x: Date)
    requires ValidDate(x)
    ensures ValidDate(NextDay(x)) && DaysFromCivil(NextDay(x)) == DaysFromCivil(x) + 1
    ensures DaysFromCivil(Date(1970, 1, 1)) == 0
  {
    var next := NextDay(x);
    DaysByYear(x);
    DaysByYear(next);
    hide DaysFromCivil, YearStart;
    if x.day == DaysInMonth(x.year, x.month) {
      if x.month == 2 {
        YearTurns(x);
      } else {
        MonthTurns(x);
      }
    }
    Epoch();
  }

  lemma Epoch()
    ensures DaysFromCivil(Date(1970, 1, 1)) == 0
  {}

  lemma MonthTurns(x: Date)
    requires ValidDate(x) && x.month != 2
    ensures var next := if x.month < 12 then Date(x.year, x.month + 1, 1) else Date(x.year + 1, 1, 1);
            && MarchYear(next) == MarchYear(x)
            && MonthStart(MarchMonth(next)) == MonthStart(MarchMonth(x)) + DaysInMonth(x.year, x.month)
  {}

  lemma YearTurns(x: Date)
    requires ValidDate(x) && x.month == 2
    ensures var y := MarchYear(x);
            (y + 1) / 400 * 146097 + YearStart((y + 1) % 400)
            == y / 400 * 146097 + YearStart(y % 400) + MonthStart(11) + DaysInMonth(x.year, 2)
  {
    var y := MarchYear(x);
    NextYear(y % 400);
    NextInEra(y);
    hide LeapYear;
    assert MonthStart(11) == 337 && YearStart(0) == 0;
  }

  lemma NextInEra(y: int)
    ensures y % 400 < 399 ==> (y + 1) / 400 == y / 400 && (y + 1) % 400 == y % 400 + 1
    ensures y % 400 == 399 ==> (y + 1) / 400 == y / 400 + 1 && (y + 1) % 400 == 0
    ensures LeapYear(y + 1) <==> LeapYear(y % 400 + 1)
  {
    var q := y / 400;
    if y % 400 < 399 {
      Floor(y + 1, 400, q, y % 400 + 1);
    } else {
      Floor(y + 1, 400, q + 1, 0);
    }
    LeapPeriod(y + 1);
    LeapPeriod(y % 400 + 1);
  }

  // The inverse.

  /** The end of a year of the era. */
  function YearEnd(y: int): int {
    if y < 399 then YearStart(y + 1) else 146097
  }

  /** A day of the y-th year of the era, q four-year cycles and v years into its
      century c, on the e-th day of the year. */
  predicate DayOfYear(doe: int, y: int, c: int, q: int, v: int, e: int) {
    && 0 <= c < 4 && 0 <= q < 25 && 0 <= v < 4 && y == 100 * c + 4 * q + v
    && doe == 36524 * c + 1461 * q + 365 * v + e
    && 0 <= e <= 365 && (e == 365 ==> v == 3 && (q < 24 || c == 3))
  }

  lemma DayParts(y: int, doe: int)
    requires 0 <= y < 400 && YearStart(y) <= doe < YearEnd(y)
    ensures DayOfYear(doe, y, y / 100, y % 100 / 4, y % 4, doe - YearStart(y))
  {
    var c, q, v := y / 100, y % 100 / 4, y % 4;
    Floor(y, 4, 25 * c + q, y % 100 % 4);
    YearLength(y);
    if v == 3 {
      Floor(y + 1, 4, 25 * c + q + 1, 0);
    }
    LeapDay(y, c, q, v);
  }

  /** The fourth year of a cycle has a leap day, but for the last of a century that
      is not the era's last. */
  lemma LeapDay(y: int, c: int, q: int, v: int)
    requires 0 <= c < 4 && 0 <= q < 25 && 0 <= v < 4 && y == 100 * c + 4 * q + v
    ensures LongYear(y) ==> v == 3 && (q < 24 || c == 3)
  {
    if v < 3 {
      Floor(y + 1, 4, 25 * c + q, v + 1);
    } else if q == 24 {
      Floor(y + 1, 100, c + 1, 0);
    }
  }

  /** The three corrections leave 365 days for each year. */
  lemma YearFormula(doe: int, y: int, c: int, q: int, v: int, e: int)
    requires DayOfYear(doe, y, c, q, v, e)
    ensures YearOfEra(doe) == y
  {
    var last := c == 3 && q == 24 && v == 3 && e == 365;
    var t := 24 * c + 365 * v + q + e;
    var more := if t >= 1460 then 1 else 0;
    Floor(doe, 1460, 25 * c + q + more, t - 1460 * more);
    Floor(doe, 36524, if last then 4 else c, doe - 36524 * if last then 4 else c);
    Floor(doe, 146096, if last then 1 else 0, doe - 146096 * if last then 1 else 0);
    Floor(365 * y + (e - more), 365, y, e - more);
  }

  lemma {:induction false} SomeYear(doe: int, y: int)
    requires 0 <= y < 400 && 0 <= doe < YearEnd(y)
    ensures exists k :: 0 <= k < 400 && YearStart(k) <= doe < YearEnd(k)
    decreases y
  {
    if YearStart(y) <= doe {
      assert YearStart(y) <= doe < YearEnd(y);
    } else {
      assert YearStart(0) == 0;
      SomeYear(doe, y - 1);
    }
  }

  lemma YearOfEraIs(doe: int)
    requires 0 <= doe < 146097
    ensures var y := YearOfEra(doe);
            0 <= y < 400 && YearStart(y) <= doe < YearEnd(y)
  {
    SomeYear(doe, 399);
    var y :| 0 <= y < 400 && YearStart(y) <= doe < YearEnd(y);
    DayParts(y, doe);
    hide YearOfEra, YearStart, YearEnd;
    YearFormula(doe, y, y / 100, y % 100 / 4, y % 4, doe - YearStart(y));
  }

  lemma MonthOf(doy: int)
    requires 0 <= doy <= 365
    ensures var mp := (5 * doy + 2) / 153;
            0 <= mp < 12 && MonthStart(mp) <= doy && (mp < 11 ==> doy < MonthStart(mp + 1))
  {}

  /** The date of a month and day of the March-based year. */
  function Civil(y: int, mp: int, day: int): Date {
    var m := if mp < 10 then mp + 3 else mp - 9;
    Date(if m <= 2 then y + 1 else y, m, day)
  }

  /** civil_from_days, without the truncations. */
  lemma CivilParts(days: int)
    ensures var z := days + 719468;
            var y := YearOfEra(z % 146097);
            var doy := z % 146097 - YearStart(y);
            var mp := (5 * doy + 2) / 153;
            && 0 <= y < 400 && 0 <= doy < YearEnd(y) - YearStart(y)
            && CivilFromDays(days) == Civil(y + z / 146097 * 400, mp, doy - MonthStart(mp) + 1)
  {
    hide YearOfEra, YearEnd, YearStart, MonthStart, Quot;
    var z := days + 719468;
    FloorEra(z, 146097);
    var doe := z % 146097;
    assert doe == z - z / 146097 * 146097;
    YearOfEraIs(doe);
    DayOfDoe(doe, YearOfEra(doe));
  }

  lemma DayOfDoe(doe: int, y: int)
    requires 0 <= y < 400 && YearStart(y) <= doe < YearEnd(y)
    ensures var doy := doe - YearStart(y);
            && 0 <= doy <= 365
            && doe - (365 * y + Quot(y, 4) - Quot(y, 100)) == doy
            && Quot(5 * doy + 2, 153) == (5 * doy + 2) / 153
            && Quot(153 * Quot(5 * doy + 2, 153) + 2, 5) == MonthStart((5 * doy + 2) / 153)
  {
    NextYear(y);
    hide LeapYear;
  }

  lemma YearLength(y: int)
    requires 0 <= y < 400
    ensures YearEnd(y) - YearStart(y) == if LongYear(y) then 366 else 365
  {
    NextYear(y);
  }

  /** A day of a March-based year is a date of the calendar. */
  lemma CivilValid(y: int, doy: int)
    requires 0 <= doy < if LongYear(y) then 366 else 365
    ensures var mp := (5 * doy + 2) / 153;
            var x := Civil(y, mp, doy - MonthStart(mp) + 1);
            ValidDate(x) && MarchYear(x) == y && MarchMonth(x) == mp
  {
    MonthOf(doy);
    var mp := (5 * doy + 2) / 153;
    hide LeapYear;
  }

  /** The day number of a day of a year of an era. */
  lemma DaysOf(full: int, era: int, y: int, doy: int)
    requires full == y + era * 400 && 0 <= y < 400 && 0 <= doy < if LongYear(y) then 366 else 365
    ensures var mp := (5 * doy + 2) / 153;
            var x := Civil(full, mp, doy - MonthStart(mp) + 1);
            ValidDate(x) && DaysFromCivil(x) == era * 146097 + YearStart(y) + doy - 719468
  {
    hide *;
    Floor(full, 400, era, y);
    SameLong(full);
    CivilValid(full, doy);
    var mp := (5 * doy + 2) / 153;
    var x := Civil(full, mp, doy - MonthStart(mp) + 1);
    ValidMonth(x);
    DaysByYear(x);
    CivilDay(full, mp, doy - MonthStart(mp) + 1);
  }

  /** Every day number is that of the date it is turned into, which is a date of the
      calendar. */
  lemma DaysBack(days: int)
    ensures ValidDate(CivilFromDays(days)) && DaysFromCivil(CivilFromDays(days)) == days
  {
    hide *;
    var z := days + 719468;
    var y := YearOfEra(z % 146097);
    CivilParts(days);
    YearLength(y);
    DaysOf(y + z / 146097 * 400, z / 146097, y, z % 146097 - YearStart(y));
  }

  lemma SameLong(y: int)
    ensures LongYear(y) <==> LongYear(y % 400)
  {
    NextInEra(y);
  }

  lemma CivilDay(y: int, mp: int, day: int)
    ensures Civil(y, mp, day).day == day
  {}

  lemma ValidMonth(x: Date)
    requires ValidDate(x)
    ensures 1 <= x.month <= 12
  {}

  lemma {:induction false} YearStartGrows(a: int, b: int)
    requires 0 <= a < b
    ensures YearStart(a) + 365 <= YearStart(a + 1) <= YearStart(b)
    decreases b - a
  {
    if a + 1 < b {
      YearGrows(b - 1);
      YearStartGrows(a, b - 1);
    }
    YearGrows(a);
    hide YearStart;
  }

  lemma YearGrows(y: int)
    requires y >= 0
    ensures YearStart(y) + 365 <= YearStart(y + 1)
  {
    var q, h := y / 4, y / 100;
    if (y + 1) % 100 == 0 {
      assert (y + 1) % 4 == 0 by { Floor(y + 1, 4, 25 * (h + 1), 0); }
    }
  }

  lemma SameYear(a: int, b: int, doe: int)
    requires 0 <= a < 400 && 0 <= b < 400
    requires YearStart(a) <= doe < YearEnd(a) && YearStart(b) <= doe < YearEnd(b)
    ensures a == b
  {
    hide YearStart;
    if a < b {
      YearStartGrows(a, b);
    } else if b < a {
      YearStartGrows(b, a);
    }
  }

  /** A date lies in its year of the era and its month of the year. */
  lemma DateInYear(x: Date)
    requires ValidDate(x)
    ensures var y, mp, doy := MarchYear(x) % 400, MarchMonth(x), MonthStart(MarchMonth(x)) + x.day - 1;
            && 0 <= doy < YearEnd(y) - YearStart(y)
            && (5 * doy + 2) / 153 == mp
            && Civil(MarchYear(x), mp, x.day) == x
  {
    var y := MarchYear(x);
    YearLength(y % 400);
    NextInEra(y);
    hide LeapYear, YearStart, YearEnd;
  }

  /** Every date of the calendar is that of the day number it is turned into. */
  lemma DateBack(x: Date)
    requires ValidDate(x)
    ensures CivilFromDays(DaysFromCivil(x)) == x
  {
    hide *;
    var days := DaysFromCivil(x);
    var y := MarchYear(x);
    var doy := MonthStart(MarchMonth(x)) + x.day - 1;
    ValidMonth(x);
    DaysByYear(x);
    DateInYear(x);
    var doe := YearStart(y % 400) + doy;
    assert 0 <= doe < 146097 by {
      InEra(y % 400, doe);
    }
    Floor(days + 719468, 146097, y / 400, doe);
    CivilParts(days);
    YearOfEraIs(doe);
    SameYear(YearOfEra(doe), y % 400, doe);
  }

  lemma InEra(y: int, doe: int)
    requires 0 <= y < 400 && YearStart(y) <= doe < YearEnd(y)
    ensures 0 <= doe < 146097
  {}
}
