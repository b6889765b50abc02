/**
 Civil dates and day numbers (suite/external/date/date.h): the era arithmetic both ways. Years are
 unbounded integers; every division is the C++ one.

 A day of an era of 400 years that start in March is found from its century, its group of four years, its
 place in the group and the day of that year (`YearParts`, `DayNumber`); both conversions are shown to go
 through these parts. The calendar's own rule for the next day (`NextDay`) is the independent reference.
 */
module Calendar {

  /** C++ division: towards zero. */
  function CDiv(a: int, b: int): int
    requires b > 0
  {
    if a >= 0 then a / b else -(-a / b)
  }

  datatype Date = Date(year: int, month: int, day: int)

  predicate IsLeap(y: int) { y % 4 == 0 && (y % 100 != 0 || y % 400 == 0) }

  /** Length of a month of the proleptic Gregorian calendar. */
  function LastDay(y: int, m: int): int
    requires 1 <= m <= 12
  {
    if m == 2 then if IsLeap(y) then 29 else 28
    else if m == 4 || m == 6 || m == 9 || m == 11 then 30
    else 31
  }

  predicate Ok(x: Date) { 1 <= x.month <= 12 && 1 <= x.day <= LastDay(x.year, x.month) }

  /** `operator<` */
  predicate Before(x: Date, y: Date) {
    x.year < y.year || (x.year == y.year && (x.month < y.month || (x.month == y.month && x.day < y.day)))
  }

  function MonthIndex(m: int): int { if m > 2 then m - 3 else m + 9 }

  /** Days before a month, months counted from March. */
  function MonthStart(mp: int): int { (153 * mp + 2) / 5 }

  /** Days before a year of an era. */
  function YearStart(yoe: int): int { yoe * 365 + yoe / 4 - yoe / 100 }

  /** `year_month_day::to_days` */
  function ToDays(x: Date): int {
    var y := x.year - (if x.month <= 2 then 1 else 0);
    var era := CDiv(if y >= 0 then y else y - 399, 400);
    var yoe := y - era * 400;
    var doy := MonthStart(MonthIndex(x.month)) + x.day - 1;
    var doe := YearStart(yoe) + doy;
    era * 146097 + doe - 719468
  }

  function YearOfEra(doe: int): int { (doe - doe / 1460 + doe / 36524 - doe / 146096) / 365 }

  /** The date of a day of a year that starts in March. */
  function FromYear(y: int, doy: int): Date {
    var mp := (5 * doy + 2) / 153;
    var d := doy - MonthStart(mp) + 1;
    var m := if mp < 10 then mp + 3 else mp - 9;
    Date(y + (if m <= 2 then 1 else 0), m, d)
  }

  /** The date of a day of an era. */
  function FromEra(era: int, doe: int): Date {
    var yoe := YearOfEra(doe);
    FromYear(yoe + era * 400, doe - YearStart(yoe))
  }

  /** `year_month_day::from_days` */
  function FromDays(days: int): Date {
    var z := days + 719468;
    var era := CDiv(if z >= 0 then z else z - 146096, 146097);
    FromEra(era, z - era * 146097)
  }

  /** The day after, by the calendar's own rules. */
  function NextDay(x: Date): Date
    requires Ok(x)
  {
    if x.day < LastDay(x.year, x.month) then x.(day := x.day + 1)
    else if x.month < 12 then Date(x.year, x.month + 1, 1)
    else Date(x.year + 1, 1, 1)
  }

  lemma {:induction false} EraFloors(y: int)
    ensures CDiv(if y >= 0 then y else y - 399, 400) == y / 400
    ensures CDiv(if y >= 0 then y else y - 146096, 146097) == y / 146097
  {
  }

  // ---- inside an era of 400 years that start in March ----

  /** Days before a year of the era: its century, its group of four years, its place in the group. */
  function DaysBefore(c: int, q: int, r: int): int { 36524 * c + 1461 * q + 365 * r }

  predicate YearParts(c: int, q: int, r: int) { 0 <= c < 4 && 0 <= q < 25 && 0 <= r < 4 }

  /** Whether the February at the end of the year has 29 days. */
  predicate LongYear(c: int, q: int, r: int) { r == 3 && (q < 24 || c == 3) }

  lemma {:induction false} YearDays(c: int, q: int, r: int)
    requires YearParts(c, q, r)
    ensures YearStart(100 * c + 4 * q + r) == DaysBefore(c, q, r)
  {
    var yoe := 100 * c + 4 * q + r;
    assert yoe / 4 == 25 * c + q;
    assert yoe / 100 == c;
  }

  lemma {:induction false} Remainder4(k: int, m: int)
    requires 0 <= m < 4
    ensures (4 * k + m) % 4 == m
  {
  }

  lemma {:induction false} Remainder100(k: int, m: int)
    requires 0 <= m < 100
    ensures (100 * k + m) % 100 == m
  {
  }

  lemma {:induction false} Remainder400(k: int, m: int)
    requires 0 <= m < 400
    ensures (400 * k + m) % 400 == m
  {
  }

  lemma {:induction false} LongIsLeap(era: int, c: int, q: int, r: int)
    requires YearParts(c, q, r)
    ensures IsLeap(400 * era + 100 * c + 4 * q + r + 1) <==> LongYear(c, q, r)
  {
    var y := 400 * era + 100 * c + 4 * q + r + 1;
    if r < 3 {
      Remainder4(100 * era + 25 * c + q, r + 1);
    } else {
      Remainder4(100 * era + 25 * c + q + 1, 0);
      if q < 24 {
        Remainder100(4 * era + c, 4 * q + 4);
      } else {
        Remainder100(4 * era + c + 1, 0);
        if c < 3 { Remainder400(era, 100 * c + 100); } else { Remainder400(era + 1, 0); }
      }
    }
  }

  /** The year is found from the day, on each day of it. */
  lemma {:induction false} YearFound(c: int, q: int, r: int, doy: int)
    requires YearParts(c, q, r) && 0 <= doy < 366 && (doy == 365 ==> LongYear(c, q, r))
    ensures 0 <= DaysBefore(c, q, r) + doy < 146097
    ensures YearOfEra(DaysBefore(c, q, r) + doy) == 100 * c + 4 * q + r
  {
    var doe := DaysBefore(c, q, r) + doy;
    var rest := 24 * c + q + 365 * r + doy;
    assert doe == 1460 * (25 * c + q) + rest;
    assert doe / 1460 == 25 * c + q + rest / 1460;
    var yoe := 100 * c + 4 * q + r;
    var e := rest / 1460;
    if doe == 146096 {
      assert YearOfEra(doe) == 399;
    } else {
      assert doe / 146096 == 0;
      assert doe / 36524 == c;
      assert doe - doe / 1460 + doe / 36524 == 365 * yoe + doy - e;
      assert 0 <= doy - e < 365;
    }
  }

  /** Every day of the era lies in one of its years. */
  lemma {:induction false} DayHasYear(doe: int) returns (c: int, q: int, r: int, doy: int)
    requires 0 <= doe < 146097
    ensures YearParts(c, q, r) && 0 <= doy < 366 && (doy == 365 ==> LongYear(c, q, r))
    ensures doe == DaysBefore(c, q, r) + doy
  {
    c := if doe / 36524 == 4 then 3 else doe / 36524;
    var doc := doe - 36524 * c;
    q := doc / 1461;
    var doq := doc - 1461 * q;
    r := if doq / 365 == 4 then 3 else doq / 365;
    doy := doq - 365 * r;
  }

  lemma {:induction false} YearHasParts(y: int) returns (era: int, c: int, q: int, r: int)
    ensures YearParts(c, q, r) && y == 400 * era + 100 * c + 4 * q + r && era == y / 400
  {
    era := y / 400;
    var yoe := y % 400;
    c := yoe / 100;
    q := yoe % 100 / 4;
    r := yoe % 4;
    assert yoe % 100 % 4 == r;
  }

  // ---- months, counted from March ----

  lemma {:induction false} MonthFound(mp: int, d: int)
    requires 0 <= mp < 12 && 1 <= d
    requires if mp < 11 then MonthStart(mp) + d - 1 < MonthStart(mp + 1) else d <= 29
    ensures (5 * (MonthStart(mp) + d - 1) + 2) / 153 == mp
  {
  }

  lemma {:induction false} DayHasMonth(doy: int)
    requires 0 <= doy < 366
    ensures var mp := (5 * doy + 2) / 153;
      && 0 <= mp < 12 && MonthStart(mp) <= doy && (mp < 11 ==> doy < MonthStart(mp + 1))
  {
  }

  function MonthNumber(mp: int): int { if mp < 10 then mp + 3 else mp - 9 }

  /** The calendar's month lengths are the steps of `MonthStart`, but for February. */
  lemma {:induction false} MonthLength(x: Date)
    requires 1 <= x.month <= 12
    ensures var mp := MonthIndex(x.month);
      && 0 <= mp < 12 && MonthNumber(mp) == x.month
      && (if mp < 11 then LastDay(x.year, x.month) == MonthStart(mp + 1) - MonthStart(mp)
          else LastDay(x.year, x.month) == if IsLeap(x.year) then 29 else 28)
  {
  }

  function DayNumber(era: int, c: int, q: int, r: int, doy: int): int {
    146097 * era + DaysBefore(c, q, r) + doy - 719468
  }

  function MarchYear(x: Date): int { x.year - (if x.month <= 2 then 1 else 0) }

  function DayOfYear(x: Date): int { MonthStart(MonthIndex(x.month)) + x.day - 1 }

  lemma {:induction false} ToDaysParts(x: Date) returns (era: int, c: int, q: int, r: int)
    requires Ok(x)
    ensures YearParts(c, q, r) && MarchYear(x) == 400 * era + 100 * c + 4 * q + r
    ensures 0 <= DayOfYear(x) < 366 && (DayOfYear(x) == 365 ==> LongYear(c, q, r))
    ensures ToDays(x) == DayNumber(era, c, q, r, DayOfYear(x))
  {
    var y := MarchYear(x);
    era, c, q, r := YearHasParts(y);
    EraFloors(y);
    YearDays(c, q, r);
    MonthLength(x);
    LongIsLeap(era, c, q, r);
    if MonthIndex(x.month) < 11 {
      assert MonthStart(MonthIndex(x.month) + 1) <= MonthStart(11);
    } else {
      assert x.year == y + 1;
    }
  }

  lemma {:induction false} EraFound(era: int, doe: int)
    requires 0 <= doe < 146097
    ensures var z := 146097 * era + doe;
      CDiv(if z >= 0 then z else z - 146096, 146097) == era
  {
    EraFloors(146097 * era + doe);
  }

  lemma {:induction false} FromEraIs(era: int, doe: int, yoe: int)
    requires YearOfEra(doe) == yoe
    ensures FromEra(era, doe) == FromYear(400 * era + yoe, doe - YearStart(yoe))
  {
    hide YearOfEra, YearStart, FromYear;
  }

  lemma {:induction false} FromDaysParts(era: int, c: int, q: int, r: int, doy: int)
    requires YearParts(c, q, r) && 0 <= doy < 366 && (doy == 365 ==> LongYear(c, q, r))
    ensures FromDays(DayNumber(era, c, q, r, doy)) == FromYear(400 * era + 100 * c + 4 * q + r, doy)
  {
    hide YearOfEra, YearStart, DaysBefore, FromYear, FromEra, CDiv;
    var doe := DaysBefore(c, q, r) + doy;
    YearFound(c, q, r, doy);
    YearDays(c, q, r);
    EraFound(era, doe);
    var z := DayNumber(era, c, q, r, doy) + 719468;
    assert z == 146097 * era + doe;
    assert FromDays(DayNumber(era, c, q, r, doy)) == FromEra(era, doe);
    FromEraIs(era, doe, 100 * c + 4 * q + r);
  }

  /** The date found in a year is valid, lies in that year and on that day of it. */
  lemma {:induction false} FromYearOk(era: int, c: int, q: int, r: int, doy: int)
    requires YearParts(c, q, r) && 0 <= doy < 366 && (doy == 365 ==> LongYear(c, q, r))
    ensures var y := 400 * era + 100 * c + 4 * q + r;
      var x := FromYear(y, doy);
      Ok(x) && MarchYear(x) == y && DayOfYear(x) == doy
  {
    var y := 400 * era + 100 * c + 4 * q + r;
    var x := FromYear(y, doy);
    DayHasMonth(doy);
    MonthLength(x);
    LongIsLeap(era, c, q, r);
  }

  lemma {:induction false} FromYearOfDate(x: Date)
    requires Ok(x)
    ensures FromYear(MarchYear(x), DayOfYear(x)) == x
  {
    MonthLength(x);
    MonthFound(MonthIndex(x.month), x.day);
  }

  // ---- the two conversions are inverse to each other ----

  /** Every day number is a valid civil date, and that date has this day number. */
  lemma {:induction false} DaysRoundTrip(z: int)
    ensures ToDays(FromDays(z)) == z && Ok(FromDays(z))
  {
    var era := (z + 719468) / 146097;
    var c, q, r, doy := DayHasYear((z + 719468) % 146097);
    assert z == DayNumber(era, c, q, r, doy);
    FromDaysParts(era, c, q, r, doy);
    FromYearOk(era, c, q, r, doy);
    var era', c', q', r' := ToDaysParts(FromDays(z));
    SameYear(era, c, q, r, era', c', q', r');
  }

  /** Every valid civil date is found again from its day number. */
  lemma {:induction false} DateRoundTrip(x: Date)
    requires Ok(x)
    ensures FromDays(ToDays(x)) == x
  {
    hide Ok, ToDays, FromDays, FromYear, DayOfYear, MarchYear, DayNumber;
    var era, c, q, r := ToDaysParts(x);
    FromDaysParts(era, c, q, r, DayOfYear(x));
    FromYearOfDate(x);
  }

  /** The next day is the next day of the same year, or the first day after the last one. */
  lemma {:induction false} NextDayInYear(x: Date)
    requires Ok(x)
    ensures var n := NextDay(x);
      && Ok(n)
      && (MarchYear(n) == MarchYear(x) || MarchYear(n) == MarchYear(x) + 1)
      && (MarchYear(n) == MarchYear(x) ==> DayOfYear(n) == DayOfYear(x) + 1)
      && (MarchYear(n) != MarchYear(x) ==>
        DayOfYear(n) == 0 && DayOfYear(x) == if IsLeap(MarchYear(x) + 1) then 365 else 364)
  {
    MonthLength(x);
    MonthLength(NextDay(x));
  }

  /** The day number counts days: one more for the next day of the calendar, none at the start of 1970. */
  lemma {:induction false} NextDayNumber(x: Date)
    requires Ok(x)
    ensures Ok(NextDay(x)) && ToDays(NextDay(x)) == ToDays(x) + 1
    ensures ToDays(Date(1970, 1, 1)) == 0
  {
    NextDayInYear(x);
    Epoch();
    hide ToDays, NextDay, IsLeap, MarchYear, DayOfYear, Ok;
    var n := NextDay(x);
    var era, c, q, r := ToDaysParts(x);
    var era', c', q', r' := ToDaysParts(n);
    if MarchYear(n) == MarchYear(x) {
      SameYear(era, c, q, r, era', c', q', r');
    } else {
      LongIsLeap(era, c, q, r);
      YearStep(era, c, q, r, era', c', q', r');
    }
  }

  lemma {:induction false} Epoch()
    ensures ToDays(Date(1970, 1, 1)) == 0
  {
  }

  lemma {:induction false} SameYear(era: int, c: int, q: int, r: int, era': int, c': int, q': int, r': int)
    requires YearParts(c, q, r) && YearParts(c', q', r')
    requires 400 * era + 100 * c + 4 * q + r == 400 * era' + 100 * c' + 4 * q' + r'
    ensures era == era' && c == c' && q == q' && r == r'
  {
    assert era == era';
    assert c == c';
    assert q == q';
  }

  function NextParts(era: int, c: int, q: int, r: int): (int, int, int, int) {
    if r < 3 then (era, c, q, r + 1)
    else if q < 24 then (era, c, q + 1, 0)
    else if c < 3 then (era, c + 1, 0, 0)
    else (era + 1, 0, 0, 0)
  }

  /** A year that starts in March has 365 days, or 366 before a leap February. */
  lemma {:induction false} YearStep(era: int, c: int, q: int, r: int, era': int, c': int, q': int, r': int)
    requires YearParts(c, q, r) && YearParts(c', q', r')
    requires 400 * era + 100 * c + 4 * q + r + 1 == 400 * era' + 100 * c' + 4 * q' + r'
    ensures DayNumber(era', c', q', r', 0) == DayNumber(era, c, q, r, 0) + (if LongYear(c, q, r) then 366 else 365)
  {
    var n := NextParts(era, c, q, r);
    SameYear(n.0, n.1, n.2, n.3, era', c', q', r');
    assert DayNumber(n.0, n.1, n.2, n.3, 0) == DayNumber(era, c, q, r, 0) + (if LongYear(c, q, r) then 366 else 365);
  }

  /** The date `n` days later, by the calendar's own rules. */
  function Later(x: Date, n: nat): (y: Date)
    requires Ok(x)
    ensures Ok(y)
  {
    if n == 0 then x else NextDay(Later(x, n - 1))
  }

  lemma {:induction false} LaterNumber(x: Date, n: nat)
    requires Ok(x)
    ensures ToDays(Later(x, n)) == ToDays(x) + n
  {
    if n > 0 {
      hide ToDays, Ok, NextDay;
      LaterNumber(x, n - 1);
      NextDayNumber(Later(x, n - 1));
    }
  }

  lemma {:induction false} LaterIsAfter(x: Date, n: nat)
    requires Ok(x) && n > 0
    ensures Before(x, Later(x, n))
  {
    if n > 1 { LaterIsAfter(x, n - 1); }
  }

  lemma {:induction false} LaterReaches(x: Date, y: Date)
    requires Ok(x) && Ok(y) && ToDays(x) < ToDays(y)
    ensures Before(x, y)
  {
    hide FromDays, ToDays;
    var n := ToDays(y) - ToDays(x);
    LaterNumber(x, n);
    DateRoundTrip(Later(x, n));
    DateRoundTrip(y);
    LaterIsAfter(x, n);
  }

  /** The order of dates is the order of their day numbers. */
  lemma {:induction false} OrderAgrees(x: Date, y: Date)
    requires Ok(x) && Ok(y)
    ensures Before(x, y) <==> ToDays(x) < ToDays(y)
  {
    hide FromDays, ToDays, Ok;
    DateRoundTrip(x);
    DateRoundTrip(y);
    if ToDays(x) < ToDays(y) {
      LaterReaches(x, y);
    } else if ToDays(y) < ToDays(x) {
      LaterReaches(y, x);
    }
  }
}
