/**
 Weekdays, dates given as the n-th weekday of a month, and month arithmetic
 (suite/external/date/date.h).

 The machine types that matter are written out: day numbers are 32-bit, the weekday and the month
 difference go through `unsigned`. Years and the other numbers are unbounded.
 */
module CalendarFields {
  import opened Calendar

  const TWO32: int := 0x1_0000_0000

  predicate IsInt32(z: int) { -0x8000_0000 <= z < 0x8000_0000 }

  /** Conversion to `unsigned`. */
  function ToUnsigned(z: int): int { z % TWO32 }

  /** Conversion from `unsigned` to `int`. */
  function ToSigned(u: int): int { if u < 0x8000_0000 then u else u - TWO32 }

  /** `weekday::weekday_from_days`; Sunday is 0. */
  function WeekdayFromDays(z: int): int {
    var u := ToUnsigned(z);
    if z >= -4 then ToUnsigned(u + 4) % 7 else u % 7
  }

  /** In spite of the unsigned wrap-around, day 0 is a Thursday and weekdays repeat every seven days
      in both directions. */
  lemma {:induction false} WeekdayIs(z: int)
    requires IsInt32(z)
    ensures WeekdayFromDays(z) == (z + 4) % 7
  {
    var u := ToUnsigned(z);
    if z >= 0 {
      assert u == z;
    } else {
      assert u == z + TWO32;
      if z >= -4 {
        assert u + 4 == TWO32 + (z + 4);
        assert ToUnsigned(u + 4) == z + 4;
      } else {
        assert u == (z + 4) + 7 * 613566756;
      }
    }
  }

  /** `weekday - weekday`: the days from y forward to x. */
  function WeekdayDiff(x: int, y: int): int {
    var wdu := x - y;
    var wk := CDiv(if wdu >= 0 then wdu else wdu - 6, 7);
    wdu - wk * 7
  }

  lemma {:induction false} WeekdayDiffIs(x: int, y: int)
    ensures 0 <= WeekdayDiff(x, y) < 7 && (y + WeekdayDiff(x, y)) % 7 == x % 7
  {
    var wdu := x - y;
    assert CDiv(if wdu >= 0 then wdu else wdu - 6, 7) == wdu / 7;
    assert WeekdayDiff(x, y) == wdu % 7;
  }

  /** The `index`-th `weekday` of a month. */
  datatype NthWeekday = NthWeekday(year: int, month: int, weekday: int, index: int)

  function FirstOfMonth(year: int, month: int): int { ToDays(Date(year, month, 1)) }

  /** `year_month_weekday::to_days` */
  function NthToDays(x: NthWeekday): int {
    var d := FirstOfMonth(x.year, x.month);
    d + WeekdayDiff(x.weekday, WeekdayFromDays(d)) + (x.index - 1) * 7
  }

  /** `year_month_weekday::from_days` */
  function NthFromDays(z: int): NthWeekday {
    var wd := WeekdayFromDays(z);
    var ymd := FromDays(z);
    NthWeekday(ymd.year, ymd.month, wd, (ymd.day - 1) / 7 + 1)
  }

  /** `year_month_weekday::ok`, the year apart. */
  predicate NthOk(x: NthWeekday) {
    && 1 <= x.month <= 12 && 0 <= x.weekday <= 6 && x.index >= 1
    && (x.index <= 4 ||
        WeekdayDiff(x.weekday, WeekdayFromDays(FirstOfMonth(x.year, x.month))) + (x.index - 1) * 7 + 1
          <= LastDay(x.year, x.month))
  }

  /** Days of one month are numbered one after the other. */
  lemma {:induction false} DaysOfMonth(year: int, month: int, day: int)
    requires 1 <= month <= 12
    ensures ToDays(Date(year, month, day)) == FirstOfMonth(year, month) + day - 1
  {
  }

  /** Every day number is found again from its month, weekday and index. */
  lemma {:induction false} NthDaysRoundTrip(z: int)
    requires IsInt32(z) && IsInt32(FirstOfMonth(FromDays(z).year, FromDays(z).month))
    ensures NthOk(NthFromDays(z)) && NthToDays(NthFromDays(z)) == z
  {
    hide ToDays, FromDays, LastDay, WeekdayFromDays, WeekdayDiff;
    DaysRoundTrip(z);
    var x := FromDays(z);
    var first := FirstOfMonth(x.year, x.month);
    OkDay(x);
    DaysOfMonth(x.year, x.month, x.day);
    WeekdayIs(z);
    WeekdayIs(first);
    WeekdayDiffIs(WeekdayFromDays(z), WeekdayFromDays(first));
    NthDay(first, x.day, WeekdayDiff(WeekdayFromDays(z), WeekdayFromDays(first)));
  }

  lemma {:induction false} OkDay(x: Date)
    requires Ok(x)
    ensures 1 <= x.month <= 12 && 1 <= x.day <= LastDay(x.year, x.month) && x == Date(x.year, x.month, x.day)
  {
  }

  /** The offset of a day in its month is the weekday's offset and whole weeks. */
  lemma {:induction false} NthDay(first: int, day: int, diff: int)
    requires 1 <= day && 0 <= diff < 7
    requires ((first + 4) % 7 + diff) % 7 == (first + day - 1 + 4) % 7 % 7
    ensures day - 1 == diff + (day - 1) / 7 * 7
  {
    assert (day - 1) % 7 == diff by {
      var a, b := first + 4, day - 1;
      assert (a % 7 + diff) % 7 == (a + diff) % 7;
      SameRemainder(a, diff, b);
    }
  }

  lemma {:induction false} SameRemainder(a: int, x: int, y: int)
    requires (a + x) % 7 == (a + y) % 7 && 0 <= x < 7
    ensures y % 7 == x
  {
  }

  /** A month, weekday and index are found again from their day number exactly when the month has
      such a day. */
  lemma {:induction false} NthRoundTrip(x: NthWeekday)
    requires 1 <= x.month <= 12 && 0 <= x.weekday <= 6 && 1 <= x.index
    requires IsInt32(FirstOfMonth(x.year, x.month)) && IsInt32(NthToDays(x))
    ensures NthFromDays(NthToDays(x)) == x <==> NthOk(x)
  {
    hide ToDays, FromDays, LastDay, WeekdayFromDays, WeekdayDiff;
    var first := FirstOfMonth(x.year, x.month);
    var z := NthToDays(x);
    var diff := WeekdayDiff(x.weekday, WeekdayFromDays(first));
    WeekdayIs(first);
    WeekdayIs(z);
    WeekdayDiffIs(x.weekday, WeekdayFromDays(first));
    var day := z - first + 1;
    var date := Date(x.year, x.month, day);
    DaysOfMonth(x.year, x.month, day);
    LastDayBounds(x.year, x.month);
    if NthOk(x) {
      assert Ok(date);
      DateRoundTrip(date);
      NthWeekdayIs(first, diff, x.index, x.weekday);
    } else {
      assert day > LastDay(x.year, x.month);
      DaysRoundTrip(z);
      if NthFromDays(z) == x {
        var y := FromDays(z);
        OkDay(y);
        DaysOfMonth(y.year, y.month, y.day);
        assert false;
      }
    }
  }

  lemma {:induction false} LastDayBounds(y: int, m: int)
    requires 1 <= m <= 12
    ensures 28 <= LastDay(y, m) <= 31
  {
  }

  lemma {:induction false} NthWeekdayIs(first: int, diff: int, index: int, weekday: int)
    requires 0 <= diff < 7 && 0 <= weekday < 7 && ((first + 4) % 7 + diff) % 7 == weekday % 7
    ensures (first + diff + (index - 1) * 7 + 4) % 7 == weekday && (diff + (index - 1) * 7) / 7 + 1 == index
  {
  }

  // ---- months ----

  datatype YearMonth = YearMonth(year: int, month: int)

  /** `year_month + months` */
  function AddMonths(ym: YearMonth, dm: int): YearMonth {
    var dmi := ym.month - 1 + dm;
    var dy := CDiv(if dmi >= 0 then dmi else dmi - 11, 12);
    YearMonth(ym.year + dy, dmi - dy * 12 + 1)
  }

  /** `year_month - year_month`; the months are subtracted as `unsigned`. */
  function MonthsBetween(x: YearMonth, y: YearMonth): int {
    (x.year - y.year) * 12 + ToSigned(ToUnsigned(x.month - y.month))
  }

  /** Months from the start of year 0. */
  function Serial(ym: YearMonth): int { 12 * ym.year + ym.month - 1 }

  lemma {:induction false} AddMonthsSerial(ym: YearMonth, dm: int)
    ensures 1 <= AddMonths(ym, dm).month <= 12 && Serial(AddMonths(ym, dm)) == Serial(ym) + dm
  {
    var dmi := ym.month - 1 + dm;
    assert CDiv(if dmi >= 0 then dmi else dmi - 11, 12) == dmi / 12;
  }

  lemma {:induction false} SerialUnique(x: YearMonth, y: YearMonth)
    requires 1 <= x.month <= 12 && 1 <= y.month <= 12 && Serial(x) == Serial(y)
    ensures x == y
  {
  }

  /** Adding months is an action of the integers on valid months, and subtraction is its inverse. */
  lemma {:induction false} MonthAction(x: YearMonth, y: YearMonth, a: int, b: int)
    requires 1 <= x.month <= 12 && 1 <= y.month <= 12
    ensures AddMonths(x, 0) == x
    ensures AddMonths(AddMonths(x, a), b) == AddMonths(x, a + b)
    ensures AddMonths(y, MonthsBetween(x, y)) == x
    ensures MonthsBetween(AddMonths(x, a), x) == a
  {
    hide AddMonths;
    AddMonthsSerial(x, 0);
    AddMonthsSerial(x, a);
    AddMonthsSerial(AddMonths(x, a), b);
    AddMonthsSerial(x, a + b);
    AddMonthsSerial(y, MonthsBetween(x, y));
    SerialUnique(AddMonths(x, 0), x);
    SerialUnique(AddMonths(AddMonths(x, a), b), AddMonths(x, a + b));
    SerialUnique(AddMonths(y, MonthsBetween(x, y)), x);
  }
}
