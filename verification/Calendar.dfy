/**
 The proleptic Gregorian calendar as section 21.4.1 of ECMA-262 computes with it:
 time values in milliseconds, days counted from 1970-01-01.
 */
module Calendar {

  const MS_PER_MINUTE := 60000
  const MS_PER_HOUR := 3600000
  const MS_PER_DAY := 86400000

  predicate Leap(y: int) {
    y % 4 == 0 && (y % 100 != 0 || y % 400 == 0)
  }

  function DaysInMonth(y: int, month: int): int
    requires 1 <= month <= 12
  {
    if month == 2 then (if Leap(y) then 29 else 28)
    else if month in {4, 6, 9, 11} then 30
    else 31
  }

  /** A date that exists in the calendar. */
  predicate RealDate(y: int, month: int, day: int) {
    1 <= month <= 12 && 1 <= day <= DaysInMonth(y, month)
  }

  /** The number of the first day of a year. */
  function DayFromYear(y: int): int {
    365 * (y - 1970) + (y - 1969) / 4 - (y - 1901) / 100 + (y - 1601) / 400
  }

  /** The closed form counts 365 days a year and 366 in a leap year. */
  lemma YearLength(y: int)
    ensures DayFromYear(1970) == 0
    ensures DayFromYear(y + 1) == DayFromYear(y) + (if Leap(y) then 366 else 365)
  {
    Quarter(y);
    Century(y);
    FourCenturies(y);
    Nested(y);
  }

  lemma Quarter(y: int)
    ensures (y + 1 - 1969) / 4 == (y - 1969) / 4 + (if y % 4 == 0 then 1 else 0)
  {
  }

  lemma Century(y: int)
    ensures (y + 1 - 1901) / 100 == (y - 1901) / 100 + (if y % 100 == 0 then 1 else 0)
  {
  }

  lemma FourCenturies(y: int)
    ensures (y + 1 - 1601) / 400 == (y - 1601) / 400 + (if y % 400 == 0 then 1 else 0)
  {
  }

  lemma Nested(y: int)
    ensures y % 400 == 0 ==> y % 100 == 0
    ensures y % 100 == 0 ==> y % 4 == 0
  {
  }

  lemma {:induction false} YearsGrow(a: int, b: int)
    requires a <= b
    ensures DayFromYear(a) + 365 * (b - a) <= DayFromYear(b)
    decreases b - a
  {
    if a < b {
      YearsGrow(a, b - 1);
      YearLength(b - 1);
    }
  }

  /** The year a day lies in: the largest year that does not start after the day. */
  function YearFromDay(d: int): (y: int)
    ensures DayFromYear(y) <= d < DayFromYear(y + 1)
  {
    var g := 1970 + d * 400 / 146097;
    GuessIsClose(d, g);
    if DayFromYear(g) > d then g - 1 else if DayFromYear(g + 1) <= d then g + 1 else g
  }

  lemma GuessIsClose(d: int, g: int)
    requires g == 1970 + d * 400 / 146097
    ensures DayFromYear(g - 1) <= d < DayFromYear(g + 2)
  {
    assert 146097 * (g - 1970) <= d * 400 < 146097 * (g - 1969);
    YearBounds(g - 1);
    YearBounds(g + 2);
  }

  lemma YearBounds(y: int)
    ensures 146097 * (y - 1970) - 1500 <= 400 * DayFromYear(y) <= 146097 * (y - 1970) + 1500
  {
    var a, b, c := (y - 1969) / 4, (y - 1901) / 100, (y - 1601) / 400;
    assert 4 * a <= y - 1969 <= 4 * a + 3;
    assert 100 * b <= y - 1901 <= 100 * b + 99;
    assert 400 * c <= y - 1601 <= 400 * c + 399;
  }

  lemma YearUnique(d: int, y: int)
    requires DayFromYear(y) <= d < DayFromYear(y + 1)
    ensures YearFromDay(d) == y
  {
    var z := YearFromDay(d);
    if z < y {
      YearsGrow(z + 1, y);
    } else if y < z {
      YearsGrow(y + 1, z);
    }
  }

  /** Days of the year in front of a month. */
  function MonthStart(y: int, month: int): int
    requires 1 <= month <= 13
  {
    if month == 1 then 0 else MonthStart(y, month - 1) + DaysInMonth(y, month - 1)
  }

  /** The month a day of the year lies in, searched from month `from`. */
  function MonthFromDay(y: int, dayOfYear: int, from: int): (month: int)
    requires 1 <= from <= 12 && MonthStart(y, from) <= dayOfYear < MonthStart(y, 13)
    ensures from <= month <= 12 && MonthStart(y, month) <= dayOfYear < MonthStart(y, month + 1)
    decreases 12 - from
  {
    if from == 12 || dayOfYear < MonthStart(y, from + 1) then from
    else MonthFromDay(y, dayOfYear, from + 1)
  }

  lemma MonthsGrow(y: int, a: int, b: int)
    requires 1 <= a <= b <= 13
    ensures MonthStart(y, a) <= MonthStart(y, b)
    decreases b - a
  {
    if a < b {
      MonthsGrow(y, a, b - 1);
    }
  }

  lemma YearIsItsMonths(y: int)
    ensures MonthStart(y, 13) == DayFromYear(y + 1) - DayFromYear(y)
  {
    YearLength(y);
    assert MonthStart(y, 2) == 31;
    assert MonthStart(y, 3) == 59 + (if Leap(y) then 1 else 0);
    assert MonthStart(y, 5) == 120 + (if Leap(y) then 1 else 0);
    assert MonthStart(y, 7) == 181 + (if Leap(y) then 1 else 0);
    assert MonthStart(y, 9) == 243 + (if Leap(y) then 1 else 0);
    assert MonthStart(y, 11) == 304 + (if Leap(y) then 1 else 0);
  }

  datatype Date = Date(year: int, month: int, day: int)

  /** The calendar date of a day number (YearFromTime, MonthFromTime, DateFromTime). */
  function DateOfDay(d: int): (date: Date)
    ensures RealDate(date.year, date.month, date.day)
  {
    var y := YearFromDay(d);
    YearIsItsMonths(y);
    var month := MonthFromDay(y, d - DayFromYear(y), 1);
    Date(y, month, d - DayFromYear(y) - MonthStart(y, month) + 1)
  }

  /** The day number of year, month index and date, each of which may overflow into the
      next larger field (MakeDay). */
  function MakeDay(year: int, monthIndex: int, date: int): int {
    var y, m := year + monthIndex / 12, monthIndex % 12 + 1;
    DayFromYear(y) + MonthStart(y, m) + date - 1
  }

  function MakeTime(hour: int, minute: int): int {
    hour * MS_PER_HOUR + minute * MS_PER_MINUTE
  }

  function MakeDate(day: int, time: int): int {
    day * MS_PER_DAY + time
  }

  /** Reading a day number back gives the date it was made from, for every date that exists. */
  lemma DateOfMadeDay(y: int, month: int, day: int)
    requires RealDate(y, month, day)
    ensures DateOfDay(MakeDay(y, month - 1, day)) == Date(y, month, day)
  {
    hide DayFromYear, MonthStart, DaysInMonth;
    var d, n := MakeDay(y, month - 1, day), MonthStart(y, month) + day - 1;
    assert (month - 1) / 12 == 0 && (month - 1) % 12 == month - 1;
    assert d == DayFromYear(y) + n;
    DayInsideYear(y, month, day);
    YearUnique(d, y);
    MonthUnique(y, month, n);
  }

  lemma DayInsideYear(y: int, month: int, day: int)
    requires RealDate(y, month, day)
    ensures var n := MonthStart(y, month) + day - 1;
      && MonthStart(y, 1) == 0 <= n < DayFromYear(y + 1) - DayFromYear(y) == MonthStart(y, 13)
      && MonthStart(y, month) <= n < MonthStart(y, month + 1)
  {
    hide DayFromYear;
    MonthsGrow(y, 1, month);
    MonthsGrow(y, month + 1, 13);
    YearIsItsMonths(y);
  }

  lemma MonthUnique(y: int, month: int, n: int)
    requires 1 <= month <= 12 && MonthStart(y, month) <= n < MonthStart(y, month + 1)
    requires MonthStart(y, 1) <= n < MonthStart(y, 13)
    ensures MonthFromDay(y, n, 1) == month
  {
    hide MonthStart;
    var m := MonthFromDay(y, n, 1);
    if m < month {
      MonthsGrow(y, m + 1, month);
    } else if month < m {
      MonthsGrow(y, month + 1, m);
    }
  }

  /** Making a day from the date read off a day number gives the number back. */
  lemma MadeDayOfDate(d: int)
    ensures var date := DateOfDay(d); MakeDay(date.year, date.month - 1, date.day) == d
  {
    hide DayFromYear, Leap, YearFromDay;
    var date := DateOfDay(d);
    assert (date.month - 1) / 12 == 0 && (date.month - 1) % 12 == date.month - 1;
  }

  /** The dates that exist, spelled out. */
  lemma RealDates(y: int, month: int, day: int)
    ensures RealDate(y, month, day) <==>
      && day >= 1
      && (|| (month in {1, 3, 5, 7, 8, 10, 12} && day <= 31)
          || (month in {4, 6, 9, 11} && day <= 30)
          || (month == 2 && day <= 28)
          || (month == 2 && day == 29 && (y % 400 == 0 || (y % 4 == 0 && y % 100 != 0))))
  {
    Nested(y);
  }

  /** The date of the day before, on the calendar sheet. */
  function DayBefore(date: Date): Date
    requires RealDate(date.year, date.month, date.day)
  {
    if date.day > 1 then Date(date.year, date.month, date.day - 1)
    else if date.month == 1 then Date(date.year - 1, 12, 31)
    else Date(date.year, date.month - 1, DaysInMonth(date.year, date.month - 1))
  }

  function DayAfter(date: Date): Date
    requires RealDate(date.year, date.month, date.day)
  {
    if date.day < DaysInMonth(date.year, date.month) then Date(date.year, date.month, date.day + 1)
    else if date.month == 12 then Date(date.year + 1, 1, 1)
    else Date(date.year, date.month + 1, 1)
  }

  function DayNumber(date: Date): int
    requires RealDate(date.year, date.month, date.day)
  {
    MakeDay(date.year, date.month - 1, date.day)
  }

  /** Days are numbered one after the other: the sheets of the calendar, through the ends of
      months, of leap Februaries and of years. */
  lemma DayNumbersFollow(date: Date)
    requires RealDate(date.year, date.month, date.day)
    ensures var next := DayAfter(date);
      RealDate(next.year, next.month, next.day) && DayNumber(next) == DayNumber(date) + 1 && DayBefore(next) == date
  {
    hide DayFromYear, Leap;
    var y, m := date.year, date.month;
    assert (m - 1) / 12 == 0 && (m - 1) % 12 == m - 1;
    var next := DayAfter(date);
    assert (next.month - 1) / 12 == 0 && (next.month - 1) % 12 == next.month - 1;
    if date.day == DaysInMonth(y, m) {
      if m == 12 {
        YearIsItsMonths(y);
        assert MonthStart(y, 13) == MonthStart(y, 12) + 31;
      } else {
        assert MonthStart(y, m + 1) == MonthStart(y, m) + DaysInMonth(y, m);
      }
    }
  }

  lemma DayBeforeFollows(date: Date)
    requires RealDate(date.year, date.month, date.day)
    ensures var before := DayBefore(date);
      RealDate(before.year, before.month, before.day) && DayAfter(before) == date
  {
  }

  // ---- Fields of a time value ----

  function Day(t: int): int {
    t / MS_PER_DAY
  }

  function HourOf(t: int): int {
    t / MS_PER_HOUR % 24
  }

  function MinuteOf(t: int): int {
    t / MS_PER_MINUTE % 60
  }

  lemma ClockOfMadeDate(day: int, hour: int, minute: int)
    requires 0 <= hour < 24 && 0 <= minute < 60
    ensures var t := MakeDate(day, MakeTime(hour, minute));
      Day(t) == day && HourOf(t) == hour && MinuteOf(t) == minute
  {
    var t := MakeDate(day, MakeTime(hour, minute));
    assert t == 86400000 * day + (3600000 * hour + 60000 * minute);
    assert t / MS_PER_HOUR == 24 * day + hour;
    assert t / MS_PER_MINUTE == 60 * (24 * day + hour) + minute;
  }

  /** A time value on a whole minute is made from its own fields. */
  lemma MadeDateOfClock(t: int)
    requires t % MS_PER_MINUTE == 0
    ensures t == MakeDate(Day(t), MakeTime(HourOf(t), MinuteOf(t)))
  {
    var m := t / MS_PER_MINUTE;
    assert t == MS_PER_MINUTE * m;
    assert t / MS_PER_HOUR == m / 60;
    assert Day(t) == m / 60 / 24;
  }
}
