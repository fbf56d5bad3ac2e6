/**
 * JavaScript's UTC calendar: the time value in milliseconds, and the getters and
 * setters the chart windows use. Days are counted from 1970-01-01; instants past
 * what a Date can hold are not excluded.
 */
module Calendar {
  import opened Arithmetic

  const MS_PER_DAY := 86_400_000

  // ---------- Years ----------

  predicate Leap(y: int) {
    y % 4 == 0 && (y % 100 != 0 || y % 400 == 0)
  }

  function YearLength(y: int): int {
    if Leap(y) then 366 else 365
  }

  /** The day number of January 1st. */
  function DayFromYear(y: int): int {
    365 * (y - 1970) + (y - 1969) / 4 - (y - 1901) / 100 + (y - 1601) / 400
  }

  lemma NextMultiple(x: int, m: int)
    requires m > 1
    ensures (x + 1) / m == x / m + if (x + 1) % m == 0 then 1 else 0
  {
    var q, r := x / m, x % m;
    if r + 1 < m {
      ModUnique(x + 1, m, q, r + 1);
    } else {
      assert x + 1 == (q + 1) * m + 0;
      ModUnique(x + 1, m, q + 1, 0);
    }
  }

  lemma YearAfter(y: int)
    ensures DayFromYear(y + 1) == DayFromYear(y) + YearLength(y)
  {
    NextMultiple(y - 1969, 4);
    NextMultiple(y - 1901, 100);
    NextMultiple(y - 1601, 400);
    SameResidue(y, y - 1968, 492, 4);
    SameResidue(y, y - 1900, 19, 100);
    SameResidue(y, y - 1600, 4, 400);
    Centuries(y);
  }

  lemma Centuries(y: int)
    ensures (y % 400 == 0 ==> y % 100 == 0) && (y % 100 == 0 ==> y % 4 == 0)
  {
    if y % 400 == 0 {
      ModUnique(y, 100, 4 * (y / 400), 0);
    }
    if y % 100 == 0 {
      ModUnique(y, 4, 25 * (y / 100), 0);
    }
  }

  function YearFrom(day: int, y: int): (r: int)
    requires DayFromYear(y) <= day
    ensures DayFromYear(r) <= day < DayFromYear(r + 1)
    decreases day - DayFromYear(y)
  {
    YearAfter(y);
    if day < DayFromYear(y + 1) then y else YearFrom(day, y + 1)
  }

  function YearUpTo(day: int, y: int): (r: int)
    requires day < DayFromYear(y + 1)
    ensures DayFromYear(r) <= day < DayFromYear(r + 1)
    decreases DayFromYear(y + 1) - day
  {
    YearAfter(y);
    if DayFromYear(y) <= day then y else YearUpTo(day, y - 1)
  }

  /** The year that holds `day`. */
  function YearOf(day: int): (y: int)
    ensures DayFromYear(y) <= day < DayFromYear(y + 1)
  {
    if DayFromYear(1970) <= day then YearFrom(day, 1970) else YearUpTo(day, 1969)
  }

  // ---------- Months, counted from year 0 ----------

  /** Days before month `m` of its year; month 12 is the year's end. */
  function DaysBefore(m: int, leap: bool): int
    requires 0 <= m <= 12
  {
    var l := if leap then 1 else 0;
    if m == 0 then 0 else if m == 1 then 31 else if m == 2 then 59 + l else if m == 3 then 90 + l
    else if m == 4 then 120 + l else if m == 5 then 151 + l else if m == 6 then 181 + l else if m == 7 then 212 + l
    else if m == 8 then 243 + l else if m == 9 then 273 + l else if m == 10 then 304 + l else if m == 11 then 334 + l
    else 365 + l
  }

  /** The day number of the first of month `m` of `y`, as ECMAScript's MakeDay takes months past the year's end. */
  function MakeDay(y: int, m: int, date: int): int {
    DayFromYear(y + m / 12) + DaysBefore(m % 12, Leap(y + m / 12)) + date - 1
  }

  /** The first day of a month given by its number counted from January of year 0. */
  function MonthDay(month: int): int {
    MakeDay(0, month, 1)
  }

  lemma MakeDayIsMonthDay(y: int, m: int, date: int)
    ensures MakeDay(y, m, date) == MonthDay(12 * y + m) + date - 1
  {
    ModUnique(12 * y + m, 12, y + m / 12, m % 12);
  }

  /** Inside a year. */
  lemma MonthInYear(y: int, m: int)
    requires 0 <= m < 12
    ensures MonthDay(12 * y + m) == DayFromYear(y) + DaysBefore(m, Leap(y))
  {
    hide DayFromYear, DaysBefore, Leap;
    ModUnique(12 * y + m, 12, y, m);
  }

  lemma YearIsItsJanuary(y: int)
    ensures MonthDay(12 * y) == DayFromYear(y)
  {
    hide DayFromYear, MonthDay, Leap;
    MonthInYear(y, 0);
  }

  lemma MonthAfter(month: int)
    ensures MonthDay(month) + 28 <= MonthDay(month + 1) <= MonthDay(month) + 31
  {
    hide MonthDay, DayFromYear, Leap;
    var y, m := month / 12, month % 12;
    assert month == 12 * y + m;
    MonthInYear(y, m);
    if m == 11 {
      YearIsItsJanuary(y + 1);
      YearAfter(y);
      assert month + 1 == 12 * (y + 1);
    } else {
      MonthInYear(y, m + 1);
    }
  }

  function MonthLength(m: int, leap: bool): int {
    if m == 1 then (if leap then 29 else 28) else if m == 3 || m == 5 || m == 8 || m == 10 then 30 else 31
  }

  /** The days are the Gregorian calendar's: month by month their lengths, from 1970-01-01. */
  lemma GregorianMonths(y: int, m: int)
    requires 0 <= m < 12
    ensures MonthDay(12 * y + m + 1) == MonthDay(12 * y + m) + MonthLength(m, Leap(y))
    ensures MonthDay(12 * 1970) == 0
  {
    hide MonthDay, Leap;
    MonthInYear(y, m);
    YearIsItsJanuary(1970);
    if m == 11 {
      YearIsItsJanuary(y + 1);
      YearAfter(y);
      assert 12 * y + m + 1 == 12 * (y + 1);
    } else {
      MonthInYear(y, m + 1);
    }
  }

  // ---------- Dates ----------

  datatype Civil = Civil(year: int, month: int, date: int)

  function MonthIn(dayOfYear: int, leap: bool): (m: int)
    requires 0 <= dayOfYear < (if leap then 366 else 365)
    ensures 0 <= m < 12 && DaysBefore(m, leap) <= dayOfYear < DaysBefore(m + 1, leap)
  {
    MonthFrom(dayOfYear, leap, 0)
  }

  function MonthFrom(dayOfYear: int, leap: bool, m: int): (r: int)
    requires 0 <= m < 12 && DaysBefore(m, leap) <= dayOfYear < DaysBefore(12, leap)
    ensures m <= r < 12 && DaysBefore(r, leap) <= dayOfYear < DaysBefore(r + 1, leap)
    decreases 12 - m
  {
    if dayOfYear < DaysBefore(m + 1, leap) then m else MonthFrom(dayOfYear, leap, m + 1)
  }

  function CivilOf(day: int): Civil {
    var y := YearOf(day);
    YearAfter(y);
    var dayOfYear := day - DayFromYear(y);
    var m := MonthIn(dayOfYear, Leap(y));
    Civil(y, m, dayOfYear - DaysBefore(m, Leap(y)) + 1)
  }

  function MonthOf(day: int): int {
    var c := CivilOf(day);
    12 * c.year + c.month
  }

  /** The date's month holds it, and the date counts from the month's first day. */
  lemma CivilIs(day: int)
    ensures var c := CivilOf(day);
            && 0 <= c.month < 12 && DayFromYear(c.year) <= day < DayFromYear(c.year + 1)
            && day == MonthDay(MonthOf(day)) + c.date - 1 && MonthDay(MonthOf(day)) <= day < MonthDay(MonthOf(day) + 1)
  {
    hide YearOf, DayFromYear, MonthIn, MonthDay, Leap;
    var c := CivilOf(day);
    YearAfter(c.year);
    MonthInYear(c.year, c.month);
    if c.month == 11 {
      YearIsItsJanuary(c.year + 1);
      assert MonthOf(day) + 1 == 12 * (c.year + 1);
    } else {
      MonthInYear(c.year, c.month + 1);
    }
  }

  lemma {:induction false} MonthsAhead(a: int, b: int)
    requires a <= b
    ensures MonthDay(a) + 28 * (b - a) <= MonthDay(b)
    decreases b - a
  {
    hide MonthDay;
    if a < b {
      MonthsAhead(a, b - 1);
      MonthAfter(b - 1);
    }
  }

  /** One day is in one month. */
  lemma MonthOfIsUnique(day: int, month: int)
    requires MonthDay(month) <= day < MonthDay(month + 1)
    ensures MonthOf(day) == month
  {
    hide MonthDay, CivilOf;
    CivilIs(day);
    if MonthOf(day) < month {
      MonthsAhead(MonthOf(day) + 1, month);
    } else if month < MonthOf(day) {
      MonthsAhead(month + 1, MonthOf(day));
    }
  }

  /** The first of a month is the date it says. */
  lemma CivilOfFirst(month: int)
    ensures CivilOf(MonthDay(month)) == Civil(month / 12, month % 12, 1)
  {
    hide MonthDay;
    var day := MonthDay(month);
    MonthAfter(month);
    MonthOfIsUnique(day, month);
    CivilIs(day);
    var c := CivilOf(day);
    ModUnique(month, 12, c.year, c.month);
  }

  // ---------- The Date object ----------

  function Day(time: int): int {
    time / MS_PER_DAY
  }

  function WithinDay(time: int): int {
    time % MS_PER_DAY
  }

  lemma DayOfTime(day: int, rest: int)
    requires 0 <= rest < MS_PER_DAY
    ensures Day(day * MS_PER_DAY + rest) == day && WithinDay(day * MS_PER_DAY + rest) == rest
  {
    ModUnique(day * MS_PER_DAY + rest, MS_PER_DAY, day, rest);
  }

  /** `Date.UTC(y, m, d)`: a year from 0 to 99 is taken for one of the twentieth century. */
  function DateUTC(y: int, m: int, date: int): int {
    MakeDay(if 0 <= y <= 99 then 1900 + y else y, m, date) * MS_PER_DAY
  }

  class JsDate {
    var time: int

    constructor (time: int)
      ensures this.time == time
    {
      this.time := time;
    }

    function GetUTCFullYear(): int
      reads this
    {
      CivilOf(Day(time)).year
    }

    function GetUTCMonth(): int
      reads this
    {
      CivilOf(Day(time)).month
    }

    function GetUTCDate(): int
      reads this
    {
      CivilOf(Day(time)).date
    }

    /** 0 is Sunday; 1970-01-01 was a Thursday. */
    function GetUTCDay(): int
      reads this
    {
      (Day(time) + 4) % 7
    }

    method SetUTCDate(date: int)
      modifies this
      ensures time == MakeDay(old(GetUTCFullYear()), old(GetUTCMonth()), date) * MS_PER_DAY + WithinDay(old(time))
    {
      time := MakeDay(GetUTCFullYear(), GetUTCMonth(), date) * MS_PER_DAY + WithinDay(time);
    }

    /** `setUTCMonth(m)` keeps the date; `setUTCMonth(m, d)` sets it. */
    method SetUTCMonth(m: int, date: int)
      modifies this
      ensures time == MakeDay(old(GetUTCFullYear()), m, date) * MS_PER_DAY + WithinDay(old(time))
    {
      time := MakeDay(GetUTCFullYear(), m, date) * MS_PER_DAY + WithinDay(time);
    }

    method SetUTCFullYear(y: int)
      modifies this
      ensures time == MakeDay(y, old(GetUTCMonth()), old(GetUTCDate())) * MS_PER_DAY + WithinDay(old(time))
    {
      time := MakeDay(y, GetUTCMonth(), GetUTCDate()) * MS_PER_DAY + WithinDay(time);
    }
  }
}
