/**
 * Proleptic Gregorian calendar dates as Python's `datetime` counts them:
 * day 1 is 0001-01-01 (a Monday), and `weekday()` is 0 for Monday through
 * 6 for Sunday.
 */
module Dates {

  predicate IsLeap(y: int) {
    y % 4 == 0 && (y % 100 != 0 || y % 400 == 0)
  }

  function DaysInMonth(y: int, m: int): (n: int)
    requires 1 <= m <= 12
    ensures 28 <= n <= 31
  {
    if m == 2 then (if IsLeap(y) then 29 else 28)
    else if m == 4 || m == 6 || m == 9 || m == 11 then 30
    else 31
  }

  function DaysInYear(y: int): int {
    if IsLeap(y) then 366 else 365
  }

  /** A calendar date `datetime.strptime(s, "%Y-%m-%d")` can produce. */
  predicate ValidDate(y: int, m: int, d: int) {
    1 <= y <= 9999 && 1 <= m <= 12 && 1 <= d <= DaysInMonth(y, m)
  }

  function DaysBeforeYear(y: int): int
    requires y >= 1
  {
    var z := y - 1;
    z * 365 + z / 4 - z / 100 + z / 400
  }

  function DaysBeforeMonth(y: int, m: int): (n: int)
    requires 1 <= m <= 12
    ensures n >= 0
    decreases m
  {
    if m == 1 then 0 else DaysBeforeMonth(y, m - 1) + DaysInMonth(y, m - 1)
  }

  /** `date(y, m, d).toordinal()`. */
  function Ordinal(y: int, m: int, d: int): (n: int)
    requires ValidDate(y, m, d)
    ensures n >= 1
  {
    DaysBeforeYear(y) + DaysBeforeMonth(y, m) + d
  }

  /** `date.max.toordinal()`: 9999-12-31 is the last date `datetime` holds, and adding a day to it raises OverflowError. */
  const MaxOrdinal := 3652059

  /** 9999-12-31 has the ordinal `MaxOrdinal` and is a Friday. */
  lemma MaxOrdinalIsLastDay()
    ensures Ordinal(9999, 12, 31) == MaxOrdinal
    ensures Weekday(MaxOrdinal) == 4
  {
    DaysBeforeMonthYear(9999);
  }

  /** No date `strptime` can produce lies after 9999-12-31. */
  lemma OrdinalAtMostMax(y: int, m: int, d: int)
    requires ValidDate(y, m, d)
    ensures Ordinal(y, m, d) <= MaxOrdinal
  {
    MonthsWithinYear(y, m);
    DaysBeforeMonthYear(y);
    YearLength(y);
    YearsBefore(y + 1);
  }

  /** The days up to the end of month m are at most those of the whole year. */
  lemma {:induction false} MonthsWithinYear(y: int, m: int)
    requires 1 <= m <= 12
    ensures DaysBeforeMonth(y, m) + DaysInMonth(y, m) <= DaysBeforeMonth(y, 12) + DaysInMonth(y, 12)
    decreases 12 - m
  {
    if m < 12 {
      MonthsWithinYear(y, m + 1);
    }
  }

  /** The days before any year up to 10000 are at most those before 10000, which number `MaxOrdinal`. */
  lemma {:induction false} YearsBefore(y: int)
    requires 1 <= y <= 10000
    ensures DaysBeforeYear(y) <= MaxOrdinal
    decreases 10000 - y
  {
    if y < 10000 {
      YearsBefore(y + 1);
      YearLength(y);
    }
  }

  /** `weekday()` of the date with the given ordinal: 0 is Monday, 6 is Sunday. */
  function Weekday(ordinal: int): (w: int)
    ensures 0 <= w < 7
  {
    (ordinal + 6) % 7
  }

  /** The next calendar day falls on the next weekday. */
  lemma WeekdayNext(ordinal: int)
    ensures Weekday(ordinal + 1) == (Weekday(ordinal) + 1) % 7
  {
  }

  /** A week later is the same weekday. */
  lemma WeekdayWeek(ordinal: int)
    ensures Weekday(ordinal + 7) == Weekday(ordinal)
  {
  }

  /** A year holds exactly its number of days: the last day of year y is followed by day 1 of year y + 1. */
  lemma YearLength(y: int)
    requires y >= 1
    ensures DaysBeforeYear(y + 1) - DaysBeforeYear(y) == DaysInYear(y)
  {
    var z := y - 1;
    assert (z + 1) / 4 == z / 4 + (if y % 4 == 0 then 1 else 0);
    assert (z + 1) / 100 == z / 100 + (if y % 100 == 0 then 1 else 0);
    assert (z + 1) / 400 == z / 400 + (if y % 400 == 0 then 1 else 0);
  }

  lemma {:induction false} DaysBeforeMonthYear(y: int)
    ensures DaysBeforeMonth(y, 12) + DaysInMonth(y, 12) == DaysInYear(y)
  {
    assert DaysBeforeMonth(y, 2) == 31;
    assert DaysBeforeMonth(y, 3) == 31 + DaysInMonth(y, 2);
    assert DaysBeforeMonth(y, 12) == 306 + DaysInMonth(y, 2);
  }

  /** Ordinals run on across a year boundary. */
  lemma NewYear(y: int)
    requires 1 <= y < 9999
    ensures Ordinal(y + 1, 1, 1) == Ordinal(y, 12, 31) + 1
  {
    YearLength(y);
    DaysBeforeMonthYear(y);
  }

  /** Ordinals run on across a month boundary. */
  lemma NewMonth(y: int, m: int)
    requires 1 <= y <= 9999 && 1 <= m < 12
    ensures Ordinal(y, m + 1, 1) == Ordinal(y, m, DaysInMonth(y, m)) + 1
  {
  }

  /** 2024-01-15 was a Monday and 2024-01-20 a Saturday. */
  lemma January2024()
    ensures Weekday(Ordinal(2024, 1, 15)) == 0
    ensures Weekday(Ordinal(2024, 1, 16)) == 1
    ensures Weekday(Ordinal(2024, 1, 20)) == 5
  {
    assert DaysBeforeYear(2024) == 738885;
  }
}
