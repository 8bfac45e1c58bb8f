/**
 * Proleptic Gregorian calendar arithmetic on a broken-down date-time record, the part of
 * chrono's `NaiveDateTime` that the program uses: the fields, their lexicographic order,
 * the instant they denote, and shifting a record by a fixed UTC offset.
 */
module Calendar {

  /** A calendar date and wall-clock time, without sub-second part (the archive has none). */
  datatype DateTime = DateTime(year: int, month: int, day: int, hour: int, minute: int, second: int)

  const SecondsPerDay: int := 86400

  predicate IsLeapYear(y: int) {
    y % 4 == 0 && (y % 100 != 0 || y % 400 == 0)
  }

  function DaysInMonth(y: int, m: int): (n: int)
    requires 1 <= m <= 12
    ensures 28 <= n <= 31
  {
    if m == 2 then (if IsLeapYear(y) then 29 else 28)
    else if m == 4 || m == 6 || m == 9 || m == 11 then 30
    else 31
  }

  function YearLength(y: int): int {
    if IsLeapYear(y) then 366 else 365
  }

  /** The record names an existing day and a time of day with a second in 0..59. */
  predicate Valid(t: DateTime) {
    && 1 <= t.month <= 12
    && 1 <= t.day <= DaysInMonth(t.year, t.month)
    && 0 <= t.hour < 24
    && 0 <= t.minute < 60
    && 0 <= t.second < 60
  }

  type ValidDateTime = t: DateTime | Valid(t) witness DateTime(1970, 1, 1, 0, 0, 0)

  /** Days from 1970-01-01 to January 1 of year `y` (negative before 1970). */
  function DaysBeforeYear(y: int): int {
    365 * y + (y + 3) / 4 - (y + 99) / 100 + (y + 399) / 400 - 719528
  }

  /** Days of year `y` that precede the first of month `m`. */
  function DaysBeforeMonth(y: int, m: int): int
    requires 1 <= m <= 12
  {
    var common := [0, 31, 59, 90, 120, 151, 181, 212, 243, 273, 304, 334][m - 1];
    if m > 2 && IsLeapYear(y) then common + 1 else common
  }

  /** Days from 1970-01-01 to the date of `t`. */
  function DayNumber(t: DateTime): int
    requires 1 <= t.month <= 12
  {
    DaysBeforeYear(t.year) + DaysBeforeMonth(t.year, t.month) + t.day - 1
  }

  function SecondOfDay(t: DateTime): int {
    3600 * t.hour + 60 * t.minute + t.second
  }

  /** The instant `t` denotes, as seconds from 1970-01-01 00:00:00 in the same zone. */
  function Seconds(t: DateTime): int
    requires 1 <= t.month <= 12
  {
    SecondsPerDay * DayNumber(t) + SecondOfDay(t)
  }

  /** Day of the week, 0 = Monday ... 6 = Sunday (1970-01-01 was a Thursday). */
  function Weekday(t: DateTime): (w: int)
    requires 1 <= t.month <= 12
    ensures 0 <= w < 7
  {
    (DayNumber(t) + 3) % 7
  }

  /** The number of multiples of 4 (of 100, of 400) below `y + 4` grows by one exactly at a multiple. */
  lemma QuotientStep4(y: int)
    ensures (y + 4) / 4 - (y + 3) / 4 == if y % 4 == 0 then 1 else 0
  {
    var q := y / 4;
    assert y == 4 * q + y % 4;
  }

  lemma QuotientStep100(y: int)
    ensures (y + 100) / 100 - (y + 99) / 100 == if y % 100 == 0 then 1 else 0
  {
    var q := y / 100;
    assert y == 100 * q + y % 100;
  }

  lemma QuotientStep400(y: int)
    ensures (y + 400) / 400 - (y + 399) / 400 == if y % 400 == 0 then 1 else 0
  {
    var q := y / 400;
    assert y == 400 * q + y % 400;
  }

  /** Multiples of 400 are multiples of 100. */
  lemma Multiple400(y: int)
    requires y % 400 == 0
    ensures y % 100 == 0
  {
    var q := y / 400;
    assert y == 100 * (4 * q);
  }

  /** Multiples of 100 are multiples of 4. */
  lemma Multiple100(y: int)
    requires y % 100 == 0
    ensures y % 4 == 0
  {
    var q := y / 100;
    assert y == 4 * (25 * q);
  }

  lemma YearStep(y: int)
    ensures DaysBeforeYear(y + 1) == DaysBeforeYear(y) + YearLength(y)
  {
    QuotientStep4(y);
    QuotientStep100(y);
    QuotientStep400(y);
    if y % 400 == 0 {
      Multiple400(y);
    }
    if y % 100 == 0 {
      Multiple100(y);
    }
    var a, b, c := y % 4 == 0, y % 100 == 0, y % 400 == 0;
    assert YearLength(y) == 365 + (if a then 1 else 0) - (if b then 1 else 0) + (if c then 1 else 0);
    assert DaysBeforeYear(y + 1) == 365 * y + 365 + (y + 4) / 4 - (y + 100) / 100 + (y + 400) / 400 - 719528;
  }

  /** The first of the next month follows the last day of this one. */
  lemma MonthStep(y: int, m: int)
    requires 1 <= m < 12
    ensures DaysBeforeMonth(y, m + 1) == DaysBeforeMonth(y, m) + DaysInMonth(y, m)
  {
  }

  /** The day after `t`'s date, at the same time of day. */
  function NextDay(t: DateTime): (r: DateTime)
    requires Valid(t)
    ensures Valid(r) && DayNumber(r) == DayNumber(t) + 1 && SecondOfDay(r) == SecondOfDay(t)
  {
    if t.day < DaysInMonth(t.year, t.month) then t.(day := t.day + 1)
    else if t.month < 12 then
      MonthStep(t.year, t.month);
      t.(month := t.month + 1, day := 1)
    else
      YearStep(t.year);
      t.(year := t.year + 1, month := 1, day := 1)
  }

  /** The day before `t`'s date, at the same time of day. */
  function PrevDay(t: DateTime): (r: DateTime)
    requires Valid(t)
    ensures Valid(r) && DayNumber(r) == DayNumber(t) - 1 && SecondOfDay(r) == SecondOfDay(t)
  {
    if t.day > 1 then t.(day := t.day - 1)
    else if t.month > 1 then
      MonthStep(t.year, t.month - 1);
      t.(month := t.month - 1, day := DaysInMonth(t.year, t.month - 1))
    else
      YearStep(t.year - 1);
      t.(year := t.year - 1, month := 12, day := 31)
  }

  /** 1970-01-01 is day 0 of the count. */
  lemma EpochDay(t: DateTime)
    requires t.year == 1970 && t.month == 1 && t.day == 1
    ensures DayNumber(t) == 0
  {
    assert 1973 / 4 == 493 && 2069 / 100 == 20 && 2369 / 400 == 5;
    assert DaysBeforeYear(1970) == 0;
  }

  /** Day 0 is a Thursday. */
  lemma WeekdayOfDayZero(t: DateTime)
    requires 1 <= t.month <= 12 && DayNumber(t) == 0
    ensures Weekday(t) == 3
  {
  }

  /** 1970-01-01 was a Thursday. */
  lemma WeekdayEpoch(t: DateTime)
    requires t.year == 1970 && t.month == 1 && t.day == 1
    ensures Weekday(t) == 3
  {
    EpochDay(t);
    WeekdayOfDayZero(t);
  }

  /** Day numbers one apart have weekdays one apart, modulo 7. */
  lemma WeekStep(x: int)
    ensures (x + 1) % 7 == (x % 7 + 1) % 7
  {
    var q := x / 7;
    assert x == 7 * q + x % 7;
    if x % 7 == 6 {
      assert x + 1 == 7 * (q + 1);
    } else {
      assert x + 1 == 7 * q + (x % 7 + 1);
    }
  }

  /** The weekday advances by one, cyclically, from each day to the next. */
  lemma WeekdayOfNextDay(t: DateTime)
    requires Valid(t)
    ensures Weekday(NextDay(t)) == (Weekday(t) + 1) % 7
  {
    var d := DayNumber(t);
    assert DayNumber(NextDay(t)) == d + 1;
    WeekStep(d + 3);
  }

  /** ... and goes back by one to the day before. */
  lemma WeekdayOfPrevDay(t: DateTime)
    requires Valid(t)
    ensures Weekday(PrevDay(t)) == (Weekday(t) + 6) % 7
  {
    var d := DayNumber(t);
    assert DayNumber(PrevDay(t)) == d - 1;
    WeekStep(d + 2);
  }

  /** Two dates fall on the same weekday exactly when they are a whole number of weeks apart. */
  lemma SameWeekday(a: DateTime, b: DateTime)
    requires 1 <= a.month <= 12 && 1 <= b.month <= 12
    ensures Weekday(a) == Weekday(b) <==> (DayNumber(a) - DayNumber(b)) % 7 == 0
  {
    var da := DayNumber(a) + 3;
    var db := DayNumber(b) + 3;
    assert da == 7 * (da / 7) + da % 7;
    assert db == 7 * (db / 7) + db % 7;
    assert da - db == 7 * (da / 7 - db / 7) + (da % 7 - db % 7);
  }

  /** `t` with its time of day replaced by second `s` of the day. */
  function AtSecondOfDay(t: DateTime, s: int): (r: DateTime)
    requires Valid(t) && 0 <= s < SecondsPerDay
    ensures Valid(r) && DayNumber(r) == DayNumber(t) && SecondOfDay(r) == s
  {
    t.(hour := s / 3600, minute := s % 3600 / 60, second := s % 60)
  }

  /**
   * The same instant seen `delta` seconds further east: the wall clock moves forward by
   * `delta`, crossing at most one midnight. Converting between fixed UTC offsets is such a shift.
   */
  function Shift(t: DateTime, delta: int): (r: DateTime)
    requires Valid(t) && -SecondsPerDay < delta < SecondsPerDay
    ensures Valid(r) && Seconds(r) == Seconds(t) + delta
  {
    var s := SecondOfDay(t) + delta;
    if s < 0 then AtSecondOfDay(PrevDay(t), s + SecondsPerDay)
    else if s >= SecondsPerDay then AtSecondOfDay(NextDay(t), s - SecondsPerDay)
    else AtSecondOfDay(t, s)
  }

  /** Lexicographic order of the fields: chrono's order on `NaiveDateTime`. */
  predicate Before(a: DateTime, b: DateTime) {
    if a.year != b.year then a.year < b.year
    else if a.month != b.month then a.month < b.month
    else if a.day != b.day then a.day < b.day
    else if a.hour != b.hour then a.hour < b.hour
    else if a.minute != b.minute then a.minute < b.minute
    else a.second < b.second
  }

  /** Midnight at the start of the first day of a month. */
  function MonthStart(y: int, m: int): (r: DateTime)
    requires 1 <= m <= 12
    ensures Valid(r) && SecondOfDay(r) == 0 && DayNumber(r) == DaysBeforeYear(y) + DaysBeforeMonth(y, m)
  {
    DateTime(y, m, 1, 0, 0, 0)
  }

  lemma {:induction false} YearsMonotone(y1: int, y2: int)
    requires y1 <= y2
    ensures DaysBeforeYear(y2) >= DaysBeforeYear(y1) + 365 * (y2 - y1)
    decreases y2 - y1
  {
    if y1 < y2 {
      YearsMonotone(y1, y2 - 1);
      YearStep(y2 - 1);
    }
  }

  lemma MonthsMonotone(y: int, m1: int, m2: int)
    requires 1 <= m1 < m2 <= 12
    ensures DaysBeforeMonth(y, m2) >= DaysBeforeMonth(y, m1) + DaysInMonth(y, m1)
  {
  }

  /** Day numbers increase with the calendar date in lexicographic order. */
  lemma DayNumberMonotone(a: DateTime, b: DateTime)
    requires Valid(a) && Valid(b)
    requires (a.year, a.month, a.day) != (b.year, b.month, b.day)
    requires a.year < b.year || (a.year == b.year && (a.month < b.month || (a.month == b.month && a.day < b.day)))
    ensures DayNumber(a) < DayNumber(b)
  {
    if a.year < b.year {
      YearsMonotone(a.year + 1, b.year);
      YearStep(a.year);
      assert DaysBeforeMonth(a.year, a.month) + a.day <= YearLength(a.year) by {
        if a.month < 12 {
          MonthsMonotone(a.year, a.month, 12);
        }
      }
    } else if a.month < b.month {
      MonthsMonotone(a.year, a.month, b.month);
    }
  }

  /** On valid records the lexicographic order is the order of the instants they denote. */
  lemma BeforeIsInstantOrder(a: DateTime, b: DateTime)
    requires Valid(a) && Valid(b)
    ensures Before(a, b) <==> Seconds(a) < Seconds(b)
  {
    if (a.year, a.month, a.day) != (b.year, b.month, b.day) {
      if a.year < b.year || (a.year == b.year && (a.month < b.month || (a.month == b.month && a.day < b.day))) {
        DayNumberMonotone(a, b);
      } else {
        DayNumberMonotone(b, a);
      }
    }
  }

  /** Distinct valid records denote distinct instants. */
  lemma SecondsInjective(a: DateTime, b: DateTime)
    requires Valid(a) && Valid(b) && Seconds(a) == Seconds(b)
    ensures a == b
  {
    BeforeIsInstantOrder(a, b);
    BeforeIsInstantOrder(b, a);
  }

  lemma BeforeIrreflexive(a: DateTime)
    ensures !Before(a, a)
  {
  }

  lemma BeforeTransitive(a: DateTime, b: DateTime, c: DateTime)
    requires Before(a, b) && Before(b, c)
    ensures Before(a, c)
  {
  }

  lemma BeforeTotal(a: DateTime, b: DateTime)
    ensures a == b || Before(a, b) || Before(b, a)
  {
  }
}
