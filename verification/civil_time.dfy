/** Civil (calendar) date-times and the part of Go's `time` package the
    scheduler relies on: ordering of instants and `Time.AddDate`, including
    Go's normalisation of a day-of-month that runs past the end of a month
    (31 January plus one month is 3 March, or 2 March in a leap year). */
module CivilTime {

  /** A wall-clock reading in one fixed zone. */
  datatype DateTime = DateTime(year: int, month: int, day: int,
                               hour: int, minute: int, second: int, nanosecond: int)

  /** The calendar part of a date-time. */
  datatype Date = Date(year: int, month: int, day: int)

  /** Gregorian leap-year rule, as in Go's `time` package. */
  predicate IsLeapYear(year: int) {
    year % 4 == 0 && (year % 100 != 0 || year % 400 == 0)
  }

  function DaysIn(year: int, month: int): (n: int)
    requires 1 <= month <= 12
    ensures 28 <= n <= 31
    ensures month == 2 ==> (n == 29 <==> IsLeapYear(year))
    ensures month != 2 ==> (n == 30 <==> month in {4, 6, 9, 11})
  {
    if month == 2 then (if IsLeapYear(year) then 29 else 28)
    else if month in {4, 6, 9, 11} then 30
    else 31
  }

  predicate IsValid(t: DateTime) {
    && 1 <= t.month <= 12
    && 1 <= t.day <= DaysIn(t.year, t.month)
    && 0 <= t.hour < 24
    && 0 <= t.minute < 60
    && 0 <= t.second < 60
    && 0 <= t.nanosecond < 1_000_000_000
  }

  /** A date-time that names a real calendar instant (what a `time.Time`
      or a SQL `timestamp` always holds). */
  type Instant = t: DateTime | IsValid(t) witness DateTime(1, 1, 1, 0, 0, 0, 0)

  /** Go's zero `time.Time`: 1 January of year 1, 00:00:00. */
  const ZeroTime: Instant := DateTime(1, 1, 1, 0, 0, 0, 0)

  function DateOf(t: DateTime): Date {
    Date(t.year, t.month, t.day)
  }

  /** Strictly earlier: the lexicographic order of the fields, which is the
      chronological order of valid date-times. */
  predicate Before(a: DateTime, b: DateTime) {
    if a.year != b.year then a.year < b.year
    else if a.month != b.month then a.month < b.month
    else if a.day != b.day then a.day < b.day
    else if a.hour != b.hour then a.hour < b.hour
    else if a.minute != b.minute then a.minute < b.minute
    else if a.second != b.second then a.second < b.second
    else a.nanosecond < b.nanosecond
  }

  /** `a <= b`, the comparison SQL makes in `next_run <= NOW()`. */
  predicate NotAfter(a: DateTime, b: DateTime) {
    !Before(b, a)
  }

  /** The month (year, month) comes strictly before the month (year', month'). */
  predicate MonthBefore(year: int, month: int, year': int, month': int) {
    year < year' || (year == year' && month < month')
  }

  lemma BeforeIsStrictTotalOrder(a: DateTime, b: DateTime, c: DateTime)
    ensures !Before(a, a)
    ensures Before(a, b) && Before(b, c) ==> Before(a, c)
    ensures a == b || Before(a, b) || Before(b, a)
  {
  }

  /** The first day of the month after (year, month). */
  function FollowingMonth(year: int, month: int): (r: Date)
    requires 1 <= month <= 12
    ensures 1 <= r.month <= 12 && r.day == 1
    ensures MonthBefore(year, month, r.year, r.month)
  {
    if month == 12 then Date(year + 1, 1, 1) else Date(year, month + 1, 1)
  }

  /** The calendar date that lies `day - 1` days after the first of the month
      (year, month): a day past the month's end rolls over into the following
      months, as Go's `time.Date` normalises an out-of-range day. */
  function NormalizeDay(year: int, month: int, day: int): (r: Date)
    requires 1 <= month <= 12 && 1 <= day
    ensures 1 <= r.month <= 12 && 1 <= r.day <= DaysIn(r.year, r.month)
    ensures day <= DaysIn(year, month) ==> r == Date(year, month, day)
    ensures day > DaysIn(year, month) ==> MonthBefore(year, month, r.year, r.month)
    decreases day
  {
    if day <= DaysIn(year, month) then Date(year, month, day)
    else
      var next := FollowingMonth(year, month);
      NormalizeDay(next.year, next.month, day - DaysIn(year, month))
  }

  /** The month `months` months after (year, month): the month arithmetic
      of Go's `time.Date`, which carries every twelve months into the year. */
  function ShiftMonths(year: int, month: int, months: nat): (r: (int, int))
    requires 1 <= month <= 12
    ensures 1 <= r.1 <= 12
    ensures months == 0 ==> r == (year, month)
    ensures months > 0 ==> MonthBefore(year, month, r.0, r.1)
    decreases months
  {
    if months == 0 then (year, month)
    else
      var next := FollowingMonth(year, month);
      ShiftMonths(next.year, next.month, months - 1)
  }

  /** Go's `t.AddDate(years, months, days)` for non-negative arguments: the
      year and month are advanced first, then the day, and the resulting
      day-of-month is normalised; the clock reading is kept. */
  function AddDate(t: Instant, years: nat, months: nat, days: nat): (r: Instant)
    ensures r.hour == t.hour && r.minute == t.minute
    ensures r.second == t.second && r.nanosecond == t.nanosecond
    ensures years + months + days > 0 ==> Before(t, r)
  {
    var ym := ShiftMonths(t.year + years, t.month, months);
    assert years + months > 0 ==> MonthBefore(t.year, t.month, ym.0, ym.1);
    var d := NormalizeDay(ym.0, ym.1, t.day + days);
    t.(year := d.year, month := d.month, day := d.day)
  }

  /** Normalising, then moving further by `extra` days, is normalising the
      whole distance at once. */
  lemma {:induction false} NormalizeDayThenMore(year: int, month: int, day: int, extra: nat)
    requires 1 <= month <= 12 && 1 <= day
    ensures var d := NormalizeDay(year, month, day);
            NormalizeDay(d.year, d.month, d.day + extra) == NormalizeDay(year, month, day + extra)
    decreases day
  {
    if day > DaysIn(year, month) {
      var next := FollowingMonth(year, month);
      NormalizeDayThenMore(next.year, next.month, day - DaysIn(year, month), extra);
    }
  }

  /** Adding only days moves the date within the calendar and nothing else. */
  lemma AddDaysNormalizes(t: Instant, n: nat)
    ensures var d := NormalizeDay(t.year, t.month, t.day + n);
            AddDate(t, 0, 0, n) == t.(year := d.year, month := d.month, day := d.day)
  {
  }

  /** Adding days is additive: `AddDate(0, 0, a)` then `AddDate(0, 0, b)` is
      `AddDate(0, 0, a + b)`. */
  lemma AddDaysAdditive(t: Instant, a: nat, b: nat)
    ensures AddDate(AddDate(t, 0, 0, a), 0, 0, b) == AddDate(t, 0, 0, a + b)
  {
    var u := AddDate(t, 0, 0, a);
    var du := NormalizeDay(u.year, u.month, u.day + b);
    var d2 := NormalizeDay(t.year, t.month, t.day + a + b);
    calc {
      AddDate(u, 0, 0, b);
      { AddDaysNormalizes(u, b); }
      u.(year := du.year, month := du.month, day := du.day);
      { AddDaysNormalizes(t, a); NormalizeDayThenMore(t.year, t.month, t.day + a, b); }
      t.(year := d2.year, month := d2.month, day := d2.day);
      { AddDaysNormalizes(t, a + b); }
      AddDate(t, 0, 0, a + b);
    }
  }

  /** Adding no time at all is the identity. */
  lemma AddNothing(t: Instant)
    ensures AddDate(t, 0, 0, 0) == t
  {
  }

  /** Go's month step: the same day-of-month in the following month when that
      month has it, otherwise the overflow carried into the month after
      (31 January becomes 3 March, or 2 March in a leap year). */
  lemma MonthlyStep(t: Instant)
    ensures var first := FollowingMonth(t.year, t.month);
            var len := DaysIn(first.year, first.month);
            DateOf(AddDate(t, 0, 1, 0)) ==
              if t.day <= len then first.(day := t.day)
              else FollowingMonth(first.year, first.month).(day := t.day - len)
  {
    var first := FollowingMonth(t.year, t.month);
    var len := DaysIn(first.year, first.month);
    if t.day > len {
      var second := FollowingMonth(first.year, first.month);
      assert t.day - len <= 3;
      assert NormalizeDay(second.year, second.month, t.day - len) == second.(day := t.day - len);
    }
  }

  /** One day after the last day of a month is the first of the next month. */
  lemma DailyStepAtMonthEnd(t: Instant)
    requires t.day == DaysIn(t.year, t.month)
    ensures DateOf(AddDate(t, 0, 0, 1)) == FollowingMonth(t.year, t.month)
  {
    var next := FollowingMonth(t.year, t.month);
    assert NormalizeDay(next.year, next.month, 1) == next;
  }

  /** 31 January 2023 plus one month: February has 28 days, so the three
      extra days carry into March. */
  lemma MonthEndIntoMarchCommonYear()
    ensures AddDate(DateTime(2023, 1, 31, 9, 0, 0, 0), 0, 1, 0) == DateTime(2023, 3, 3, 9, 0, 0, 0)
  {
    MonthlyStep(DateTime(2023, 1, 31, 9, 0, 0, 0));
  }

  /** 31 January 2024 plus one month: February has 29 days in a leap year. */
  lemma MonthEndIntoMarchLeapYear()
    ensures AddDate(DateTime(2024, 1, 31, 9, 0, 0, 0), 0, 1, 0) == DateTime(2024, 3, 2, 9, 0, 0, 0)
  {
    MonthlyStep(DateTime(2024, 1, 31, 9, 0, 0, 0));
  }

  /** A day that exists in the next month is kept. */
  lemma MidMonthKeepsDay()
    ensures AddDate(DateTime(2024, 1, 15, 9, 0, 0, 0), 0, 1, 0) == DateTime(2024, 2, 15, 9, 0, 0, 0)
  {
    MonthlyStep(DateTime(2024, 1, 15, 9, 0, 0, 0));
  }

  /** December rolls into January of the next year. */
  lemma DecemberIntoNextYear()
    ensures AddDate(DateTime(2025, 12, 31, 9, 0, 0, 0), 0, 1, 0) == DateTime(2026, 1, 31, 9, 0, 0, 0)
  {
    MonthlyStep(DateTime(2025, 12, 31, 9, 0, 0, 0));
  }
}
