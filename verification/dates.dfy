/** Calendar dates as chrono's `NaiveDate` holds them: proleptic Gregorian
    (year, month, day) triples inside chrono's supported range, numbered by a
    day ordinal so that the difference of two dates is integer subtraction. */
module Dates {
  import opened Results

  /** chrono supports the years `i32::MIN >> 13` through `i32::MAX >> 13`. */
  const MinYear: int := -262144
  const MaxYear: int := 262143

  datatype Date = Date(year: int, month: int, day: int)

  /** Gregorian leap rule, extended to year 0 and negative years (Dafny's
      `%` with a positive divisor is never negative, which is what the
      proleptic calendar needs). */
  predicate IsLeapYear(y: int) {
    y % 4 == 0 && (y % 100 != 0 || y % 400 == 0)
  }

  function DaysInYear(y: int): int {
    if IsLeapYear(y) then 366 else 365
  }

  function DaysInMonth(y: int, m: int): int
    requires 1 <= m <= 12
  {
    if m == 2 then (if IsLeapYear(y) then 29 else 28)
    else if m == 4 || m == 6 || m == 9 || m == 11 then 30
    else 31
  }

  predicate Valid(d: Date) {
    && MinYear <= d.year <= MaxYear
    && 1 <= d.month <= 12
    && 1 <= d.day <= DaysInMonth(d.year, d.month)
  }

  /** Every value of chrono's `NaiveDate` is a valid date in range. */
  type NaiveDate = d: Date | Valid(d) witness Date(1970, 1, 1)

  const MinDate: NaiveDate := Date(MinYear, 1, 1)

  /** chrono's `NaiveDate::from_ymd_opt`. */
  function FromYmd(y: int, m: int, d: int): Option<NaiveDate> {
    if Valid(Date(y, m, d)) then Some(Date(y, m, d)) else None
  }

  /** Days of the years before `y`, counted from 0001-01-01 (negative for
      years before 1). */
  function DaysBeforeYear(y: int): int {
    var p := y - 1;
    365 * p + p / 4 - p / 100 + p / 400
  }

  /** Days of the months of year `y` before month `m` (`m == 13` gives the
      whole year). */
  function DaysBeforeMonth(y: int, m: int): int
    requires 1 <= m <= 13
  {
    var leap := if IsLeapYear(y) && m > 2 then 1 else 0;
    leap +
    (if m == 1 then 0 else if m == 2 then 31 else if m == 3 then 59
     else if m == 4 then 90 else if m == 5 then 120 else if m == 6 then 151
     else if m == 7 then 181 else if m == 8 then 212 else if m == 9 then 243
     else if m == 10 then 273 else if m == 11 then 304 else if m == 12 then 334
     else 365)
  }

  /** The proleptic Gregorian day ordinal: 0001-01-01 is day 1. */
  function DayNumber(d: NaiveDate): int {
    DaysBeforeYear(d.year) + DaysBeforeMonth(d.year, d.month) + d.day
  }

  /** chrono's `(today - date).num_days()`: signed whole days from `date`
      to `today`. */
  function ElapsedDays(today: NaiveDate, date: NaiveDate): int {
    DayNumber(today) - DayNumber(date)
  }

  /** Calendar order: `a` falls strictly before `b`. */
  predicate Before(a: Date, b: Date) {
    || a.year < b.year
    || (a.year == b.year && a.month < b.month)
    || (a.year == b.year && a.month == b.month && a.day < b.day)
  }

  lemma YearStep(y: int)
    ensures DaysBeforeYear(y + 1) == DaysBeforeYear(y) + DaysInYear(y)
  {
    assert y / 4 - (y - 1) / 4 == if y % 4 == 0 then 1 else 0;
    assert y / 100 - (y - 1) / 100 == if y % 100 == 0 then 1 else 0;
    assert y / 400 - (y - 1) / 400 == if y % 400 == 0 then 1 else 0;
  }

  lemma MonthStep(y: int, m: int)
    requires 1 <= m <= 12
    ensures DaysBeforeMonth(y, m + 1) == DaysBeforeMonth(y, m) + DaysInMonth(y, m)
  {
  }

  /** A whole year lies before the start of any later year. */
  lemma {:induction false} YearsAdvance(y1: int, y2: int)
    requires y1 < y2
    ensures DaysBeforeYear(y1) + DaysInYear(y1) <= DaysBeforeYear(y2)
    decreases y2 - y1
  {
    YearStep(y1);
    if y1 + 1 < y2 {
      YearsAdvance(y1 + 1, y2);
      assert DaysInYear(y1 + 1) > 0;
    }
  }

  /** Months of one year: a whole month lies before the start of any later
      month of the same year. */
  lemma MonthsAdvance(y: int, m1: int, m2: int)
    requires 1 <= m1 < m2 <= 13
    ensures DaysBeforeMonth(y, m1) + DaysInMonth(y, m1) <= DaysBeforeMonth(y, m2)
  {
    MonthStep(y, m1);
  }

  lemma DayOfYearBounds(d: NaiveDate)
    ensures 1 <= DaysBeforeMonth(d.year, d.month) + d.day <= DaysInYear(d.year)
  {
    MonthsAdvance(d.year, d.month, 13);
  }

  /** The day ordinal is strictly monotone in calendar order, and calendar
      order is total: the ordinal of `a` is below that of `b` exactly when
      `a` falls before `b`. */
  lemma DayNumberOrder(a: NaiveDate, b: NaiveDate)
    ensures Before(a, b) <==> DayNumber(a) < DayNumber(b)
  {
    if Before(a, b) {
      DayNumberBefore(a, b);
    } else if a != b {
      DayNumberBefore(b, a);
    }
  }

  lemma DayNumberBefore(a: NaiveDate, b: NaiveDate)
    requires Before(a, b)
    ensures DayNumber(a) < DayNumber(b)
  {
    DayOfYearBounds(a);
    DayOfYearBounds(b);
    if a.year < b.year {
      YearsAdvance(a.year, b.year);
    } else if a.month < b.month {
      MonthsAdvance(a.year, a.month, b.month);
    }
  }

  /** Distinct dates have distinct ordinals. */
  lemma DayNumberInjective(a: NaiveDate, b: NaiveDate)
    ensures DayNumber(a) == DayNumber(b) <==> a == b
  {
    DayNumberOrder(a, b);
    DayNumberOrder(b, a);
  }

  /** chrono's `date.checked_sub_days(Days::new(1))`: the day before, or
      `None` at the first representable date. */
  function Pred(d: NaiveDate): (r: Option<NaiveDate>)
    ensures r.None? <==> d == MinDate
    ensures r.Some? ==> DayNumber(r.value) == DayNumber(d) - 1
  {
    if d.day > 1 then
      Some(Date(d.year, d.month, d.day - 1))
    else if d.month > 1 then
      MonthStep(d.year, d.month - 1);
      Some(Date(d.year, d.month - 1, DaysInMonth(d.year, d.month - 1)))
    else if d.year > MinYear then
      YearStep(d.year - 1);
      Some(Date(d.year - 1, 12, 31))
    else
      None
  }

  /** `n` days before `d`, stepping back one day at a time; `None` when
      that runs past the first representable date. */
  function PredN(d: NaiveDate, n: nat): Option<NaiveDate>
    decreases n
  {
    if n == 0 then Some(d)
    else match Pred(d)
      case None => None
      case Some(p) => PredN(p, n - 1)
  }

  /** Stepping back `n` single days lands exactly `n` ordinals earlier, and
      it fails only when fewer than `n` days precede `d`. */
  lemma {:induction false} PredNDayNumber(d: NaiveDate, n: nat)
    ensures PredN(d, n).Some? ==> DayNumber(PredN(d, n).value) == DayNumber(d) - n
    ensures PredN(d, n).None? <==> DayNumber(d) - DayNumber(MinDate) < n
    decreases n
  {
    if n > 0 {
      match Pred(d)
      case None =>
      case Some(p) =>
        PredNDayNumber(p, n - 1);
        DayNumberInjective(d, MinDate);
        DayNumberOrder(MinDate, d);
    }
  }
}
