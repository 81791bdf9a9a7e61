/**
 * The proleptic Gregorian calendar as Python's `datetime` module has it.
 * A date is represented by its ordinal: 0001-01-01 is day 1 and 9999-12-31,
 * the last date Python can represent, is day MaxOrdinal. An instant
 * (a naive `datetime`) is a count of microseconds; midnight of day `d` is
 * `d * MicrosPerDay`.
 */
module Calendar {

  const MaxYear := 9999
  const MaxOrdinal := 3652059
  const MicrosPerDay := 86_400_000_000

  /** A date Python can represent, as an ordinal. */
  type Day = n: int | 1 <= n <= MaxOrdinal witness 1

  /** A date broken into its fields. */
  datatype Civil = Civil(year: int, month: int, day: int)

  predicate IsLeap(y: int) {
    y % 4 == 0 && (y % 100 != 0 || y % 400 == 0)
  }

  function DaysInYear(y: int): int {
    if IsLeap(y) then 366 else 365
  }

  /** The number of days of month `m` of year `y` (`calendar.monthrange(y, m)[1]`). */
  function DaysInMonth(y: int, m: int): (n: int)
    requires 1 <= m <= 12
    ensures 28 <= n <= 31
    ensures m == 2 ==> (n == 29 <==> IsLeap(y))
  {
    if m == 2 then (if IsLeap(y) then 29 else 28)
    else if m == 4 || m == 6 || m == 9 || m == 11 then 30
    else 31
  }

  /** Days of year `y` before the first of month `m`. */
  function DaysBeforeMonth(y: int, m: int): int
    requires 1 <= m <= 12
  {
    var before :=
      if m == 1 then 0 else if m == 2 then 31 else if m == 3 then 59
      else if m == 4 then 90 else if m == 5 then 120 else if m == 6 then 151
      else if m == 7 then 181 else if m == 8 then 212 else if m == 9 then 243
      else if m == 10 then 273 else if m == 11 then 304 else 334;
    if m > 2 && IsLeap(y) then before + 1 else before
  }

  /** Days before January 1 of year `y`, counted from January 1 of year 1. */
  function DaysBeforeYear(y: int): int
    requires y >= 1
  {
    var p := y - 1;
    p * 365 + p / 4 - p / 100 + p / 400
  }

  predicate ValidCivil(c: Civil) {
    1 <= c.year <= MaxYear && 1 <= c.month <= 12 && 1 <= c.day <= DaysInMonth(c.year, c.month)
  }

  /** `date.toordinal()`. */
  function ToOrdinal(c: Civil): int
    requires 1 <= c.year && 1 <= c.month <= 12
  {
    DaysBeforeYear(c.year) + DaysBeforeMonth(c.year, c.month) + c.day
  }

  /**
   * `date.fromordinal(n)`: walk forward from January 1 of year 1. Every
   * representable ordinal names a valid date whose ordinal it is.
   */
  function FromOrdinal(n: Day): (c: Civil)
    ensures ValidCivil(c) && ToOrdinal(c) == n
  {
    var c := Locate(n - 1, 1);
    LocateOrdinal(n - 1, 1, c);
    assert c.year <= MaxYear by {
      if c.year > MaxYear { YearsMonotone(MaxYear + 1, c.year); }
    }
    c
  }

  /** The date `k` days after January 1 of year `y`. */
  function Locate(k: nat, y: int): Civil
    requires y >= 1
    decreases k
  {
    if k < DaysInYear(y) then LocateInYear(k, y, 1)
    else Locate(k - DaysInYear(y), y + 1)
  }

  /** The date `k` days after the first of month `m` of year `y`, staying in year `y`. */
  function LocateInYear(k: nat, y: int, m: int): Civil
    requires 1 <= m <= 12
    requires k < DaysInYear(y) - DaysBeforeMonth(y, m)
    decreases 12 - m
  {
    if k < DaysInMonth(y, m) || m == 12 then Civil(y, m, k + 1)
    else LocateInYear(k - DaysInMonth(y, m), y, m + 1)
  }

  // ---------------------------------------------------------------------------
  // Arithmetic facts about the calendar

  /** One more day adds one to the count of completed `c`-year cycles exactly when it completes one. */
  lemma DivStep(x: int, c: int)
    requires x >= 0 && (c == 4 || c == 100 || c == 400)
    ensures (x + 1) / c == x / c + (if (x + 1) % c == 0 then 1 else 0)
  {
    if c == 4 {
      assert (x + 1) / 4 == x / 4 + (if (x + 1) % 4 == 0 then 1 else 0);
    } else if c == 100 {
      assert (x + 1) / 100 == x / 100 + (if (x + 1) % 100 == 0 then 1 else 0);
    } else {
      assert (x + 1) / 400 == x / 400 + (if (x + 1) % 400 == 0 then 1 else 0);
    }
  }

  /** A year is as long as its days before December plus December's 31 days. */
  lemma YearIsTwelveMonths(y: int)
    ensures DaysInYear(y) == DaysBeforeMonth(y, 12) + DaysInMonth(y, 12)
  {
  }

  lemma MonthStep(y: int, m: int)
    requires 1 <= m < 12
    ensures DaysBeforeMonth(y, m + 1) == DaysBeforeMonth(y, m) + DaysInMonth(y, m)
  {
  }

  /** The closed formula for the days before a year adds up the lengths of the years. */
  lemma YearStep(y: int)
    requires y >= 1
    ensures DaysBeforeYear(y + 1) == DaysBeforeYear(y) + DaysInYear(y)
  {
    LeapCycles(y);
  }

  /** Year `y` completes a 4-year cycle, minus a century, plus a 400-year cycle exactly when it is a leap year. */
  lemma LeapCycles(y: int)
    requires y >= 1
    ensures (y / 4 - (y - 1) / 4) - (y / 100 - (y - 1) / 100) + (y / 400 - (y - 1) / 400)
      == if IsLeap(y) then 1 else 0
  {
    DivStep(y - 1, 4);
    DivStep(y - 1, 100);
    DivStep(y - 1, 400);
    CycleNesting(y);
  }

  /** A multiple of 400 is a multiple of 100, and a multiple of 100 one of 4. */
  lemma CycleNesting(y: int)
    ensures y % 400 == 0 ==> y % 100 == 0
    ensures y % 100 == 0 ==> y % 4 == 0
  {
    if y % 400 == 0 { MultipleOf(y / 400, 4, 100); }
    if y % 100 == 0 { MultipleOf(y / 100, 25, 4); }
  }

  lemma MultipleOf(q: int, a: int, b: int)
    requires (a == 4 && b == 100) || (a == 25 && b == 4)
    ensures (q * (a * b)) % b == 0
  {
    if a == 4 {
      assert q * (a * b) == (4 * q) * 100;
    } else {
      assert q * (a * b) == (25 * q) * 4;
    }
  }

  lemma {:induction false} YearsMonotone(a: int, b: int)
    requires 1 <= a <= b
    ensures DaysBeforeYear(a) + 365 * (b - a) <= DaysBeforeYear(b)
    decreases b - a
  {
    if a < b {
      YearStep(a);
      YearsMonotone(a + 1, b);
    }
  }

  // ---------------------------------------------------------------------------
  // Ordinals and civil dates are two views of the same dates

  lemma {:induction false} LocateInYearOrdinal(k: nat, y: int, m: int)
    requires y >= 1 && 1 <= m <= 12
    requires k < DaysInYear(y) - DaysBeforeMonth(y, m)
    ensures var c := LocateInYear(k, y, m);
      c.year == y && 1 <= c.month <= 12 && 1 <= c.day <= DaysInMonth(y, c.month)
      && DaysBeforeMonth(y, c.month) + c.day == DaysBeforeMonth(y, m) + k + 1
    decreases 12 - m
  {
    YearIsTwelveMonths(y);
    if !(k < DaysInMonth(y, m) || m == 12) {
      MonthStep(y, m);
      LocateInYearOrdinal(k - DaysInMonth(y, m), y, m + 1);
    }
  }

  /** A count within the first year is found by the month walk from January. */
  lemma LocateInFirstYear(k: nat, y: int, c: Civil)
    requires y >= 1 && k < DaysInYear(y) && c == Locate(k, y)
    ensures c.year == y && 1 <= c.month <= 12 && 1 <= c.day <= DaysInMonth(y, c.month)
    ensures ToOrdinal(c) == DaysBeforeYear(y) + k + 1
  {
    LocateInYearOrdinal(k, y, 1);
  }

  /** The walk from year `y` lands on a valid date of year `y` or later, `k` days after January 1 of `y`. */
  lemma {:induction false} LocateOrdinal(k: nat, y: int, c: Civil)
    requires y >= 1 && c == Locate(k, y)
    ensures c.year >= y && 1 <= c.month <= 12 && 1 <= c.day <= DaysInMonth(c.year, c.month)
    ensures ToOrdinal(c) == DaysBeforeYear(y) + k + 1
    decreases k
  {
    if k < DaysInYear(y) {
      LocateInFirstYear(k, y, c);
    } else {
      LocateNextYear(k, y);
      LocateOrdinal(k - DaysInYear(y), y + 1, c);
      YearBefore(k, y, c);
    }
  }

  /** A date `k - DaysInYear(y)` days after January 1 of `y + 1` is `k` days after January 1 of `y`. */
  lemma YearBefore(k: int, y: int, c: Civil)
    requires y >= 1 && c.year >= y + 1 && 1 <= c.month <= 12
    requires ToOrdinal(c) == DaysBeforeYear(y + 1) + (k - DaysInYear(y)) + 1
    ensures ToOrdinal(c) == DaysBeforeYear(y) + k + 1
  {
    YearStep(y);
  }

  lemma {:induction false} LocateInYearAt(y: int, m0: int, m: int, d: int)
    requires 1 <= m0 <= m <= 12 && 1 <= d <= DaysInMonth(y, m)
    ensures DaysBeforeMonth(y, m) - DaysBeforeMonth(y, m0) + d - 1 < DaysInYear(y) - DaysBeforeMonth(y, m0)
    ensures LocateInYear(DaysBeforeMonth(y, m) - DaysBeforeMonth(y, m0) + d - 1, y, m0) == Civil(y, m, d)
    decreases m - m0
  {
    MonthFits(y, m);
    if m0 < m {
      MonthStep(y, m0);
      MonthsMonotone(y, m0 + 1, m);
      LocateInYearAt(y, m0 + 1, m, d);
    }
  }

  /** A month ends no later than its year. */
  lemma MonthFits(y: int, m: int)
    requires 1 <= m <= 12
    ensures DaysBeforeMonth(y, m) + DaysInMonth(y, m) <= DaysInYear(y)
  {
    YearIsTwelveMonths(y);
    if m < 12 {
      MonthStep(y, m);
      MonthsMonotone(y, m + 1, 12);
    }
  }

  lemma {:induction false} MonthsMonotone(y: int, a: int, b: int)
    requires 1 <= a <= b <= 12
    ensures DaysBeforeMonth(y, a) <= DaysBeforeMonth(y, b)
    decreases b - a
  {
    if a < b {
      MonthStep(y, a);
      MonthsMonotone(y, a + 1, b);
    }
  }

  lemma {:induction false} LocateAt(y0: int, c: Civil, k: int)
    requires ValidCivil(c) && 1 <= y0 <= c.year
    requires k == ToOrdinal(c) - DaysBeforeYear(y0) - 1
    ensures k >= 0 && Locate(k, y0) == c
    decreases c.year - y0
  {
    if y0 == c.year {
      LocateInOwnYear(c);
    } else {
      YearStep(y0);
      LocateAt(y0 + 1, c, k - DaysInYear(y0));
      LocateNextYear(k, y0);
    }
  }

  /** A count of at least a year's days moves the walk on to the next year. */
  lemma LocateNextYear(k: nat, y: int)
    requires y >= 1 && k >= DaysInYear(y)
    ensures Locate(k, y) == Locate(k - DaysInYear(y), y + 1)
  {
  }

  /** Within its own year a date is found by the month walk from January. */
  lemma LocateInOwnYear(c: Civil)
    requires ValidCivil(c)
    ensures ToOrdinal(c) - DaysBeforeYear(c.year) - 1 >= 0
    ensures Locate(ToOrdinal(c) - DaysBeforeYear(c.year) - 1, c.year) == c
  {
    MonthFits(c.year, c.month);
    LocateInYearAt(c.year, 1, c.month, c.day);
  }

  /** Every valid date has a representable ordinal, and converting it back gives the date. */
  lemma ToOrdinalFromOrdinal(c: Civil)
    requires ValidCivil(c)
    ensures 1 <= ToOrdinal(c) <= MaxOrdinal && FromOrdinal(ToOrdinal(c)) == c
  {
    LocateAt(1, c, ToOrdinal(c) - 1);
    YearsMonotone(c.year + 1, MaxYear + 1);
    YearStep(c.year);
    YearIsTwelveMonths(c.year);
    MonthsMonotone(c.year, c.month, 12);
    LastOrdinal();
  }

  /** Python compares dates field by field; that is the order of their ordinals. */
  predicate CivilBefore(a: Civil, b: Civil) {
    a.year < b.year || (a.year == b.year && (a.month < b.month || (a.month == b.month && a.day < b.day)))
  }

  lemma OrdinalOrder(a: Civil, b: Civil)
    requires ValidCivil(a) && ValidCivil(b)
    ensures CivilBefore(a, b) <==> ToOrdinal(a) < ToOrdinal(b)
  {
    if CivilBefore(a, b) {
      BeforeOrdinal(a, b);
    } else if CivilBefore(b, a) {
      BeforeOrdinal(b, a);
    }
  }

  lemma BeforeOrdinal(a: Civil, b: Civil)
    requires ValidCivil(a) && ValidCivil(b) && CivilBefore(a, b)
    ensures ToOrdinal(a) < ToOrdinal(b)
  {
    if a.year < b.year {
      BeforeNextYear(a);
      YearsMonotone(a.year + 1, b.year);
    } else if a.month < b.month {
      MonthStep(a.year, a.month);
      MonthsMonotone(a.year, a.month + 1, b.month);
    }
  }

  lemma BeforeNextYear(c: Civil)
    requires ValidCivil(c)
    ensures ToOrdinal(c) <= DaysBeforeYear(c.year + 1)
  {
    YearStep(c.year);
    YearIsTwelveMonths(c.year);
    MonthsMonotone(c.year, c.month, 12);
  }

  // ---------------------------------------------------------------------------
  // Months, as the monthly report steps through them

  /** `d.replace(day=1)`: the first day of the month holding `d`. */
  function MonthOf(d: Day): (c: Civil)
    ensures ValidCivil(c) && c.day == 1
    ensures ToOrdinal(c) <= d < ToOrdinal(c) + DaysInMonth(c.year, c.month)
  {
    var f := FromOrdinal(d);
    Civil(f.year, f.month, 1)
  }

  /** The first day of the month after that of `c`. */
  function NextMonth(c: Civil): Civil
    requires 1 <= c.month <= 12
  {
    if c.month == 12 then Civil(c.year + 1, 1, 1) else Civil(c.year, c.month + 1, 1)
  }

  /**
   * Adding the length of the month to its first day (`start + timedelta(days=monthrange(...)[1])`)
   * lands on the first day of the next month, unless that is past December 9999.
   */
  lemma AddMonthLength(d: Day)
    requires FromOrdinal(d).day == 1
    ensures var c := FromOrdinal(d);
      var n := d + DaysInMonth(c.year, c.month);
      (n <= MaxOrdinal <==> !(c.year == MaxYear && c.month == 12))
      && (n <= MaxOrdinal ==> FromOrdinal(n) == NextMonth(c))
  {
    var c := FromOrdinal(d);
    MonthAfter(c);
    if ValidCivil(NextMonth(c)) {
      ToOrdinalFromOrdinal(NextMonth(c));
    }
  }

  /**
   * The same step on the fields of a date: the first of the next month is a
   * month's length later, and it is a representable date unless the month is
   * December 9999.
   */
  lemma MonthAfter(c: Civil)
    requires ValidCivil(c) && c.day == 1
    ensures 1 <= ToOrdinal(c) <= MaxOrdinal
    ensures ToOrdinal(NextMonth(c)) == ToOrdinal(c) + DaysInMonth(c.year, c.month)
    ensures ValidCivil(NextMonth(c)) <==> !(c.year == MaxYear && c.month == 12)
    ensures ValidCivil(NextMonth(c)) <==> ToOrdinal(NextMonth(c)) <= MaxOrdinal
  {
    NextMonthOrdinal(c);
    ToOrdinalFromOrdinal(c);
    if c.year < MaxYear || c.month < 12 {
      ToOrdinalFromOrdinal(NextMonth(c));
    } else {
      LastOrdinal();
    }
  }

  /** The first of the next month comes as many days after the first of a month as that month is long. */
  lemma NextMonthOrdinal(c: Civil)
    requires 1 <= c.year && 1 <= c.month <= 12 && c.day == 1
    ensures ToOrdinal(NextMonth(c)) == ToOrdinal(c) + DaysInMonth(c.year, c.month)
  {
    if c.month == 12 {
      YearStep(c.year);
      YearIsTwelveMonths(c.year);
    } else {
      MonthStep(c.year, c.month);
    }
  }

  /** 9999-12-31 is the last representable day: the year 10000 would begin after it. */
  lemma LastOrdinal()
    ensures DaysBeforeYear(MaxYear + 1) == MaxOrdinal
  {
  }

  // ---------------------------------------------------------------------------
  // Dates and instants

  /** A value passed where the program accepts `dt.date | dt.datetime`. */
  datatype When = OnDate(day: Day) | At(instant: int)

  /** The day an instant falls on (`datetime.date()`). */
  function DayOf(t: int): int {
    t / MicrosPerDay
  }

  /** `to_dtime`: a datetime is kept as it is, a date becomes its midnight. */
  function ToDtime(w: When): (t: int)
    ensures w.At? ==> t == w.instant
    ensures w.OnDate? ==> DayOf(t) == w.day && t % MicrosPerDay == 0
  {
    match w
    case At(t) => t
    case OnDate(d) => d * MicrosPerDay
  }

  /** The midnight `to_dtime` gives for a date is the earliest instant of that day. */
  lemma MidnightIsEarliest(d: Day, t: int)
    ensures DayOf(t) == d <==> ToDtime(OnDate(d)) <= t < ToDtime(OnDate(d)) + MicrosPerDay
  {
  }

  /** Midnights are ordered as their dates are. */
  lemma MidnightOrder(a: Day, b: Day)
    ensures a < b <==> ToDtime(OnDate(a)) < ToDtime(OnDate(b))
  {
  }
}
