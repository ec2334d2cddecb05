/** The proleptic Gregorian calendar as Python's `datetime.date` implements it:
    dates from 0001-01-01 to 9999-12-31, day ordinals counted from 0001-01-01 = 1,
    and weekdays numbered from Monday = 0. */
module Calendar {

  datatype Date = Date(year: int, month: int, day: int)

  const MinYear := 1
  const MaxYear := 9999

  /** The last date `datetime.date` can hold; adding a day to it overflows. */
  const LastDate := Date(MaxYear, 12, 31)

  /** The weekday names, indexed by weekday number (Monday = 0). */
  const WeekdayNames: seq<string> :=
    ["monday", "tuesday", "wednesday", "thursday", "friday", "saturday", "sunday"]

  /** No name occurs twice in `names`. */
  predicate Distinct(names: seq<string>) {
    forall i, j :: 0 <= i < j < |names| ==> names[i] != names[j]
  }

  /** No two weekday names are equal. */
  lemma WeekdayNamesDistinct()
    ensures Distinct(WeekdayNames)
  {
    assert WeekdayNames[0][0] == 'm' && WeekdayNames[1][0] == 't' && WeekdayNames[2][0] == 'w';
    assert WeekdayNames[3][0] == 't' && WeekdayNames[4][0] == 'f' && WeekdayNames[5][0] == 's';
    assert WeekdayNames[6][0] == 's';
    assert WeekdayNames[1][1] == 'u' && WeekdayNames[3][1] == 'h';
    assert WeekdayNames[5][1] == 'a' && WeekdayNames[6][1] == 'u';
  }

  predicate IsLeapYear(y: int) {
    y % 4 == 0 && (y % 100 != 0 || y % 400 == 0)
  }

  function DaysInMonth(y: int, m: int): (n: int)
    requires 1 <= m <= 12
    ensures 28 <= n <= 31
    ensures n == 29 <==> m == 2 && IsLeapYear(y)
  {
    if m == 2 then (if IsLeapYear(y) then 29 else 28)
    else if m == 4 || m == 6 || m == 9 || m == 11 then 30
    else 31
  }

  /** What `datetime.date(year, month, day)` accepts without a ValueError. */
  predicate IsValid(d: Date)
    ensures IsValid(d) ==> 1 <= d.day <= 31
    ensures IsValid(d) && d.month == 2 && d.day == 29 ==> IsLeapYear(d.year)
  {
    MinYear <= d.year <= MaxYear && 1 <= d.month <= 12 && 1 <= d.day <= DaysInMonth(d.year, d.month)
  }

  /** Number of days in the years before `y`. */
  function DaysBeforeYear(y: int): int
    requires y >= 1
  {
    var p := y - 1;
    p * 365 + p / 4 - p / 100 + p / 400
  }

  /** Number of days in year `y` before the first of month `m`. */
  function DaysBeforeMonth(y: int, m: int): int
    requires 1 <= m <= 12
  {
    [0, 31, 59, 90, 120, 151, 181, 212, 243, 273, 304, 334][m - 1]
    + (if m > 2 && IsLeapYear(y) then 1 else 0)
  }

  /** `date.toordinal()`: 0001-01-01 is day 1. */
  function Ordinal(d: Date): (n: int)
    requires IsValid(d)
    ensures n >= 1
  {
    DaysBeforeYear(d.year) + DaysBeforeMonth(d.year, d.month) + d.day
  }

  /** `date.weekday()`: 0 for Monday through 6 for Sunday. */
  function Weekday(d: Date): (w: nat)
    requires IsValid(d)
    ensures w < |WeekdayNames|
  {
    (Ordinal(d) + 6) % 7
  }

  /** The calendar day after `d`, by rolling over the day, the month and the year. */
  function NextDay(d: Date): (n: Date)
    requires IsValid(d)
    ensures 1 <= n.month <= 12 && n.day >= 1
    ensures n.year == d.year || (n.year == d.year + 1 && n.month == 1 && n.day == 1)
  {
    if d.day < DaysInMonth(d.year, d.month) then Date(d.year, d.month, d.day + 1)
    else if d.month < 12 then Date(d.year, d.month + 1, 1)
    else Date(d.year + 1, 1, 1)
  }

  /** A year has 366 days when it is a leap year and 365 otherwise. */
  lemma DaysBeforeNextYear(y: int)
    requires y >= 1
    ensures DaysBeforeYear(y + 1) == DaysBeforeYear(y) + 365 + (if IsLeapYear(y) then 1 else 0)
  {
    CountStep(y, 4);
    CountStep(y, 100);
    CountStep(y, 400);
    DivisibilityChain(y);
    assert DaysBeforeYear(y + 1) == y * 365 + y / 4 - y / 100 + y / 400;
    assert DaysBeforeYear(y) == (y - 1) * 365 + (y - 1) / 4 - (y - 1) / 100 + (y - 1) / 400;
  }

  /** A multiple of 400 is a multiple of 100, which is a multiple of 4. */
  lemma DivisibilityChain(y: int)
    ensures y % 400 == 0 ==> y % 100 == 0
    ensures y % 100 == 0 ==> y % 4 == 0
  {
  }

  /** The count of multiples of `k` up to `y` grows by one exactly at a multiple of `k`. */
  lemma CountStep(y: int, k: int)
    requires k == 4 || k == 100 || k == 400
    ensures y / k - (y - 1) / k == if y % k == 0 then 1 else 0
  {
    if k == 4 {
      assert y / 4 - (y - 1) / 4 == if y % 4 == 0 then 1 else 0;
    } else if k == 100 {
      assert y / 100 - (y - 1) / 100 == if y % 100 == 0 then 1 else 0;
    } else {
      assert y / 400 - (y - 1) / 400 == if y % 400 == 0 then 1 else 0;
    }
  }

  /** Stepping to the next day adds one to the ordinal, so `NextDay` is `date + timedelta(days=1)`. */
  lemma NextDayOrdinal(d: Date)
    requires IsValid(d) && d != LastDate
    ensures IsValid(NextDay(d)) && Ordinal(NextDay(d)) == Ordinal(d) + 1
  {
    if d.day == DaysInMonth(d.year, d.month) && d.month == 12 {
      DaysBeforeNextYear(d.year);
    }
  }

  /** The weekday advances by one, wrapping from Sunday to Monday. */
  lemma NextDayWeekday(d: Date)
    requires IsValid(d) && d != LastDate
    ensures IsValid(NextDay(d)) && Weekday(NextDay(d)) == (Weekday(d) + 1) % 7
  {
    NextDayOrdinal(d);
    WeekdaysApart(d, NextDay(d), 1);
  }

  /** Two dates `k` days apart are `k` weekdays apart, modulo the week. */
  lemma WeekdaysApart(d: Date, e: Date, k: nat)
    requires IsValid(d) && IsValid(e) && Ordinal(e) == Ordinal(d) + k
    ensures Weekday(e) == (Weekday(d) + k) % 7
  {
    ShiftModWeek(Ordinal(d) + 6, k);
  }

  lemma ShiftModWeek(o: int, k: nat)
    ensures (o + k) % 7 == (o % 7 + k) % 7
  {
    assert o == 7 * (o / 7) + o % 7;
    assert o + k == 7 * (o / 7) + (o % 7 + k);
  }

  /** 2023-01-02 is a valid date and fell on a Monday. */
  lemma MondayDate()
    ensures IsValid(Date(2023, 1, 2)) && Weekday(Date(2023, 1, 2)) == 0
  {
    assert Ordinal(Date(2023, 1, 2)) == 738522;
  }

  lemma {:induction false} DaysBeforeYearMonotone(a: int, b: int)
    requires 1 <= a <= b
    ensures DaysBeforeYear(a) + 365 * (b - a) <= DaysBeforeYear(b)
    decreases b - a
  {
    if a < b {
      DaysBeforeNextYear(a);
      DaysBeforeYearMonotone(a + 1, b);
    }
  }

  /** The last day of a year is followed by the first day of the next one. */
  lemma OrdinalWithinYear(d: Date)
    requires IsValid(d)
    ensures DaysBeforeYear(d.year) < Ordinal(d) <= DaysBeforeYear(d.year + 1)
    ensures Ordinal(d) == DaysBeforeYear(d.year + 1) <==> d.month == 12 && d.day == 31
  {
    DaysBeforeNextYear(d.year);
  }

  /** Every valid date has an ordinal between 1 and that of 9999-12-31, which only that date reaches. */
  lemma OrdinalBounds(d: Date)
    requires IsValid(d)
    ensures 1 <= Ordinal(d) <= Ordinal(LastDate)
    ensures Ordinal(d) == Ordinal(LastDate) <==> d == LastDate
  {
    OrdinalWithinYear(d);
    OrdinalWithinYear(LastDate);
    if d.year < MaxYear {
      DaysBeforeYearMonotone(d.year + 1, MaxYear);
    }
  }
}
