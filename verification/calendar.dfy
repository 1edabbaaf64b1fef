/** The proleptic Gregorian calendar as Python's `datetime` implements it: dates
    run from 1 January of year 1 to 31 December 9999, each date has an ordinal
    (1 January of year 1 is day 1, as `date.toordinal`), and weekdays are numbered
    from Monday = 0, as `date.weekday`. */
module Calendar {
  import opened Results

  const MinYear: int := 1
  const MaxYear: int := 9999

  /** Ordinal of 31 December 9999, the last date Python can represent. */
  const MaxOrdinal: int := 3652059

  datatype Date = Date(year: int, month: int, day: int)

  const FirstDate: Date := Date(MinYear, 1, 1)
  const LastDate: Date := Date(MaxYear, 12, 31)

  /** Errors raised while building or shifting a date. */
  datatype DateError =
    | YearOutOfRange   // ValueError: the year lies outside 1..9999
    | DayOutOfRange    // ValueError: the day does not exist in that month
    | Overflow         // OverflowError: date arithmetic left the representable range

  /** Gregorian rule: every fourth year, except centuries not divisible by 400. */
  predicate IsLeap(y: int) {
    y % 4 == 0 && (y % 100 != 0 || y % 400 == 0)
  }

  function DaysInYear(y: int): int {
    if IsLeap(y) then 366 else 365
  }

  function DaysInMonth(y: int, m: int): int
    requires 1 <= m <= 12
  {
    if m == 2 then (if IsLeap(y) then 29 else 28)
    else if m == 4 || m == 6 || m == 9 || m == 11 then 30
    else 31
  }

  predicate ValidDate(d: Date) {
    && MinYear <= d.year <= MaxYear
    && 1 <= d.month <= 12
    && 1 <= d.day <= DaysInMonth(d.year, d.month)
  }

  /** Days in the years before year `y`: the lengths of years 1..y-1 summed. */
  function DaysBeforeYear(y: int): int
    requires y >= 1
    decreases y
  {
    if y == 1 then 0 else DaysBeforeYear(y - 1) + DaysInYear(y - 1)
  }

  /** The closed form Python's `datetime` module uses for the same count. */
  function ClosedDaysBeforeYear(y: int): int
    requires y >= 1
  {
    var p := y - 1;
    p * 365 + p / 4 - p / 100 + p / 400
  }

  /** Days in a common year before month `m` (index 0 unused). */
  const CommonDaysBeforeMonth: seq<int> := [0, 0, 31, 59, 90, 120, 151, 181, 212, 243, 273, 304, 334]

  /** Days in year `y` before the first of month `m`. */
  function DaysBeforeMonth(y: int, m: int): int
    requires 1 <= m <= 12
  {
    CommonDaysBeforeMonth[m] + (if m > 2 && IsLeap(y) then 1 else 0)
  }

  function Ordinal(d: Date): int
    requires ValidDate(d)
  {
    DaysBeforeYear(d.year) + DaysBeforeMonth(d.year, d.month) + d.day
  }

  /** Weekday of the date with ordinal `n`; ordinal 1 is a Monday. */
  function DayOfWeek(n: int): int {
    (n + 6) % 7
  }

  function Weekday(d: Date): int
    requires ValidDate(d)
  {
    DayOfWeek(Ordinal(d))
  }

  /** Python's field-by-field comparison of dates. */
  predicate DateBefore(a: Date, b: Date) {
    || a.year < b.year
    || (a.year == b.year && a.month < b.month)
    || (a.year == b.year && a.month == b.month && a.day < b.day)
  }

  // ---------------------------------------------------------------------------
  // Lengths of years and months in ordinal terms

  lemma YearLength(y: int)
    requires y >= 1
    ensures DaysBeforeYear(y + 1) == DaysBeforeYear(y) + DaysInYear(y)
  {
  }

  /** The closed form counts the same days as summing year lengths: a year's
      leap day is counted once when the year is a multiple of 4, and taken back
      for a century that is not a multiple of 400. */
  lemma {:induction false} ClosedFormAgrees(y: int)
    requires y >= 1
    ensures ClosedDaysBeforeYear(y) == DaysBeforeYear(y)
    decreases y
  {
    if y > 1 {
      ClosedFormAgrees(y - 1);
      ClosedFormStep(y - 1);
    }
  }

  /** Moving the closed form one year on adds that year's length. */
  lemma ClosedFormStep(y: int)
    requires y >= 1
    ensures ClosedDaysBeforeYear(y + 1) == ClosedDaysBeforeYear(y) + DaysInYear(y)
  {
    var p := y - 1;
    NextQuotient4(p);
    NextQuotient100(p);
    NextQuotient400(p);
    LeapDays(y);
  }

  /** A year's length counts its multiples of 4, 100 and 400 as the closed form does. */
  lemma LeapDays(y: int)
    ensures DaysInYear(y) ==
      365 + (if y % 4 == 0 then 1 else 0) - (if y % 100 == 0 then 1 else 0) + (if y % 400 == 0 then 1 else 0)
  {
    if y % 100 == 0 {
      var k := y / 100;
      assert y == 4 * (25 * k);
    }
    if y % 400 == 0 {
      var k := y / 400;
      assert y == 100 * (4 * k);
    }
  }

  lemma NextQuotient4(p: int)
    requires p >= 0
    ensures (p + 1) / 4 == p / 4 + (if (p + 1) % 4 == 0 then 1 else 0)
  {
  }

  lemma NextQuotient100(p: int)
    requires p >= 0
    ensures (p + 1) / 100 == p / 100 + (if (p + 1) % 100 == 0 then 1 else 0)
  {
  }

  lemma NextQuotient400(p: int)
    requires p >= 0
    ensures (p + 1) / 400 == p / 400 + (if (p + 1) % 400 == 0 then 1 else 0)
  {
  }

  lemma MonthFits(y: int, m: int)
    requires 1 <= m <= 12
    ensures m < 12 ==> DaysBeforeMonth(y, m + 1) == DaysBeforeMonth(y, m) + DaysInMonth(y, m)
    ensures m == 12 ==> DaysBeforeMonth(y, m) + DaysInMonth(y, m) == DaysInYear(y)
  {
  }

  lemma {:induction false} DaysBeforeMonthMonotone(y: int, m1: int, m2: int)
    requires 1 <= m1 < m2 <= 12
    ensures DaysBeforeMonth(y, m1) + DaysInMonth(y, m1) <= DaysBeforeMonth(y, m2)
    decreases m2 - m1
  {
    MonthFits(y, m1);
    if m1 + 1 < m2 {
      DaysBeforeMonthMonotone(y, m1 + 1, m2);
      MonthFits(y, m1 + 1);
    }
  }

  lemma {:induction false} DaysBeforeYearMonotone(y1: int, y2: int)
    requires 1 <= y1 < y2
    ensures DaysBeforeYear(y1) + DaysInYear(y1) <= DaysBeforeYear(y2)
    decreases y2 - y1
  {
    YearLength(y1);
    if y1 + 1 < y2 {
      DaysBeforeYearMonotone(y1 + 1, y2);
    }
  }

  /** The last ordinal of a date's year bounds the date's own ordinal. */
  lemma OrdinalWithinYear(d: Date)
    requires ValidDate(d)
    ensures DaysBeforeYear(d.year) < Ordinal(d) <= DaysBeforeYear(d.year) + DaysInYear(d.year)
  {
    MonthFits(d.year, 12);
    if d.month < 12 {
      DaysBeforeMonthMonotone(d.year, d.month, 12);
    }
  }

  /** Ordinals follow Python's date order: earlier dates have smaller ordinals. */
  lemma OrdinalMonotone(a: Date, b: Date)
    requires ValidDate(a) && ValidDate(b)
    ensures DateBefore(a, b) <==> Ordinal(a) < Ordinal(b)
  {
    if a.year < b.year {
      OrdinalWithinYear(a);
      OrdinalWithinYear(b);
      DaysBeforeYearMonotone(a.year, b.year);
    } else if b.year < a.year {
      OrdinalWithinYear(a);
      OrdinalWithinYear(b);
      DaysBeforeYearMonotone(b.year, a.year);
    } else if a.month < b.month {
      DaysBeforeMonthMonotone(a.year, a.month, b.month);
    } else if b.month < a.month {
      DaysBeforeMonthMonotone(a.year, b.month, a.month);
    }
  }

  /** Distinct dates have distinct ordinals. */
  lemma OrdinalInjective(a: Date, b: Date)
    requires ValidDate(a) && ValidDate(b)
    ensures Ordinal(a) == Ordinal(b) <==> a == b
  {
    OrdinalMonotone(a, b);
    OrdinalMonotone(b, a);
  }

  lemma LastMonthStart()
    ensures DaysBeforeMonth(MaxYear, 12) == 334
  {
  }

  lemma LastYearStart()
    ensures DaysBeforeYear(MaxYear) == 3651694
  {
    ClosedFormAgrees(MaxYear);
  }

  lemma FirstOrdinal()
    ensures ValidDate(FirstDate) && Ordinal(FirstDate) == 1
  {
  }

  lemma LastOrdinal()
    ensures ValidDate(LastDate) && Ordinal(LastDate) == MaxOrdinal
  {
    LastMonthStart();
    LastYearStart();
  }

  /** Every representable date has an ordinal in 1..MaxOrdinal. */
  lemma OrdinalRange(d: Date)
    requires ValidDate(d)
    ensures 1 <= Ordinal(d) <= MaxOrdinal
  {
    OrdinalLowerBound(d);
    OrdinalUpperBound(d);
  }

  lemma OrdinalLowerBound(d: Date)
    requires ValidDate(d)
    ensures 1 <= Ordinal(d)
  {
    if d.year > 1 {
      DaysBeforeYearMonotone(1, d.year);
    }
  }

  lemma OrdinalUpperBound(d: Date)
    requires ValidDate(d)
    ensures Ordinal(d) <= MaxOrdinal
  {
    LastOrdinal();
    OrdinalMonotone(d, LastDate);
  }

  // ---------------------------------------------------------------------------
  // Day arithmetic: `date + timedelta(days=k)`

  /** The following calendar day. */
  function Succ(d: Date): (r: Date)
    requires ValidDate(d) && d != LastDate
    ensures ValidDate(r) && Ordinal(r) == Ordinal(d) + 1
  {
    MonthFits(d.year, d.month);
    if d.day < DaysInMonth(d.year, d.month) then Date(d.year, d.month, d.day + 1)
    else if d.month < 12 then Date(d.year, d.month + 1, 1)
    else YearLength(d.year); Date(d.year + 1, 1, 1)
  }

  /** The preceding calendar day. */
  function Pred(d: Date): (r: Date)
    requires ValidDate(d) && d != FirstDate
    ensures ValidDate(r) && Ordinal(r) == Ordinal(d) - 1
  {
    if d.day > 1 then Date(d.year, d.month, d.day - 1)
    else if d.month > 1 then
      MonthFits(d.year, d.month - 1);
      Date(d.year, d.month - 1, DaysInMonth(d.year, d.month - 1))
    else
      YearLength(d.year - 1);
      MonthFits(d.year - 1, 12);
      Date(d.year - 1, 12, 31)
  }

  /** `d + timedelta(days=k)`: the date `k` days later (earlier when `k < 0`),
      or OverflowError when that date is not representable. */
  function AddDays(d: Date, k: int): (r: Result<Date, DateError>)
    requires ValidDate(d)
    ensures r.Success? <==> 1 <= Ordinal(d) + k <= MaxOrdinal
    ensures r.Success? ==> ValidDate(r.value) && Ordinal(r.value) == Ordinal(d) + k
    ensures r.Failure? ==> r.error == Overflow
  {
    OrdinalRange(d);
    if k >= 0 then Forward(d, k) else Backward(d, -k)
  }

  function Forward(d: Date, k: nat): (r: Result<Date, DateError>)
    requires ValidDate(d)
    ensures r.Success? <==> Ordinal(d) + k <= MaxOrdinal
    ensures r.Success? ==> ValidDate(r.value) && Ordinal(r.value) == Ordinal(d) + k
    ensures r.Failure? ==> r.error == Overflow
    decreases k
  {
    OrdinalRange(d);
    if k == 0 then Success(d)
    else if Ordinal(d) == MaxOrdinal then Failure(Overflow)
    else
      NotLastDate(d);
      Forward(Succ(d), k - 1)
  }

  function Backward(d: Date, k: nat): (r: Result<Date, DateError>)
    requires ValidDate(d)
    ensures r.Success? <==> 1 <= Ordinal(d) - k
    ensures r.Success? ==> ValidDate(r.value) && Ordinal(r.value) == Ordinal(d) - k
    ensures r.Failure? ==> r.error == Overflow
    decreases k
  {
    OrdinalRange(d);
    if k == 0 then Success(d)
    else if Ordinal(d) == 1 then Failure(Overflow)
    else
      NotFirstDate(d);
      Backward(Pred(d), k - 1)
  }

  /** A date whose ordinal is below the last one is not the last date. */
  lemma NotLastDate(d: Date)
    requires ValidDate(d) && Ordinal(d) != MaxOrdinal
    ensures d != LastDate
  {
    LastOrdinal();
  }

  /** A date whose ordinal is above 1 is not the first date. */
  lemma NotFirstDate(d: Date)
    requires ValidDate(d) && Ordinal(d) != 1
    ensures d != FirstDate
  {
    FirstOrdinal();
  }

  /** `d.replace(year=y)`: the same day and month in year `y`. */
  function ReplaceYear(d: Date, y: int): (r: Result<Date, DateError>)
    requires ValidDate(d)
    ensures r.Success? <==> MinYear <= y <= MaxYear && !(d.month == 2 && d.day == 29 && !IsLeap(y))
    ensures r.Success? ==> ValidDate(r.value) && r.value == Date(y, d.month, d.day)
    ensures r.Failure? && !(MinYear <= y <= MaxYear) ==> r.error == YearOutOfRange
  {
    if !(MinYear <= y <= MaxYear) then Failure(YearOutOfRange)
    else if d.day > DaysInMonth(y, d.month) then Failure(DayOutOfRange)
    else Success(Date(y, d.month, d.day))
  }
}
