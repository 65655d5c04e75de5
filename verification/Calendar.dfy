// The proleptic Gregorian calendar and ISO weeks (_pydatetime.py), over all
// integer years: ordinals to dates and back, ISO week dates to dates and back.
module Calendar {
  import opened Powers

  const DAYS_IN_MONTH: seq<int> := [-1, 31, 28, 31, 30, 31, 30, 31, 31, 30, 31, 30, 31]
  const DAYS_BEFORE_MONTH: seq<int> := [-1, 0, 31, 59, 90, 120, 151, 181, 212, 243, 273, 304, 334]

  datatype Date = Date(year: int, month: int, day: int)

  predicate IsLeap(year: int) { year % 4 == 0 && (year % 100 != 0 || year % 400 == 0) }

  // Days before January 1st of the year.
  function DaysBeforeYear(year: int): int {
    var y := year - 1;
    y * 365 + y / 4 - y / 100 + y / 400
  }

  function DaysInMonth(year: int, month: int): int
    requires 1 <= month <= 12
  {
    if month == 2 && IsLeap(year) then 29 else DAYS_IN_MONTH[month]
  }

  function DaysBeforeMonth(year: int, month: int): int
    requires 1 <= month <= 12
  {
    DAYS_BEFORE_MONTH[month] + (if month > 2 && IsLeap(year) then 1 else 0)
  }

  predicate ValidDate(d: Date) {
    1 <= d.month <= 12 && 1 <= d.day <= DaysInMonth(d.year, d.month)
  }

  function YmdToOrd(d: Date): int
    requires ValidDate(d)
  {
    DaysBeforeYear(d.year) + DaysBeforeMonth(d.year, d.month) + d.day
  }

  const DI400Y := DaysBeforeYear(401)
  const DI100Y := DaysBeforeYear(101)
  const DI4Y := DaysBeforeYear(5)

  lemma CycleLengths()
    ensures DI4Y == 4 * 365 + 1 && DI400Y == 4 * DI100Y + 1 && DI100Y == 25 * DI4Y - 1
  {
  }

  // Thirty days have April, June, September and November.
  lemma MonthLengths(year: int, month: int)
    requires 1 <= month <= 12
    ensures month in {1, 3, 5, 7, 8, 10, 12} ==> DaysInMonth(year, month) == 31
    ensures month in {4, 6, 9, 11} ==> DaysInMonth(year, month) == 30
    ensures month == 2 ==>
      DaysInMonth(year, month) == if year % 400 == 0 || (year % 4 == 0 && year % 100 != 0) then 29 else 28
  {
  }

  // The table of days before each month is the running sum of the month lengths.
  lemma MonthsAddUp(year: int, month: int)
    requires 1 <= month <= 12
    ensures DaysBeforeMonth(year, 1) == 0
    ensures month < 12 ==> DaysBeforeMonth(year, month + 1) == DaysBeforeMonth(year, month) + DaysInMonth(year, month)
    ensures month == 12 ==> DaysBeforeMonth(year, month) + DaysInMonth(year, month) == YearLength(year)
  {
  }

  function YearLength(year: int): int { if IsLeap(year) then 366 else 365 }

  lemma YearsAddUp(year: int)
    ensures DaysBeforeYear(year + 1) == DaysBeforeYear(year) + YearLength(year)
  {
    NextQuotient(year - 1, 4);
    NextQuotient(year - 1, 100);
    NextQuotient(year - 1, 400);
    CommonMultiples(year);
  }

  lemma NextQuotient(y: int, k: int)
    requires k > 1
    ensures (y + 1) / k == y / k + (if (y + 1) % k == 0 then 1 else 0)
    ensures (y + 1) % k == 0 <==> y % k == k - 1
  {
    var q, r := y / k, y % k;
    DivMod(y, k);
    if r + 1 == k {
      DistributeOne(q, k);
      DivModUnique(y + 1, k, q + 1, 0);
    } else {
      DivModUnique(y + 1, k, q, r + 1);
    }
  }

  // Centuries are multiples of 4, and multiples of 400 are centuries.
  lemma CommonMultiples(y: int)
    ensures y % 100 == 0 ==> y % 4 == 0
    ensures y % 400 == 0 ==> y % 100 == 0
  {
    DivMod(y, 100);
    DivAddMultiple(0, 25 * (y / 100), 4);
    DivMod(y, 400);
    DivAddMultiple(0, 4 * (y / 400), 100);
  }

  // ----- ordinals to dates -----

  // Splitting a day offset into 400-, 100-, 4- and 1-year cycles.
  lemma CyclesOf(n400: int, n100: int, n4: int, n1: int)
    requires 0 <= n100 < 4 && 0 <= n4 < 25 && 0 <= n1 < 4
    ensures var year := n400 * 400 + 1 + n100 * 100 + n4 * 4 + n1;
      && DaysBeforeYear(year) == n400 * 146097 + n100 * 36524 + n4 * 1461 + n1 * 365
      && (IsLeap(year) <==> n1 == 3 && (n4 != 24 || n100 == 3))
  {
    var y := n400 * 400 + n100 * 100 + n4 * 4 + n1;
    DivModUnique(y, 4, n400 * 100 + n100 * 25 + n4, n1);
    DivModUnique(y, 100, n400 * 4 + n100, n4 * 4 + n1);
    DivModUnique(y, 400, n400, n100 * 100 + n4 * 4 + n1);
    NextQuotient(y, 4);
    NextQuotient(y, 100);
    NextQuotient(y, 400);
    hide DaysInMonth, DaysBeforeMonth;
  }

  // The month of a day offset within a year, by the estimate of the source.
  function MonthOf(n: int, leap: bool): (r: (int, int))
    requires 0 <= n < (if leap then 366 else 365)
  {
    var month := (n + 50) / 32;
    var preceding := DAYS_BEFORE_MONTH[month] + (if month > 2 && leap then 1 else 0);
    if preceding > n then
      (month - 1, preceding - (DAYS_IN_MONTH[month - 1] + (if month - 1 == 2 && leap then 1 else 0)))
    else (month, preceding)
  }

  // The estimate is exact or one too large.
  lemma MonthEstimate(year: int, n: int)
    requires 0 <= n < YearLength(year)
    ensures var (month, preceding) := MonthOf(n, IsLeap(year));
      && 1 <= month <= 12 && preceding == DaysBeforeMonth(year, month)
      && 0 <= n - preceding < DaysInMonth(year, month)
  {
  }

  function OrdToYmd(ord: int): (d: Date)
    ensures ValidDate(d) && YmdToOrd(d) == ord
  {
    CycleLengths();
    var n0 := ord - 1;
    var n400, a := n0 / DI400Y, n0 % DI400Y;
    var n100, b := a / DI100Y, a % DI100Y;
    var n4, c := b / DI4Y, b % DI4Y;
    var n1, n := c / 365, c % 365;
    var year := n400 * 400 + 1 + n100 * 100 + n4 * 4 + n1;
    if n1 == 4 || n100 == 4 then
      assert n == 0;
      LastDay(n400, n100, n4, n1, ord);
      Date(year - 1, 12, 31)
    else
      CyclesOf(n400, n100, n4, n1);
      var leap := n1 == 3 && (n4 != 24 || n100 == 3);
      assert leap == IsLeap(year);
      MonthEstimate(year, n);
      var (month, preceding) := MonthOf(n, leap);
      assert 0 <= n - preceding < DaysInMonth(year, month);
      Date(year, month, n - preceding + 1)
  }

  // Day 366 of a leap year at the end of a 4-year or 400-year cycle.
  lemma LastDay(n400: int, n100: int, n4: int, n1: int, ord: int)
    requires ord - 1 == n400 * 146097 + n100 * 36524 + n4 * 1461 + n1 * 365
    requires (n100 == 4 && n4 == 0 && n1 == 0) || (0 <= n100 < 4 && 0 <= n4 < 25 && n1 == 4 && (n4 == 24 ==> n100 == 3))
    ensures var d := Date(n400 * 400 + n100 * 100 + n4 * 4 + n1, 12, 31);
      ValidDate(d) && YmdToOrd(d) == ord
  {
    if n100 == 4 {
      CyclesOf(n400, 3, 24, 3);
    } else {
      CyclesOf(n400, n100, n4, 3);
    }
  }

  // ----- the bijection -----

  predicate Before(a: Date, b: Date) {
    a.year < b.year || (a.year == b.year && (a.month < b.month || (a.month == b.month && a.day < b.day)))
  }

  lemma {:induction false} YearsMonotonic(a: int, b: int)
    requires a <= b
    ensures DaysBeforeYear(a) + 365 * (b - a) <= DaysBeforeYear(b)
    decreases b - a
  {
    if a < b {
      YearsAddUp(b - 1);
      YearsMonotonic(a, b - 1);
    }
  }

  lemma OrdInYear(d: Date)
    requires ValidDate(d)
    ensures DaysBeforeYear(d.year) < YmdToOrd(d) <= DaysBeforeYear(d.year + 1)
  {
    YearsAddUp(d.year);
  }

  // Ordinals order dates as the calendar does.
  lemma OrdOrder(a: Date, b: Date)
    requires ValidDate(a) && ValidDate(b)
    ensures Before(a, b) <==> YmdToOrd(a) < YmdToOrd(b)
    ensures a == b <==> YmdToOrd(a) == YmdToOrd(b)
  {
    OrdInYear(a);
    OrdInYear(b);
    hide IsLeap, DaysBeforeYear;
    if a.year < b.year {
      YearsMonotonic(a.year + 1, b.year);
    } else if b.year < a.year {
      YearsMonotonic(b.year + 1, a.year);
    } else if a.month < b.month {
      MonthsMonotonic(a.year, a.month, b.month);
    } else if b.month < a.month {
      MonthsMonotonic(a.year, b.month, a.month);
    }
  }

  lemma {:induction false} MonthsMonotonic(year: int, m: int, n: int)
    requires 1 <= m < n <= 12
    ensures DaysBeforeMonth(year, m) + DaysInMonth(year, m) <= DaysBeforeMonth(year, n)
    decreases n - m
  {
    MonthsAddUp(year, n - 1);
    if m < n - 1 {
      MonthsMonotonic(year, m, n - 1);
    }
  }

  // Converting a valid date to an ordinal and back gives the date.
  lemma DateRoundTrip(d: Date)
    requires ValidDate(d)
    ensures OrdToYmd(YmdToOrd(d)) == d
  {
    OrdOrder(OrdToYmd(YmdToOrd(d)), d);
  }

  // ----- ISO weeks -----

  // The day number of the Monday that starts week 1.
  function IsoWeek1Monday(year: int): int {
    var firstDay := YmdToOrd(Date(year, 1, 1));
    var firstWeekday := (firstDay + 6) % 7;
    var monday := firstDay - firstWeekday;
    if firstWeekday > 3 then monday + 7 else monday
  }

  datatype IsoDate = IsoDate(year: int, week: int, day: int)

  function IsoCalendar(d: Date): IsoDate
    requires ValidDate(d)
  {
    var today := YmdToOrd(d);
    var offset := today - IsoWeek1Monday(d.year);
    var week, day := offset / 7, offset % 7;
    if week < 0 then
      var offset' := today - IsoWeek1Monday(d.year - 1);
      IsoDate(d.year - 1, offset' / 7 + 1, offset' % 7 + 1)
    else if week >= 52 && today >= IsoWeek1Monday(d.year + 1) then IsoDate(d.year + 1, 1, day + 1)
    else IsoDate(d.year, week + 1, day + 1)
  }

  const MINYEAR := 1
  const MAXYEAR := 9999

  datatype IsoResult = Gregorian(date: Date) | InvalidYear | InvalidWeek | InvalidWeekday

  function FromIso(year: int, week: int, day: int): IsoResult {
    if !(MINYEAR <= year <= MAXYEAR) then InvalidYear
    else if !(0 < week < 53) && !(week == 53 && LongYear(year)) then InvalidWeek
    else if !(0 < day < 8) then InvalidWeekday
    else Gregorian(OrdToYmd(IsoWeek1Monday(year) + (week - 1) * 7 + (day - 1)))
  }

  // Years starting on a Thursday and leap years starting on a Wednesday.
  predicate LongYear(year: int) {
    var firstWeekday := YmdToOrd(Date(year, 1, 1)) % 7;
    firstWeekday == 4 || (firstWeekday == 3 && IsLeap(year))
  }

  // Week 1 is the week, starting on a Monday, that contains January 4th (ordinal
  // 1 is a Monday).
  lemma Week1(year: int)
    ensures IsoWeek1Monday(year) % 7 == 1
    ensures IsoWeek1Monday(year) <= YmdToOrd(Date(year, 1, 4)) <= IsoWeek1Monday(year) + 6
  {
    WeekArithmetic(YmdToOrd(Date(year, 1, 1)));
  }

  lemma WeekArithmetic(first: int)
    ensures var w := (first + 6) % 7;
      var monday := if w > 3 then first - w + 7 else first - w;
      monday % 7 == 1 && monday <= first + 3 <= monday + 6
  {
  }

  function WeeksInYear(year: int): (w: int)
    ensures 52 <= w <= 53
  {
    if LongYear(year) then 53 else 52
  }

  // A year has 53 weeks exactly when the source accepts week 53 in it.
  lemma IsoYearLength(year: int)
    ensures IsoWeek1Monday(year + 1) == IsoWeek1Monday(year) + 7 * WeeksInYear(year)
  {
    YearsAddUp(year);
    var first := YmdToOrd(Date(year, 1, 1));
    assert YmdToOrd(Date(year + 1, 1, 1)) == first + YearLength(year);
    YearLengthInWeeks(first, YearLength(year));
  }

  lemma YearLengthInWeeks(first: int, length: int)
    requires length == 365 || length == 366
    ensures var w, v := (first + 6) % 7, (first + length + 6) % 7;
      var m, m' := first - w + (if w > 3 then 7 else 0), first + length - v + (if v > 3 then 7 else 0);
      m' == m + (if first % 7 == 4 || (first % 7 == 3 && length == 366) then 371 else 364)
  {
    var k := first / 7;
    assert first == 7 * k + first % 7;
  }

  // (year, week, day) is the ISO date of the day with this ordinal.
  ghost predicate IsIsoDate(i: IsoDate, ord: int) {
    && 1 <= i.week <= WeeksInYear(i.year) && 1 <= i.day <= 7
    && ord == IsoWeek1Monday(i.year) + (i.week - 1) * 7 + (i.day - 1)
  }

  lemma IsoCalendarCorrect(d: Date)
    requires ValidDate(d)
    ensures IsIsoDate(IsoCalendar(d), YmdToOrd(d))
  {
    hide *;
    var y := d.year;
    IsoYearLength(y);
    IsoYearLength(y - 1);
    NearYear(d);
    IsoOffsets(YmdToOrd(d), IsoWeek1Monday(y - 1), IsoWeek1Monday(y), IsoWeek1Monday(y + 1),
      WeeksInYear(y - 1), WeeksInYear(y));
    IsoCalendarCases(d);
  }

  // The three cases of isocalendar, from where the day lies among the Mondays.
  lemma IsoCalendarCases(d: Date)
    requires ValidDate(d)
    requires var (today, previous, monday, next) :=
        (YmdToOrd(d), IsoWeek1Monday(d.year - 1), IsoWeek1Monday(d.year), IsoWeek1Monday(d.year + 1));
      IsoOffsetFacts(today, previous, monday, next, WeeksInYear(d.year - 1), WeeksInYear(d.year))
    ensures IsIsoDate(IsoCalendar(d), YmdToOrd(d))
  {
    hide IsoWeek1Monday, LongYear, YmdToOrd, ValidDate;
  }

  // Where a day lies among the first Mondays of the years around it.
  ghost predicate IsoOffsetFacts(today: int, previous: int, monday: int, next: int, weeksBefore: int, weeks: int) {
    var week, day := (today - monday) / 7, (today - monday) % 7;
    var week', day' := (today - previous) / 7, (today - previous) % 7;
    && 0 <= day <= 6 && today - monday == 7 * week + day
    && 0 <= day' <= 6 && today - previous == 7 * week' + day'
    && (week < 0 ==> 0 <= week' < weeksBefore)
    && (0 <= week < 52 ==> week < weeks)
    && (week >= 52 && today >= next ==> today - next == day)
    && (week >= 52 && today < next ==> week < weeks)
    && 52 <= weeks
  }

  // A date is at most three days before or after the ISO year of its year.
  lemma NearYear(d: Date)
    requires ValidDate(d)
    ensures IsoWeek1Monday(d.year) - 4 < YmdToOrd(d) < IsoWeek1Monday(d.year + 1) + 4
  {
    OrdInYear(d);
    Week1(d.year);
    Week1(d.year + 1);
    JanuaryFirst(d.year);
    JanuaryFirst(d.year + 1);
  }

  lemma JanuaryFirst(year: int)
    ensures YmdToOrd(Date(year, 1, 1)) == DaysBeforeYear(year) + 1
    ensures YmdToOrd(Date(year, 1, 4)) == DaysBeforeYear(year) + 4
  {
  }

  lemma IsoOffsets(today: int, previous: int, monday: int, next: int, weeksBefore: int, weeks: int)
    requires monday == previous + 7 * weeksBefore && next == monday + 7 * weeks
    requires 52 <= weeksBefore <= 53 && 52 <= weeks <= 53
    requires monday - 4 < today < next + 4
    ensures IsoOffsetFacts(today, previous, monday, next, weeksBefore, weeks)
  {
  }

  lemma {:induction false} IsoYearsMonotonic(a: int, b: int)
    requires a <= b
    ensures IsoWeek1Monday(a) + 364 * (b - a) <= IsoWeek1Monday(b)
    decreases b - a
  {
    if a < b {
      IsoYearLength(b - 1);
      IsoYearsMonotonic(a, b - 1);
    }
  }

  // Every day has one ISO date.
  lemma IsoDateUnique(i: IsoDate, j: IsoDate, ord: int)
    requires IsIsoDate(i, ord) && IsIsoDate(j, ord)
    ensures i == j
  {
    IsoYearLength(i.year);
    IsoYearLength(j.year);
    hide IsoWeek1Monday, LongYear;
    if i.year < j.year {
      IsoYearsMonotonic(i.year + 1, j.year);
    } else if j.year < i.year {
      IsoYearsMonotonic(j.year + 1, i.year);
    }
  }

  // What is accepted: years in range, existing weeks, days 1 to 7.
  lemma FromIsoAccepts(year: int, week: int, day: int)
    ensures FromIso(year, week, day).Gregorian?
      <==> 1 <= year <= 9999 && 1 <= week <= WeeksInYear(year) && 1 <= day <= 7
    ensures FromIso(year, week, day).Gregorian? ==>
      FromIso(year, week, day).date == OrdToYmd(IsoWeek1Monday(year) + (week - 1) * 7 + (day - 1))
  {
    hide IsoWeek1Monday, OrdToYmd, LongYear;
  }

  // An accepted ISO date converts to the date whose ISO date it is, even for the
  // days of the last week that fall after MAXYEAR.
  lemma FromIsoRoundTrip(year: int, week: int, day: int)
    requires FromIso(year, week, day).Gregorian?
    ensures ValidDate(FromIso(year, week, day).date)
    ensures IsoCalendar(FromIso(year, week, day).date) == IsoDate(year, week, day)
  {
    FromIsoAccepts(year, week, day);
    var d := FromIso(year, week, day).date;
    IsoCalendarCorrect(d);
    hide IsoWeek1Monday, LongYear, IsoCalendar, FromIso, WeeksInYear, YmdToOrd, OrdToYmd;
    IsoDateUnique(IsoCalendar(d), IsoDate(year, week, day), YmdToOrd(d));
  }

  // Every date of the supported years is recovered from its ISO date.
  lemma IsoRoundTrip(d: Date)
    requires ValidDate(d) && MINYEAR <= d.year <= MAXYEAR
    ensures var i := IsoCalendar(d); FromIso(i.year, i.week, i.day) == Gregorian(d)
  {
    hide IsoWeek1Monday, OrdToYmd, LongYear, YmdToOrd, ValidDate, IsoCalendar, FromIso, WeeksInYear;
    var i := IsoCalendar(d);
    IsoCalendarCorrect(d);
    IsoYearInRange(d);
    FromIsoAccepts(i.year, i.week, i.day);
    DateRoundTrip(d);
  }

  lemma IsoYearInRange(d: Date)
    requires ValidDate(d) && MINYEAR <= d.year <= MAXYEAR
    ensures MINYEAR <= IsoCalendar(d).year <= MAXYEAR
  {
    IsoYearBetween(d, 1, 10000);
  }

  lemma IsoYearBetween(d: Date, first: int, last: int)
    requires ValidDate(d) && first == 1 && last == 10000 && first <= d.year < last
    ensures first <= IsoCalendar(d).year < last
  {
    hide *;
    var i := IsoCalendar(d);
    IsoCalendarCorrect(d);
    WithinIsoYear(i, YmdToOrd(d));
    OrdInYear(d);
    Anchors(first, last);
    YearsMonotonic(first, d.year);
    YearsMonotonic(d.year + 1, last);
    if i.year < first {
      IsoYearsMonotonic(i.year + 1, first);
    } else if i.year >= last {
      IsoYearsMonotonic(last, i.year);
    }
  }

  lemma WithinIsoYear(i: IsoDate, ord: int)
    requires IsIsoDate(i, ord)
    ensures IsoWeek1Monday(i.year) <= ord < IsoWeek1Monday(i.year + 1)
  {
    hide IsoWeek1Monday, WeeksInYear;
    IsoYearLength(i.year);
  }

  // 1 January of year 1 is a Monday; 31 December 9999 is a Friday.
  lemma Anchors(first: int, last: int)
    requires first == 1 && last == 10000
    ensures DaysBeforeYear(first) == 0 && IsoWeek1Monday(first) == 1
    ensures DaysBeforeYear(last) == 3652059 && IsoWeek1Monday(last) == 3652062
  {
    hide *;
    AnchorDays(first, last);
    FirstMonday(first, 1);
    FirstMonday(last, 3652060);
  }

  lemma FirstMonday(year: int, first: int)
    requires DaysBeforeYear(year) + 1 == first
    ensures IsoWeek1Monday(year) == first - (first + 6) % 7 + (if (first + 6) % 7 > 3 then 7 else 0)
  {
    JanuaryFirst(year);
  }

  lemma AnchorDays(first: int, last: int)
    requires first == 1 && last == 10000
    ensures DaysBeforeYear(first) == 0 && DaysBeforeYear(last) == 3652059
  {
  }
}
