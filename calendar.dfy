/** A minimal proleptic Gregorian calendar: the part of a date library that the
    date constraints rely on (validity, month lengths, the order of dates, the
    next and previous day, and the day of the week). */
module Calendar {

  datatype Weekday = Mon | Tue | Wed | Thu | Fri | Sat | Sun

  datatype Month =
    | January | February | March | April | May | June
    | July | August | September | October | November | December

  /** The number of a month, January being 1. */
  function MonthNumber(m: Month): (n: int)
    ensures 1 <= n <= 12
  {
    match m
    case January => 1   case February => 2  case March => 3
    case April => 4     case May => 5       case June => 6
    case July => 7      case August => 8    case September => 9
    case October => 10  case November => 11 case December => 12
  }

  /** The month with number `n`; defined for 1..12 only, as the conversion
      from a date's month number never fails. */
  function MonthFromNumber(n: int): (m: Month)
    requires 1 <= n <= 12
    ensures MonthNumber(m) == n
  {
    if n == 1 then January else if n == 2 then February
    else if n == 3 then March else if n == 4 then April
    else if n == 5 then May else if n == 6 then June
    else if n == 7 then July else if n == 8 then August
    else if n == 9 then September else if n == 10 then October
    else if n == 11 then November else December
  }

  lemma MonthNumberRoundTrip(m: Month)
    ensures MonthFromNumber(MonthNumber(m)) == m
  {
  }

  /** Gregorian leap-year rule; `%` is Euclidean, so it also holds for year 0
      and negative years of the proleptic calendar. */
  predicate IsLeapYear(y: int) {
    y % 4 == 0 && (y % 100 != 0 || y % 400 == 0)
  }

  function DaysInMonth(y: int, m: int): (n: int)
    requires 1 <= m <= 12
    ensures 28 <= n <= 31
    ensures m == 2 ==> (n == 29 <==> IsLeapYear(y))
    ensures m != 2 ==> n >= 30
  {
    if m == 2 then (if IsLeapYear(y) then 29 else 28)
    else if m == 4 || m == 6 || m == 9 || m == 11 then 30
    else 31
  }

  function DaysInYear(y: int): int {
    if IsLeapYear(y) then 366 else 365
  }

  datatype YearMonthDay = Ymd(year: int, month: int, day: int)

  predicate IsValid(d: YearMonthDay) {
    1 <= d.month <= 12 && 1 <= d.day <= DaysInMonth(d.year, d.month)
  }

  /** A calendar date; like a naive date of a date library, it cannot hold an
      invalid month or day. */
  type Date = d: YearMonthDay | IsValid(d) witness Ymd(1970, 1, 1)

  /** The strict order of dates: `a` is an earlier day than `b`. */
  predicate Before(a: Date, b: Date) {
    a.year < b.year
    || (a.year == b.year && a.month < b.month)
    || (a.year == b.year && a.month == b.month && a.day < b.day)
  }

  lemma BeforeIsStrictTotalOrder(a: Date, b: Date, c: Date)
    ensures !Before(a, a)
    ensures Before(a, b) ==> !Before(b, a)
    ensures Before(a, b) && Before(b, c) ==> Before(a, c)
    ensures a == b || Before(a, b) || Before(b, a)
  {
  }

  function FirstDayOfMonth(d: Date): (r: Date)
    ensures r.year == d.year && r.month == d.month && r.day == 1
  {
    Ymd(d.year, d.month, 1)
  }

  /** The following day. */
  function Next(d: Date): (r: Date)
    ensures Before(d, r)
    ensures r.month == d.month ==> r.year == d.year && r.day == d.day + 1
  {
    if d.day < DaysInMonth(d.year, d.month) then Ymd(d.year, d.month, d.day + 1)
    else if d.month < 12 then Ymd(d.year, d.month + 1, 1)
    else Ymd(d.year + 1, 1, 1)
  }

  /** The preceding day. */
  function Prev(d: Date): (r: Date)
    ensures Before(r, d)
  {
    if d.day > 1 then Ymd(d.year, d.month, d.day - 1)
    else if d.month > 1 then Ymd(d.year, d.month - 1, DaysInMonth(d.year, d.month - 1))
    else Ymd(d.year - 1, 12, 31)
  }

  lemma NextPrevInverse(d: Date)
    ensures Prev(Next(d)) == d
    ensures Next(Prev(d)) == d
  {
  }

  // Day numbering, used for the day of the week and to relate the order of
  // dates to a count of days.

  /** Days in the years 1 .. y-1 (negative for years before 1). Division by a
      positive constant is Euclidean, i.e. rounds down. */
  function DaysBeforeYear(y: int): int {
    var n := y - 1;
    365 * n + n / 4 - n / 100 + n / 400
  }

  /** Rounding-down division by a constant gains one exactly at its multiples. */
  lemma DivSteps(n: int)
    ensures (n + 1) / 4 == n / 4 + (if (n + 1) % 4 == 0 then 1 else 0)
    ensures (n + 1) / 100 == n / 100 + (if (n + 1) % 100 == 0 then 1 else 0)
    ensures (n + 1) / 400 == n / 400 + (if (n + 1) % 400 == 0 then 1 else 0)
  {
  }

  lemma DaysBeforeYearStep(y: int)
    ensures DaysBeforeYear(y + 1) == DaysBeforeYear(y) + DaysInYear(y)
  {
    DivSteps(y - 1);
    assert y % 400 == 0 ==> y % 100 == 0;
    assert y % 100 == 0 ==> y % 4 == 0;
  }

  lemma {:induction false} DaysBeforeYearIncreasing(y1: int, y2: int)
    requires y1 < y2
    ensures DaysBeforeYear(y1) + DaysInYear(y1) <= DaysBeforeYear(y2)
    decreases y2 - y1
  {
    DaysBeforeYearStep(y1);
    if y1 + 1 < y2 {
      DaysBeforeYearIncreasing(y1 + 1, y2);
    }
  }

  /** Days in the months 1 .. m-1 of year y. */
  function DaysBeforeMonth(y: int, m: int): (n: int)
    requires 1 <= m <= 13
    ensures 0 <= n
  {
    if m == 1 then 0 else DaysBeforeMonth(y, m - 1) + DaysInMonth(y, m - 1)
  }

  lemma {:induction false} DaysBeforeMonthIncreasing(y: int, m1: int, m2: int)
    requires 1 <= m1 < m2 <= 13
    ensures DaysBeforeMonth(y, m1) + DaysInMonth(y, m1) <= DaysBeforeMonth(y, m2)
    decreases m2 - m1
  {
    if m1 + 1 < m2 {
      DaysBeforeMonthIncreasing(y, m1 + 1, m2);
    }
  }

  /** The twelve months add up to the length of the year. */
  lemma MonthsFillYear(y: int)
    ensures DaysBeforeMonth(y, 13) == DaysInYear(y)
  {
    assert DaysBeforeMonth(y, 2) == 31;
    assert DaysBeforeMonth(y, 3) == 31 + DaysInMonth(y, 2);
    assert DaysBeforeMonth(y, 4) == DaysBeforeMonth(y, 3) + 31;
    assert DaysBeforeMonth(y, 5) == DaysBeforeMonth(y, 4) + 30;
    assert DaysBeforeMonth(y, 6) == DaysBeforeMonth(y, 5) + 31;
    assert DaysBeforeMonth(y, 7) == DaysBeforeMonth(y, 6) + 30;
    assert DaysBeforeMonth(y, 8) == DaysBeforeMonth(y, 7) + 31;
    assert DaysBeforeMonth(y, 9) == DaysBeforeMonth(y, 8) + 31;
    assert DaysBeforeMonth(y, 10) == DaysBeforeMonth(y, 9) + 30;
    assert DaysBeforeMonth(y, 11) == DaysBeforeMonth(y, 10) + 31;
    assert DaysBeforeMonth(y, 12) == DaysBeforeMonth(y, 11) + 30;
  }

  /** Days since 0000-12-31, so that 0001-01-01 is day 1. */
  function DayNumber(d: Date): int {
    DaysBeforeYear(d.year) + DaysBeforeMonth(d.year, d.month) + d.day
  }

  lemma DayNumberWithinYear(d: Date)
    ensures DaysBeforeYear(d.year) < DayNumber(d) <= DaysBeforeYear(d.year) + DaysInYear(d.year)
  {
    MonthsFillYear(d.year);
    DaysBeforeMonthIncreasing(d.year, d.month, 13);
  }

  /** The order of dates is the order of their day numbers. */
  lemma BeforeIffSmallerDayNumber(a: Date, b: Date)
    ensures Before(a, b) <==> DayNumber(a) < DayNumber(b)
  {
    if a.year != b.year {
      var (p, q) := if a.year < b.year then (a, b) else (b, a);
      DayNumberWithinYear(p);
      DayNumberWithinYear(q);
      DaysBeforeYearIncreasing(p.year, q.year);
    } else if a.month != b.month {
      var (p, q) := if a.month < b.month then (a, b) else (b, a);
      DaysBeforeMonthIncreasing(a.year, p.month, q.month);
    }
  }

  lemma NextIsFollowingDayNumber(d: Date)
    ensures DayNumber(Next(d)) == DayNumber(d) + 1
  {
    if d.day == DaysInMonth(d.year, d.month) && d.month == 12 {
      MonthsFillYear(d.year);
      DaysBeforeYearStep(d.year);
    }
  }

  /** No date lies strictly between a date and the next one. */
  lemma NothingBetweenDayAndNext(d: Date, e: Date)
    ensures !(Before(d, e) && Before(e, Next(d)))
  {
    BeforeIffSmallerDayNumber(d, e);
    BeforeIffSmallerDayNumber(e, Next(d));
    NextIsFollowingDayNumber(d);
  }

  function WeekdayFromIndex(i: int): (w: Weekday)
    requires 0 <= i < 7
    ensures WeekdayIndex(w) == i
  {
    if i == 0 then Mon else if i == 1 then Tue else if i == 2 then Wed
    else if i == 3 then Thu else if i == 4 then Fri else if i == 5 then Sat
    else Sun
  }

  /** Days since Monday: Mon is 0, Sun is 6. */
  function WeekdayIndex(w: Weekday): (i: int)
    ensures 0 <= i < 7
  {
    match w
    case Mon => 0 case Tue => 1 case Wed => 2 case Thu => 3
    case Fri => 4 case Sat => 5 case Sun => 6
  }

  function Succ(w: Weekday): (r: Weekday)
    ensures WeekdayIndex(r) == (WeekdayIndex(w) + 1) % 7
  {
    match w
    case Mon => Tue case Tue => Wed case Wed => Thu case Thu => Fri
    case Fri => Sat case Sat => Sun case Sun => Mon
  }

  /** The day of the week; 0001-01-01 of the proleptic Gregorian calendar
      was a Monday. */
  function WeekdayOf(d: Date): Weekday {
    WeekdayFromIndex((DayNumber(d) - 1) % 7)
  }

  lemma ModSevenStep(k: int)
    ensures (k + 1) % 7 == (k % 7 + 1) % 7
  {
  }

  lemma WeekdayOfNext(d: Date)
    ensures WeekdayOf(Next(d)) == Succ(WeekdayOf(d))
  {
    NextIsFollowingDayNumber(d);
    ModSevenStep(DayNumber(d) - 1);
  }

  lemma WeekdayAnchors()
    ensures WeekdayOf(Ymd(1, 1, 1)) == Mon
    ensures WeekdayOf(Ymd(1970, 1, 1)) == Thu
    ensures WeekdayOf(Ymd(2000, 1, 1)) == Sat
    ensures WeekdayOf(Ymd(2020, 10, 15)) == Thu
  {
  }
}
