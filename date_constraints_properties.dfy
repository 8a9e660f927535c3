/** What the configuration and its predicates guarantee: the outcome of the
    builder's validation, the meaning of each day rule, inclusive bounds, and
    how the month, year and year-group predicates aggregate the day predicate. */
module ConfigProperties {
  import opened Wrappers
  import opened Calendar
  import opened YearGroups
  import opened Config

  // ---------------------------------------------------------------------
  // Construction

  /** A builder filled through its setters: a date field that is set holds a date. */
  predicate FilledBySetters(b: DateConstraintsBuilder) {
    b.minDate != Some(None) && b.maxDate != Some(None)
  }

  /** Building fails exactly when both bounds are given and the minimum lies
      after the maximum; equal bounds are accepted. */
  lemma BuildFailsIffMinAfterMax(b: DateConstraintsBuilder)
    requires FilledBySetters(b)
    ensures Build(b).Err? <==>
              b.minDate.Some? && b.maxDate.Some?
              && Before(b.maxDate.value.value, b.minDate.value.value)
    ensures Build(b).Err? ==> Build(b).error.message == "min_date must be earlier or exactly at max_date"
  {
  }

  /** The builder whose setters were called with every field of `c`; a date
      setter takes a date, so an absent bound is left unset. */
  function BuilderOf(c: DateConstraints): (b: DateConstraintsBuilder)
    ensures FilledBySetters(b)
  {
    DateConstraintsBuilder(
      if c.minDate.Some? then Some(c.minDate) else None,
      if c.maxDate.Some? then Some(c.maxDate) else None,
      Some(c.disabledWeekdays), Some(c.disabledMonths),
      Some(c.disabledYears), Some(c.disabledMonthlyDates), Some(c.disabledYearlyDates),
      Some(c.disabledUniqueDates))
  }

  /** Every well-formed configuration can be built, and nothing else can. */
  lemma BuildRoundTrip(c: DateConstraints)
    ensures WellFormed(c) ==> Build(BuilderOf(c)) == Ok(c)
    ensures !WellFormed(c) ==> Build(BuilderOf(c)).Err?
  {
    assert Assemble(BuilderOf(c)) == c;
  }

  lemma BuildRejectsMinAfterMax(d: Date)
    ensures Build(EmptyBuilder.(minDate := Some(Some(d)), maxDate := Some(Some(Prev(d)))))
            == Err(ValidationError(MinAfterMaxMessage))
    ensures Build(EmptyBuilder.(minDate := Some(Some(d)), maxDate := Some(Some(d)))).Ok?
  {
  }

  /** Building succeeds exactly when validation does. */
  lemma BuildSucceedsIffValid(b: DateConstraintsBuilder)
    ensures Build(b).Ok? <==> Validate(b).Ok?
  {
  }

  /** A builder with no field set builds the default configuration. */
  lemma BuildEmptyIsUnconstrained()
    ensures Build(EmptyBuilder) == Ok(Unconstrained)
  {
  }

  /** Setting one collection changes that field of the result and nothing
      else, and cannot make validation fail. */
  lemma SettingCollectionChangesOnlyIt(b: DateConstraintsBuilder, weekdays: set<Weekday>,
                                       months: set<Month>, years: set<int>, monthly: set<nat>,
                                       yearly: seq<Date>, unique: set<Date>)
    requires Build(b).Ok?
    ensures Build(b.(disabledWeekdays := Some(weekdays))) == Ok(Build(b).value.(disabledWeekdays := weekdays))
    ensures Build(b.(disabledMonths := Some(months))) == Ok(Build(b).value.(disabledMonths := months))
    ensures Build(b.(disabledYears := Some(years))) == Ok(Build(b).value.(disabledYears := years))
    ensures Build(b.(disabledMonthlyDates := Some(monthly))) == Ok(Build(b).value.(disabledMonthlyDates := monthly))
    ensures Build(b.(disabledYearlyDates := Some(yearly))) == Ok(Build(b).value.(disabledYearlyDates := yearly))
    ensures Build(b.(disabledUniqueDates := Some(unique))) == Ok(Build(b).value.(disabledUniqueDates := unique))
  {
  }

  /** Setting a bound changes that bound of the result and nothing else,
      whenever both builds succeed. */
  lemma SettingBoundChangesOnlyIt(b: DateConstraintsBuilder, d: Date)
    ensures Build(b).Ok? && Build(b.(minDate := Some(Some(d)))).Ok? ==>
              Build(b.(minDate := Some(Some(d)))).value == Build(b).value.(minDate := Some(d))
    ensures Build(b).Ok? && Build(b.(maxDate := Some(Some(d)))).Ok? ==>
              Build(b.(maxDate := Some(Some(d)))).value == Build(b).value.(maxDate := Some(d))
  {
  }

  // ---------------------------------------------------------------------
  // The day rules

  /** A day is forbidden iff one of the eight fields alone, with every other
      field at its default, already forbids it; together with the lemmas on
      single fields below this says which days each rule rejects. */
  lemma DayForbiddenIffSomeSingleRule(c: DateConstraints, d: Date)
    ensures IsDayForbidden(c, d) <==>
              IsDayForbidden(Unconstrained.(minDate := c.minDate), d)
              || IsDayForbidden(Unconstrained.(maxDate := c.maxDate), d)
              || IsDayForbidden(Unconstrained.(disabledWeekdays := c.disabledWeekdays), d)
              || IsDayForbidden(Unconstrained.(disabledMonths := c.disabledMonths), d)
              || IsDayForbidden(Unconstrained.(disabledYears := c.disabledYears), d)
              || IsDayForbidden(Unconstrained.(disabledUniqueDates := c.disabledUniqueDates), d)
              || IsDayForbidden(Unconstrained.(disabledMonthlyDates := c.disabledMonthlyDates), d)
              || IsDayForbidden(Unconstrained.(disabledYearlyDates := c.disabledYearlyDates), d)
  {
  }

  /** With nothing configured, nothing is forbidden, at any granularity. */
  lemma UnconstrainedForbidsNothing(d: Date, y: int)
    ensures !IsDayForbidden(Unconstrained, d)
    ensures !IsMonthForbidden(Unconstrained, d)
    ensures !IsYearForbidden(Unconstrained, y)
    ensures !IsYearGroupForbidden(Unconstrained, y)
  {
    assert !IsMonthForbidden(Unconstrained, d) by {
      MonthForbiddenIffEveryDay(Unconstrained, d);
      assert !IsDayForbidden(Unconstrained, FirstDayOfMonth(d));
    }
    forall k ensures !IsYearForbidden(Unconstrained, k) {
      YearForbiddenIffEveryDay(Unconstrained, k);
      assert !IsDayForbidden(Unconstrained, Ymd(k, 1, 1));
    }
    assert !IsYearForbidden(Unconstrained, YearGroupStart(y));
  }

  /** The minimum is inclusive: exactly the earlier days are forbidden, so the
      bound itself is allowed and the day before it is not. */
  lemma MinDateIsInclusive(bound: Date, d: Date)
    ensures Build(EmptyBuilder.(minDate := Some(Some(bound)))) == Ok(Unconstrained.(minDate := Some(bound)))
    ensures IsDayForbidden(Unconstrained.(minDate := Some(bound)), d) <==> Before(d, bound)
    ensures !IsDayForbidden(Unconstrained.(minDate := Some(bound)), bound)
    ensures IsDayForbidden(Unconstrained.(minDate := Some(bound)), Prev(bound))
  {
  }

  /** The maximum is inclusive: exactly the later days are forbidden, so the
      bound itself is allowed and the day after it is not. */
  lemma MaxDateIsInclusive(bound: Date, d: Date)
    ensures Build(EmptyBuilder.(maxDate := Some(Some(bound)))) == Ok(Unconstrained.(maxDate := Some(bound)))
    ensures IsDayForbidden(Unconstrained.(maxDate := Some(bound)), d) <==> Before(bound, d)
    ensures !IsDayForbidden(Unconstrained.(maxDate := Some(bound)), bound)
    ensures IsDayForbidden(Unconstrained.(maxDate := Some(bound)), Next(bound))
  {
  }

  /** Disabling one weekday forbids exactly the days on that weekday. */
  lemma DisabledWeekdayForbidsExactlyIt(w: Weekday, d: Date)
    ensures IsDayForbidden(Unconstrained.(disabledWeekdays := {w}), d) <==> WeekdayOf(d) == w
  {
  }

  /** Disabling one month forbids exactly the days of that month, in every year. */
  lemma DisabledMonthForbidsExactlyIt(m: Month, d: Date)
    ensures IsDayForbidden(Unconstrained.(disabledMonths := {m}), d) <==> d.month == MonthNumber(m)
  {
  }

  /** Disabling one year forbids exactly the days of that year. */
  lemma DisabledYearForbidsExactlyIt(y: int, d: Date)
    ensures IsDayForbidden(Unconstrained.(disabledYears := {y}), d) <==> d.year == y
  {
  }

  /** Disabling one day number forbids exactly the days with that number, in every month. */
  lemma DisabledMonthlyDateForbidsExactlyIt(k: nat, d: Date)
    ensures IsDayForbidden(Unconstrained.(disabledMonthlyDates := {k}), d) <==> d.day == k
  {
  }

  /** A unique date forbids that date and no other, not even the same day of
      another year. */
  lemma DisabledUniqueDateForbidsExactlyIt(u: Date, d: Date)
    ensures IsDayForbidden(Unconstrained.(disabledUniqueDates := {u}), d) <==> d == u
    ensures u.year != d.year ==> !IsDayForbidden(Unconstrained.(disabledUniqueDates := {u}), d)
  {
  }

  lemma UniqueDateDoesNotRepeat()
    ensures IsDayForbidden(Unconstrained.(disabledUniqueDates := {Ymd(2020, 1, 16)}), Ymd(2020, 1, 16))
    ensures !IsDayForbidden(Unconstrained.(disabledUniqueDates := {Ymd(2020, 1, 16)}), Ymd(2021, 1, 16))
  {
  }

  /** A yearly date forbids its month and day in every year, whatever year it
      was stored with. */
  lemma YearlyDateIgnoresYear(c: DateConstraints, e: Date, d: Date)
    requires e in c.disabledYearlyDates
    requires e.month == d.month && e.day == d.day
    ensures IsDayForbidden(c, d)
  {
    var i :| 0 <= i < |c.disabledYearlyDates| && c.disabledYearlyDates[i] == e;
  }

  /** A single yearly date forbids exactly the days with its month and day. */
  lemma DisabledYearlyDateForbidsExactlyIt(e: Date, d: Date)
    ensures IsDayForbidden(Unconstrained.(disabledYearlyDates := [e]), d)
            <==> d.month == e.month && d.day == e.day
  {
  }

  // ---------------------------------------------------------------------
  // Month

  /** Every day of month `m` of year `y` is forbidden. */
  ghost predicate AllDaysOfMonthForbidden(c: DateConstraints, y: int, m: int)
    requires 1 <= m <= 12
  {
    forall k :: 1 <= k <= DaysInMonth(y, m) ==> IsDayForbidden(c, Ymd(y, m, k))
  }

  /** Walking from `d` to the end of its month checks exactly the days from
      `d` to the month's last day. */
  lemma {:induction false} WalkCoversRestOfMonth(c: DateConstraints, d: Date)
    ensures AllForbiddenWhileInMonth(c, d, d.month) <==>
              forall k :: d.day <= k <= DaysInMonth(d.year, d.month) ==> IsDayForbidden(c, Ymd(d.year, d.month, k))
    decreases DaysInMonth(d.year, d.month) - d.day
  {
    var n := Next(d);
    if n.month == d.month {
      WalkCoversRestOfMonth(c, n);
    } else {
      assert d.day == DaysInMonth(d.year, d.month);
      assert AllForbiddenWhileInMonth(c, n, d.month);
    }
  }

  /** The month predicate: the year is disabled, or the month is disabled, or
      every day of the month is forbidden. */
  lemma MonthForbiddenIff(c: DateConstraints, ym: Date)
    ensures IsMonthForbidden(c, ym) <==>
              ym.year in c.disabledYears
              || MonthFromNumber(ym.month) in c.disabledMonths
              || AllDaysOfMonthForbidden(c, ym.year, ym.month)
  {
    WalkCoversRestOfMonth(c, FirstDayOfMonth(ym));
  }

  /** A month is forbidden exactly when every one of its days is. */
  lemma MonthForbiddenIffEveryDay(c: DateConstraints, ym: Date)
    ensures IsMonthForbidden(c, ym) <==>
              forall d: Date :: d.year == ym.year && d.month == ym.month ==> IsDayForbidden(c, d)
  {
    MonthForbiddenIff(c, ym);
    if forall d: Date :: d.year == ym.year && d.month == ym.month ==> IsDayForbidden(c, d) {
      forall k | 1 <= k <= DaysInMonth(ym.year, ym.month)
        ensures IsDayForbidden(c, Ymd(ym.year, ym.month, k))
      {
        var d: Date := Ymd(ym.year, ym.month, k);
        assert d.year == ym.year && d.month == ym.month;
      }
    }
    if IsMonthForbidden(c, ym) {
      forall d: Date | d.year == ym.year && d.month == ym.month
        ensures IsDayForbidden(c, d)
      {
        assert d == Ymd(ym.year, ym.month, d.day);
      }
    }
  }

  /** The month predicate looks only at the year and month of its argument. */
  lemma MonthForbiddenIgnoresDay(c: DateConstraints, a: Date, b: Date)
    requires a.year == b.year && a.month == b.month
    ensures IsMonthForbidden(c, a) == IsMonthForbidden(c, b)
  {
    assert FirstDayOfMonth(a) == FirstDayOfMonth(b);
  }

  /** The day numbers 1 to n. */
  function DayNumbersUpTo(n: nat): (s: set<nat>)
    ensures forall k :: k in s <==> 1 <= k <= n
  {
    if n == 0 then {} else DayNumbersUpTo(n - 1) + {n}
  }

  /** Disabling day numbers 1 to 30 leaves the 31st of January selectable, so
      January is not forbidden; disabling 1 to 31 forbids every month. */
  lemma MonthNeedsEveryDay(ym: Date)
    ensures !IsMonthForbidden(Unconstrained.(disabledMonthlyDates := DayNumbersUpTo(30)), Ymd(2020, 1, 15))
    ensures IsMonthForbidden(Unconstrained.(disabledMonthlyDates := DayNumbersUpTo(31)), ym)
  {
    var c30 := Unconstrained.(disabledMonthlyDates := DayNumbersUpTo(30));
    var jan31: Date := Ymd(2020, 1, 31);
    assert !IsDayForbidden(c30, jan31);
    MonthForbiddenIffEveryDay(c30, Ymd(2020, 1, 15));
    MonthForbiddenIffEveryDay(Unconstrained.(disabledMonthlyDates := DayNumbersUpTo(31)), ym);
  }

  // ---------------------------------------------------------------------
  // Year

  /** A year is forbidden exactly when every one of its days is. */
  lemma YearForbiddenIffEveryDay(c: DateConstraints, y: int)
    ensures IsYearForbidden(c, y) <==> forall d: Date :: d.year == y ==> IsDayForbidden(c, d)
  {
    if y !in c.disabledYears {
      if forall d: Date :: d.year == y ==> IsDayForbidden(c, d) {
        forall m | 1 <= m <= 12 ensures IsMonthForbidden(c, Ymd(y, m, 1)) {
          MonthForbiddenIffEveryDay(c, Ymd(y, m, 1));
        }
      }
      if IsYearForbidden(c, y) {
        forall d: Date | d.year == y ensures IsDayForbidden(c, d) {
          MonthForbiddenIffEveryDay(c, Ymd(y, d.month, 1));
        }
      }
    }
  }

  // ---------------------------------------------------------------------
  // Year group

  /** A year group is forbidden exactly when every day of its twenty years is. */
  lemma YearGroupForbiddenIffEveryDay(c: DateConstraints, y: int)
    ensures IsYearGroupForbidden(c, y) <==>
              forall d: Date :: InYearGroupOf(y, d.year) ==> IsDayForbidden(c, d)
  {
    if IsYearGroupForbidden(c, y) {
      forall d: Date | InYearGroupOf(y, d.year) ensures IsDayForbidden(c, d) {
        YearForbiddenIffEveryDay(c, d.year);
      }
    }
    if forall d: Date :: InYearGroupOf(y, d.year) ==> IsDayForbidden(c, d) {
      forall k | YearGroupStart(y) <= k <= YearGroupEnd(y) ensures IsYearForbidden(c, k) {
        YearForbiddenIffEveryDay(c, k);
      }
    }
  }

  /** Disabling every year of a group forbids that group, asked through any
      of its years. */
  lemma DisabledYearsForbidGroup(c: DateConstraints, y: int, k: int)
    requires forall j :: InYearGroupOf(y, j) ==> j in c.disabledYears
    requires InYearGroupOf(y, k)
    ensures IsYearGroupForbidden(c, k)
  {
    SameGroup(y, k);
  }

  // ---------------------------------------------------------------------
  // Stricter configurations forbid more

  /** `strict` rejects everything `weak` rejects: bounds at least as tight,
      every disabled set at least as large, every yearly date still present. */
  predicate AtLeastAsStrict(weak: DateConstraints, strict: DateConstraints) {
    && (weak.minDate.Some? ==> strict.minDate.Some? && !Before(strict.minDate.value, weak.minDate.value))
    && (weak.maxDate.Some? ==> strict.maxDate.Some? && !Before(weak.maxDate.value, strict.maxDate.value))
    && weak.disabledWeekdays <= strict.disabledWeekdays
    && weak.disabledMonths <= strict.disabledMonths
    && weak.disabledYears <= strict.disabledYears
    && weak.disabledMonthlyDates <= strict.disabledMonthlyDates
    && (forall e :: e in weak.disabledYearlyDates ==> e in strict.disabledYearlyDates)
    && weak.disabledUniqueDates <= strict.disabledUniqueDates
  }

  lemma DayForbiddenMonotone(weak: DateConstraints, strict: DateConstraints, d: Date)
    requires AtLeastAsStrict(weak, strict)
    ensures IsDayForbidden(weak, d) ==> IsDayForbidden(strict, d)
  {
    if MatchesYearlyDate(weak.disabledYearlyDates, d) {
      var i :| 0 <= i < |weak.disabledYearlyDates|
               && weak.disabledYearlyDates[i].month == d.month && weak.disabledYearlyDates[i].day == d.day;
      YearlyDateIgnoresYear(strict, weak.disabledYearlyDates[i], d);
    }
  }

  lemma ForbiddenMonotone(weak: DateConstraints, strict: DateConstraints, ym: Date, y: int)
    requires AtLeastAsStrict(weak, strict)
    ensures IsMonthForbidden(weak, ym) ==> IsMonthForbidden(strict, ym)
    ensures IsYearForbidden(weak, y) ==> IsYearForbidden(strict, y)
    ensures IsYearGroupForbidden(weak, y) ==> IsYearGroupForbidden(strict, y)
  {
    forall d: Date ensures IsDayForbidden(weak, d) ==> IsDayForbidden(strict, d) {
      DayForbiddenMonotone(weak, strict, d);
    }
    MonthForbiddenIffEveryDay(weak, ym);
    MonthForbiddenIffEveryDay(strict, ym);
    YearForbiddenIffEveryDay(weak, y);
    YearForbiddenIffEveryDay(strict, y);
    YearGroupForbiddenIffEveryDay(weak, y);
    YearGroupForbiddenIffEveryDay(strict, y);
  }
}
