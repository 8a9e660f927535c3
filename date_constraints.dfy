/** The date constraints configuration and the four forbidden-ness predicates
    evaluated against it: day, month, year and group of twenty years. */
module Config {
  import opened Wrappers
  import opened Calendar
  import opened YearGroups

  /** The rules that make a date unselectable. Immutable once built. */
  datatype DateConstraints = DateConstraints(
    minDate: Option<Date>,              // inclusive earliest selectable date
    maxDate: Option<Date>,              // inclusive latest selectable date
    disabledWeekdays: set<Weekday>,
    disabledMonths: set<Month>,         // in every year
    disabledYears: set<int>,
    disabledMonthlyDates: set<nat>,     // day numbers, in every month
    disabledYearlyDates: seq<Date>,     // month and day count, the year is ignored
    disabledUniqueDates: set<Date>)

  /** The default configuration: nothing set, every collection empty. */
  const Unconstrained := DateConstraints(None, None, {}, {}, {}, {}, [], {})

  /** The one invariant of a configuration: the bounds, when both are set,
      are in order (equal bounds allowed). */
  predicate WellFormed(c: DateConstraints) {
    c.minDate.Some? && c.maxDate.Some? ==> !Before(c.maxDate.value, c.minDate.value)
  }

  // ---------------------------------------------------------------------
  // Construction through the builder

  /** The builder holds every field as "not set" (None) or set; the two date
      fields are themselves optional, so they are Option<Option<Date>>. */
  datatype DateConstraintsBuilder = DateConstraintsBuilder(
    minDate: Option<Option<Date>>,
    maxDate: Option<Option<Date>>,
    disabledWeekdays: Option<set<Weekday>>,
    disabledMonths: Option<set<Month>>,
    disabledYears: Option<set<int>>,
    disabledMonthlyDates: Option<set<nat>>,
    disabledYearlyDates: Option<seq<Date>>,
    disabledUniqueDates: Option<set<Date>>)

  const EmptyBuilder := DateConstraintsBuilder(None, None, None, None, None, None, None, None)

  datatype BuildError = ValidationError(message: string)

  const MinAfterMaxMessage := "min_date must be earlier or exactly at max_date"

  /** `a > b` under the derived order of an optional date, where an absent
      date comes before every present one. */
  predicate OptionAfter(a: Option<Date>, b: Option<Date>) {
    match (a, b)
    case (Some(x), Some(y)) => Before(y, x)
    case (Some(_), None) => true
    case (None, _) => false
  }

  /** The builder's single validation: when both bounds were given, the
      minimum must not lie after the maximum. */
  function Validate(b: DateConstraintsBuilder): (r: Result<(), string>)
    ensures r.Err? ==> r.error == MinAfterMaxMessage
    ensures b.minDate.None? || b.maxDate.None? ==> r.Ok?
    ensures b.minDate.Some? && b.minDate.value.Some? && b.maxDate.Some? && b.maxDate.value.Some? ==>
              (r.Err? <==> Before(b.maxDate.value.value, b.minDate.value.value))
    ensures r.Ok? ==> WellFormed(Assemble(b))
  {
    if b.minDate.Some? && b.maxDate.Some? && OptionAfter(b.minDate.value, b.maxDate.value) then
      Err(MinAfterMaxMessage)
    else
      Ok(())
  }

  /** The record the builder produces, each unset field taking its default. */
  function Assemble(b: DateConstraintsBuilder): DateConstraints {
    DateConstraints(
      b.minDate.GetOr(None),
      b.maxDate.GetOr(None),
      b.disabledWeekdays.GetOr({}),
      b.disabledMonths.GetOr({}),
      b.disabledYears.GetOr({}),
      b.disabledMonthlyDates.GetOr({}),
      b.disabledYearlyDates.GetOr([]),
      b.disabledUniqueDates.GetOr({}))
  }

  /** Validates, then produces the configuration; a failed validation
      produces no configuration at all. */
  function Build(b: DateConstraintsBuilder): (r: Result<DateConstraints, BuildError>)
    ensures r.Ok? ==> WellFormed(r.value)
    ensures r.Ok? == Validate(b).Ok?
    ensures r.Ok? ==> r.value.minDate == b.minDate.GetOr(None) && r.value.maxDate == b.maxDate.GetOr(None)
    ensures r.Ok? ==> r.value.disabledWeekdays == b.disabledWeekdays.GetOr({})
                      && r.value.disabledMonths == b.disabledMonths.GetOr({})
                      && r.value.disabledYears == b.disabledYears.GetOr({})
                      && r.value.disabledMonthlyDates == b.disabledMonthlyDates.GetOr({})
                      && r.value.disabledYearlyDates == b.disabledYearlyDates.GetOr([])
                      && r.value.disabledUniqueDates == b.disabledUniqueDates.GetOr({})
    ensures r.Err? ==> r.error == ValidationError(MinAfterMaxMessage)
  {
    match Validate(b)
    case Err(message) => Err(ValidationError(message))
    case Ok(_) => Ok(Assemble(b))
  }

  // ---------------------------------------------------------------------
  // The four predicates

  /** Some yearly date has the month and day of `d`, whatever its year. */
  function MatchesYearlyDate(yearly: seq<Date>, d: Date): (r: bool)
    ensures r <==> exists i :: 0 <= i < |yearly| && yearly[i].month == d.month && yearly[i].day == d.day
  {
    if yearly == [] then false
    else
      (yearly[0].day == d.day && yearly[0].month == d.month)
      || MatchesYearlyDate(yearly[1..], d)
  }

  /** A day is forbidden when any one of the eight rules rejects it. */
  predicate IsDayForbidden(c: DateConstraints, d: Date) {
    (c.minDate.Some? && Before(d, c.minDate.value))
    || (c.maxDate.Some? && Before(c.maxDate.value, d))
    || WeekdayOf(d) in c.disabledWeekdays
    || MonthFromNumber(d.month) in c.disabledMonths
    || d.year in c.disabledYears
    || d in c.disabledUniqueDates
    || d.day in c.disabledMonthlyDates
    || MatchesYearlyDate(c.disabledYearlyDates, d)
  }

  /** Walks the days from `d` onwards while they are in month `month` and
      tells whether every one of them is forbidden. */
  function AllForbiddenWhileInMonth(c: DateConstraints, d: Date, month: int): bool
    decreases if d.month == month then DaysInMonth(d.year, d.month) - d.day + 1 else 0
  {
    if d.month != month then true
    else IsDayForbidden(c, d) && AllForbiddenWhileInMonth(c, Next(d), month)
  }

  /** The whole month of `ym` (its day is irrelevant) is forbidden. */
  predicate IsMonthForbidden(c: DateConstraints, ym: Date) {
    ym.year in c.disabledYears
    || MonthFromNumber(ym.month) in c.disabledMonths
    || AllForbiddenWhileInMonth(c, FirstDayOfMonth(ym), ym.month)
  }

  /** The whole year `y` is forbidden. */
  predicate IsYearForbidden(c: DateConstraints, y: int) {
    y in c.disabledYears
    || forall m :: 1 <= m <= 12 ==> IsMonthForbidden(c, Ymd(y, m, 1))
  }

  /** Every year of the twenty-year group holding `y` is forbidden. */
  predicate IsYearGroupForbidden(c: DateConstraints, y: int) {
    forall k :: YearGroupStart(y) <= k <= YearGroupEnd(y) ==> IsYearForbidden(c, k)
  }
}
