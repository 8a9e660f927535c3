# Date constraints of chrono-datepicker-core, modelled in Dafny

This project models the date-eligibility rules of a date picker. A
`DateConstraints` value holds the constraints: optional inclusive minimum and
maximum dates, disabled weekdays, months, years and day-of-month numbers,
yearly (month, day) dates and unique dates. It is built through a builder
whose only validation rejects a minimum later than the maximum. Four
predicates evaluate it at increasing granularity:

- `IsDayForbidden`: any of eight rules rejects the day;
- `IsMonthForbidden`: the year or month is disabled, or every day of the month is forbidden;
- `IsYearForbidden`: the year is disabled, or all twelve months are forbidden;
- `IsYearGroupForbidden`: every year of the twenty-year group holding the year is forbidden.

Files:

- `wrappers.dfy`: `Option` and `Result`.
- `calendar.dfy` (module `Calendar`): the proleptic Gregorian calendar the
  rules need. It has a `Date` type that only holds valid dates, month lengths
  with the leap-year rule, the order of dates, the next and previous day, and
  day numbers. The day of the week is the day number mod 7, anchored at
  0001-01-01 being a Monday. It is a stand-in for the date library, proved
  consistent on its own terms: the order of dates is the order of day
  numbers, `Next` adds one day and advances the weekday, `Prev` inverts `Next`.
- `year_groups.dfy` (module `YearGroups`): the twenty-year groups
  [1980, 1999], [2000, 2019], … and the groups before 1980.
- `date_constraints.dfy` (module `Config`): the configuration, the builder's
  validation and build, and the four predicates. Each is written the way the
  source computes it. The month predicate walks the days from the first of
  the month while the month stays the same, as `iter_days` and `take_while` do.
- `date_constraints_properties.dfy` (module `ConfigProperties`): the lemmas.

The builder's date fields are `Option<Option<Date>>`: "not set", or set to an
optional date. The validation compares the inner optional dates under the
derived order, where an absent date is below every present one. A setter
always stores a present date, so `FilledBySetters` captures the builders that
can arise. For them, building fails exactly when both bounds are set and the
minimum is after the maximum.

## Model

| member | source | states |
|---|---|---|
| Config.Validate | src/config/date_constraints.rs:70-77 | fails only with the fixed message; succeeds when either bound is unset; with both bounds set it fails iff the minimum is after the maximum; success leaves a configuration whose bounds are in order |
| Config.Build | src/config/date_constraints.rs:32-35 | succeeds exactly when validation does; a built configuration satisfies the bound invariant and carries every field the builder set, each unset field taking its default (no bound, empty collection); a failed build carries the validation message |
| Config.MatchesYearlyDate | src/config/date_constraints.rs:103-106 | true iff some yearly date has the same month and day as the date, whatever its year |
| ConfigProperties.BuildFailsIffMinAfterMax | src/config/date_constraints.rs:70-77 | for builders filled by setters, building fails iff both bounds are set and min > max (equal bounds accepted), with "min_date must be earlier or exactly at max_date" |
| ConfigProperties.BuildRoundTrip | src/config/date_constraints.rs:32-77 | every configuration whose bounds are in order is produced by building it through the setters, and no other configuration is |
| ConfigProperties.BuildRejectsMinAfterMax | src/config/date_constraints.rs:168-190 | min = D with max = D − 1 day is rejected with the message; min = max = D is accepted |
| ConfigProperties.BuildSucceedsIffValid | src/config/date_constraints.rs:35 | building succeeds exactly when the validation does |
| ConfigProperties.BuildEmptyIsUnconstrained | src/config/date_constraints.rs:32-34 | a builder with no field set builds the default configuration |
| ConfigProperties.SettingCollectionChangesOnlyIt | src/config/date_constraints.rs:32-34 | setting one of the six collections on a buildable builder still builds, and changes that field of the result and nothing else |
| ConfigProperties.SettingBoundChangesOnlyIt | src/config/date_constraints.rs:32-34 | setting a bound changes that bound of the result and nothing else, whenever both builds succeed |
| Config.IsDayForbidden | src/config/date_constraints.rs:93-107 | the OR of the eight rules; characterised by DayForbiddenIffSomeSingleRule, the per-field ForbidsExactlyIt lemmas, MinDateIsInclusive, MaxDateIsInclusive and DayForbiddenMonotone |
| ConfigProperties.DayForbiddenIffSomeSingleRule | src/config/date_constraints.rs:93-107 | a day is forbidden under a configuration iff one of its eight fields alone (the rest default) already forbids it |
| Config.AllForbiddenWhileInMonth | src/config/date_constraints.rs:114-118 | the day walk of the month; characterised by WalkCoversRestOfMonth |
| Config.IsMonthForbidden | src/config/date_constraints.rs:109-119 | characterised by MonthForbiddenIff and MonthForbiddenIffEveryDay |
| Config.IsYearForbidden | src/config/date_constraints.rs:121-124 | characterised by YearForbiddenIffEveryDay |
| Config.IsYearGroupForbidden | src/config/date_constraints.rs:126-128 | characterised by YearGroupForbiddenIffEveryDay and DisabledYearsForbidGroup |
| Calendar.Before | src/config/date_constraints.rs:94-95 | the date comparison; a strict total order (BeforeIsStrictTotalOrder) that agrees with day numbers (BeforeIffSmallerDayNumber) |
| Calendar.BeforeIsStrictTotalOrder | src/config/date_constraints.rs:94-95 | the date order is irreflexive, asymmetric, transitive and total |
| Calendar.WeekdayOf | src/config/date_constraints.rs:96 | the weekday of a date; characterised by WeekdayOfNext and WeekdayAnchors |
| Calendar.FirstDayOfMonth | src/config/date_constraints.rs:115 | the first day of the date's month, same year and month, day 1 |
| ConfigProperties.UnconstrainedForbidsNothing | src/config/date_constraints.rs:141-166 | with the default configuration no day, month, year or year group is forbidden |
| ConfigProperties.MinDateIsInclusive | src/config/date_constraints.rs:94 | with only a minimum D, exactly the days before D are forbidden: D is allowed, the day before D is forbidden |
| ConfigProperties.MaxDateIsInclusive | src/config/date_constraints.rs:95 | with only a maximum D, exactly the days after D are forbidden: D is allowed, the day after D is forbidden |
| ConfigProperties.DisabledWeekdayForbidsExactlyIt | src/config/date_constraints.rs:96 | disabling weekday W forbids exactly the days falling on W |
| ConfigProperties.DisabledMonthForbidsExactlyIt | src/config/date_constraints.rs:97-99 | disabling month M forbids exactly the days of M, in every year |
| ConfigProperties.DisabledYearForbidsExactlyIt | src/config/date_constraints.rs:100 | disabling year Y forbids exactly the days of Y |
| ConfigProperties.DisabledUniqueDateForbidsExactlyIt | src/config/date_constraints.rs:101 | a unique date forbids that date and no other, in particular not the same day of another year |
| ConfigProperties.UniqueDateDoesNotRepeat | src/config/date_constraints.rs:285-303 | unique date 2020-01-16 forbids 2020-01-16 and not 2021-01-16 |
| ConfigProperties.DisabledMonthlyDateForbidsExactlyIt | src/config/date_constraints.rs:102 | disabling day number k forbids exactly the days numbered k, in every month |
| ConfigProperties.YearlyDateIgnoresYear | src/config/date_constraints.rs:103-106 | a yearly date (y0, m, d) forbids (y, m, d) for every year y, under any configuration holding it |
| ConfigProperties.DisabledYearlyDateForbidsExactlyIt | src/config/date_constraints.rs:103-106 | a single yearly date forbids exactly the days with its month and day |
| ConfigProperties.WalkCoversRestOfMonth | src/config/date_constraints.rs:114-118 | walking the days from a date while the month is unchanged checks exactly the days from it to the month's last day |
| ConfigProperties.MonthForbiddenIff | src/config/date_constraints.rs:109-119 | a month is forbidden iff its year is disabled, or it is disabled, or every day 1..DaysInMonth is forbidden |
| ConfigProperties.MonthForbiddenIffEveryDay | src/config/date_constraints.rs:20-21 | a month is forbidden iff every one of its days is forbidden |
| ConfigProperties.MonthForbiddenIgnoresDay | src/config/date_constraints.rs:109-119 | the month predicate depends only on the year and month of its argument |
| ConfigProperties.MonthNeedsEveryDay | src/config/date_constraints.rs:114-118 | disabling day numbers 1..30 does not forbid January 2020; disabling 1..31 forbids every month |
| ConfigProperties.YearForbiddenIffEveryDay | src/config/date_constraints.rs:121-124 | a year is forbidden iff every one of its days is forbidden |
| ConfigProperties.YearGroupForbiddenIffEveryDay | src/config/date_constraints.rs:126-128 | a year group is forbidden iff every day of its twenty years is forbidden |
| ConfigProperties.DisabledYearsForbidGroup | src/config/date_constraints.rs:387-396 | disabling all years of a group forbids the group, asked through any year of it |
| ConfigProperties.DayForbiddenMonotone | src/config/date_constraints.rs:93-107 | a configuration at least as strict as another forbids every day the other forbids |
| ConfigProperties.ForbiddenMonotone | src/config/date_constraints.rs:109-128 | the same for months, years and year groups |
| YearGroups.YearGroupStart | src/config/date_constraints.rs:26-28 | the group of a year starts at a year 1980 + 20k and spans the year within its 20 years |
| YearGroups.SameGroup | src/config/date_constraints.rs:27 | groups do not overlap: every year of a group has the same group |
| Calendar.MonthFromNumber | src/config/date_constraints.rs:99 | the month built from a number 1..12 has that number |
| Calendar.DaysInMonth | src/config/date_constraints.rs:114-117 | a month has 28 to 31 days; February has 29 exactly in leap years |
| Calendar.Next | src/config/date_constraints.rs:229 | the next day is later, and within the same month it is the following day number |
| Calendar.Prev | src/config/date_constraints.rs:209 | the previous day is earlier |
| Calendar.NextPrevInverse | src/config/date_constraints.rs:209 | Prev and Next undo each other |
| Calendar.BeforeIffSmallerDayNumber | src/config/date_constraints.rs:94-95 | the order of dates is the order of their day numbers |
| Calendar.NothingBetweenDayAndNext | src/config/date_constraints.rs:229 | no date lies strictly between a date and the next day |
| Calendar.WeekdayOfNext | src/config/date_constraints.rs:96 | the weekday of the next day is the following weekday |
| Calendar.WeekdayAnchors | src/config/date_constraints.rs:96 | 0001-01-01 is a Monday, 1970-01-01 a Thursday, 2000-01-01 a Saturday, 2020-10-15 a Thursday |

## Left out

- Years are unbounded integers. The source's years are 32-bit, and its date type covers only a limited range of years. The model has neither limit, so the day walk never runs out of representable dates.
- The calendar library itself is not part of this model. `Calendar` is a minimal proleptic Gregorian calendar written for it, and ISO week dates are not modelled.
- The test double generated for the predicate interface, and its `Clone` workaround, are left out. So is the interface itself: only the concrete `DateConstraints` implementation is modelled.
- The builder's setters, their option stripping and its error type machinery are left out. Setting fields is a record update on `DateConstraintsBuilder`; the error is `ValidationError` with the message.
- Hash sets are modelled as mathematical sets. The yearly dates stay a sequence, and duplicates in it are harmless.
- `year_group_range` lives in a file that is not part of this model. It is modelled from its documented intervals [1980, 1999], [2000, 2019], … as [g, g + 19] with g = y − ((y − 1980) mod 20).
- The predicates are mathematical functions, so evaluating one twice with the same inputs gives the same result. No lemma states this.
