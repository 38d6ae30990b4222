# Coptic dates in Dafny

A model of `CopticDate` from the threeten-extra Coptic chronology. The class is
an immutable date of the Coptic calendar. It holds a proleptic year, a month
1..13 and a day of the month. Months 1..12 have 30 days. Month 13 has 5 days,
or 6 in a leap year (a proleptic year `y` with `floorMod(y, 4) == 3`).

The model covers:

- the validating constructor;
- the conversion from and to the epoch-day count (day 0 is 1970-01-01 ISO);
- the month-13 clamp used when a field is changed;
- the field protocol (`range`, `getLong`, `get`, `with(field, value)`) and the
  named getters and `with*` shortcuts;
- day arithmetic (`plusDays`).

Every operation is a function over a `CopticDate` datatype. Each one returns a
`Result` that is either the value or the exception the Java code throws:

- `DateTimeException` for an invalid value or an unsupported field;
- `UnsupportedTemporalTypeException` from `get`;
- `ArithmeticException` from `Math.addExact`.

Java's 32- and 64-bit wrap-around and its truncating `/` and `%` are written
out (module `JavaMath`). So the conversions compute exactly what the Java
expressions compute, overflow included.

Modules:

- `JavaMath`: `int`/`long`, two's-complement narrowing, truncating division.
- `JavaTime`: `ChronoField`, `ValueRange`, the ISO field ranges and the error
  cases. It also holds two stand-ins for JDK methods that the date code calls:
  `CheckValidValue` for `ValueRange.checkValidValue` and `AddExact` for
  `Math.addExact`.
- `CopticDates`: the date value, its constructor, `resolvePreviousValid`,
  `toEpochDay`, `ofEpochDay` and `plusDays`.
- `CopticFields`: `range`, `getLong`, `get`, `with`, and the getters and
  `with*` shortcuts.
- `CopticEpochProofs`: how the years are laid out, the two round trips of the
  epoch-day conversion, order and injectivity of `toEpochDay`, and `plusDays`.
- `CopticFieldProofs`: what each `with` case does to the date, and how `get`
  relates to `getLong`.

The round trips hold from the first day of proleptic year 0 up to the end of
year 1 000 000 (`CopticEpochProofs.MAX_SUPPORTED_YEAR`). Below year 0 the
source's truncating division makes `ofEpochDay` fail, and the model shows
this rather than repairing it. The cap of 1 000 000 is a bound of the proof,
not a point where the code is known to break. Below it, no `int` intermediate
of `ofEpochDay` overflows, so the proof can compare the code with plain
floor-division arithmetic.

Two behaviours of the code to know about (the first is also under "## Findings"):

- `with(ERA, v)` flips the era whatever `v` is. It does not leave the date
  unchanged when `v` is the current era.
- `get(YEAR)` checks the value against a range starting at 1, so it rejects
  proleptic years of 0 and below. The source marks that range as a TODO.

## Model

| member | source | states |
|---|---|---|
| `CopticDates.Of` | src/main/java/org/threeten/extra/chrono/CopticDate.java:144-157 | The constructor succeeds exactly when the month is 1..13 and the day is 1..lengthOfMonth (30, or 6/5 in month 13 by the leap rule), keeping the three values; a bad month is reported as MONTH_OF_YEAR before a bad day is reported as DAY_OF_MONTH |
| `CopticDates.LengthOfMonth` | src/main/java/org/threeten/extra/chrono/CopticDate.java:177-184 | Months 1..12 have 30 days; month 13 has what is left of the year after twelve 30-day months, 6 days in a leap year and 5 otherwise |
| `CopticDates.LengthOfYear` | src/main/java/org/threeten/extra/chrono/CopticDate.java:201 | The year length behind `range(DAY_OF_YEAR)` is 365 or 366 days. `CopticEpochProofs.StartOfYearSpacing` shows it is the distance between consecutive year starts |
| `CopticDates.IsLeapYear` | src/main/java/org/threeten/extra/chrono/CopticDate.java:180 | The chronology's leap rule `floorMod(y, 4) == 3`. It has no contract of its own; `CopticEpochProofs.LeapYearEveryFourthYear` states its four-year cycle |
| `CopticDates.DayOfYearOf` | src/main/java/org/threeten/extra/chrono/CopticDate.java:222 | The 1-based day of the year of a valid date lies in 1..lengthOfYear |
| `CopticDates.ResolvePreviousValid` | src/main/java/org/threeten/extra/chrono/CopticDate.java:128-133 | Succeeds exactly when the month is 1..13 and the day is at least 1 and, outside month 13, at most 30; year and month pass through, a month-13 day beyond the month's end becomes its last day (6 in a leap year, else 5), and every failure is the constructor's own |
| `CopticDates.OfEpochDay` | src/main/java/org/threeten/extra/chrono/CopticDate.java:114-126 | Whatever the input, including overflowing and negative ones, a date it returns is valid |
| `CopticDates.ToEpochDay` | src/main/java/org/threeten/extra/chrono/CopticDate.java:404-408 | The day count in `long` arithmetic. It has no contract of its own. Its properties are proved separately: `CopticEpochProofs.ToEpochDayRoundTrip` and `OfEpochDayRoundTrip` make it the inverse of `ofEpochDay`, `ToEpochDayOrdered` shows it keeps the calendar order, and `ToEpochDayInjective` shows no two dates share an epoch day |
| `CopticDates.PlusDays` | src/main/java/org/threeten/extra/chrono/CopticDate.java:314-319 | Adding zero days returns the date itself; an overflowing `long` addition is an arithmetic error; any date returned is valid |
| `CopticFields.Range` | src/main/java/org/threeten/extra/chrono/CopticDate.java:194-212 | Succeeds exactly for the date-based fields and fails with "unsupported field" otherwise; every range returned is non-empty. The values each range holds: DAY_OF_MONTH exactly the days a date of this year and month may have (1..30, or 1..6/1..5 in month 13); DAY_OF_YEAR exactly 1..lengthOfYear; MONTH_OF_YEAR exactly 1..13; ALIGNED_WEEK_OF_MONTH and ALIGNED_WEEK_OF_YEAR from 1 up to the aligned week of the month's or the year's last day (5, or 1 in month 13; 53); YEAR and YEAR_OF_ERA from 1; the weekday fields, EPOCH_DAY, PROLEPTIC_MONTH and ERA their ISO ranges |
| `CopticFields.IsSupported` | src/main/java/org/threeten/extra/chrono/CopticDate.java:186-192 | A `ChronoField` is supported exactly when it is date-based. It has no contract of its own; `CopticFields.Range` succeeds exactly on the supported fields |
| `CopticFields.GetLong` | src/main/java/org/threeten/extra/chrono/CopticDate.java:214-234 | Succeeds for the twelve handled fields and reports PROLEPTIC_MONTH and the fields that are not date-based as unsupported. Each derived value stays in its calendar bounds: weekdays 1..7, day of month 1..lengthOfMonth, day of year 1..lengthOfYear, aligned week of month 1..5 (1 in month 13), aligned week of year 1..53, month 1..13, year of era at least 1, era 1 from year 1 upwards and 0 below |
| `CopticFields.Get` | src/main/java/org/threeten/extra/chrono/CopticDate.java:331-349 | A value read through `get` is the `getLong` value and lies within the field's range |
| `CopticFields.With` | src/main/java/org/threeten/extra/chrono/CopticDate.java:241-264 | Any date returned is valid; a value outside the field's ISO range fails with "invalid value" before anything else; PROLEPTIC_MONTH and the fields that are not date-based are unsupported |
| `CopticFields.GetYear` | src/main/java/org/threeten/extra/chrono/CopticDate.java:331-333 | The year of era it returns is at least 1 |
| `CopticFields.GetMonthValue` | src/main/java/org/threeten/extra/chrono/CopticDate.java:335-337 | The month it returns is 1..13 |
| `CopticFields.GetDayOfMonth` | src/main/java/org/threeten/extra/chrono/CopticDate.java:339-341 | The day it returns is 1..lengthOfMonth |
| `CopticFields.GetDayOfYear` | src/main/java/org/threeten/extra/chrono/CopticDate.java:343-345 | The day of year it returns is 1..lengthOfYear |
| `CopticFields.GetDayOfWeek` | src/main/java/org/threeten/extra/chrono/CopticDate.java:347-349 | The weekday number is 1..7, a value `DayOfWeek.of` accepts |
| `CopticFields.WithEra` | src/main/java/org/threeten/extra/chrono/CopticDate.java:351-353 | Any date returned is valid; an era value other than 0 or 1 is rejected |
| `CopticFields.WithEraIntended` | src/main/java/org/threeten/extra/chrono/CopticDate.java:351-353 | The corrected `withEra`: asking for the era the date is already in returns the date unchanged, an era other than 0 or 1 is rejected, and any date returned is valid |
| `CopticFields.WithYear` | src/main/java/org/threeten/extra/chrono/CopticDate.java:355-357 | Any date returned is valid; a year of era below 1 is rejected |
| `CopticFields.WithMonth` | src/main/java/org/threeten/extra/chrono/CopticDate.java:359-361 | Any date returned is valid and has the requested month |
| `CopticFields.WithDayOfMonth` | src/main/java/org/threeten/extra/chrono/CopticDate.java:363-365 | As written, it always succeeds, keeps year and month, and sets the day to the month number (clamped in month 13), whatever the argument |
| `CopticFields.WithDayOfYear` | src/main/java/org/threeten/extra/chrono/CopticDate.java:367-369 | As written, it always succeeds, keeps the year, and moves to the day of the year equal to the month number, whatever the argument |
| `CopticFields.WithDayOfMonthIntended` | src/main/java/org/threeten/extra/chrono/CopticDate.java:363-365 | Keeps year and month; any day valid for the month is set exactly as asked |
| `CopticFields.WithDayOfYearIntended` | src/main/java/org/threeten/extra/chrono/CopticDate.java:367-369 | Keeps the year; any day of the year within the year's length is reached exactly |
| `CopticEpochProofs.StartOfYearSpacing` | src/main/java/org/threeten/extra/chrono/CopticDate.java:404-408 | The starts of consecutive years, `(y-1)*365 + floorDiv(y, 4)`, are 366 days apart exactly when `floorMod(y, 4) == 3`, else 365, which is twelve 30-day months plus the length of month 13 |
| `CopticEpochProofs.LeapYearEveryFourthYear` | src/main/java/org/threeten/extra/chrono/CopticDate.java:180 | The leap rule repeats every four years, and exactly one year of any four consecutive ones is a leap year |
| `CopticEpochProofs.StartOfYearCountsYearLengths` | src/main/java/org/threeten/extra/chrono/CopticDate.java:404-408 | For any span of `int` years, the difference of the closed-formula year starts equals the year lengths (365, or 366 in a leap year) added up one year at a time |
| `CopticEpochProofs.YearFormulaUnique` | src/main/java/org/threeten/extra/chrono/CopticDate.java:120 | The four-year-cycle formula `(4s + 1463) / 1461` (floor division) gives the one year whose days contain Coptic day number `s` |
| `CopticEpochProofs.YearStepExact` | src/main/java/org/threeten/extra/chrono/CopticDate.java:119-120 | On the supported range the `long` shift, multiplication and addition do not overflow and the `(int)` cast of the year quotient keeps it |
| `CopticEpochProofs.YearStartFitsInInt` | src/main/java/org/threeten/extra/chrono/CopticDate.java:121 | For years 0..1 000 000 the `int` computation of the year's first day does not overflow and equals the floor-division start of the year |
| `CopticEpochProofs.OfEpochDayExact` | src/main/java/org/threeten/extra/chrono/CopticDate.java:114-126 | On the supported range the Java computation equals the overflow-free floor-division computation: the year whose days contain the day, then month and day from the day of that year |
| `CopticEpochProofs.OfEpochDayRoundTrip` | src/main/java/org/threeten/extra/chrono/CopticDate.java:114-126 | For every epoch day from the start of year 0 to the end of year 1 000 000, `ofEpochDay` succeeds, lands in those years, and `toEpochDay` gives the epoch day back |
| `CopticEpochProofs.ToEpochDayRoundTrip` | src/main/java/org/threeten/extra/chrono/CopticDate.java:404-408 | Every valid date of years 0..1 000 000 has an epoch day in the supported range, and `ofEpochDay` of it returns the same date |
| `CopticEpochProofs.ToEpochDayWithinYear` | src/main/java/org/threeten/extra/chrono/CopticDate.java:404-408 | The Coptic day number of a valid date is its year's start plus its zero-based day of the year, and lies before the next year's start |
| `CopticEpochProofs.MonthAndDaySplit` | src/main/java/org/threeten/extra/chrono/CopticDate.java:123-124 | Dividing the zero-based day of the year of a valid date by 30 recovers its month, and the remainder its day |
| `CopticEpochProofs.OfEpochDayBreaksBelowYearZero` | src/main/java/org/threeten/extra/chrono/CopticDate.java:120-125 | The day before year 0 is the valid date 6 of month 13 of year -1, but `ofEpochDay` of its epoch day computes day 0 of month 1 of year 0 and fails |
| `CopticEpochProofs.EpochDayZero` | src/main/java/org/threeten/extra/chrono/CopticDate.java:110-126 | 1970-01-01 ISO (epoch day 0) is 23 of month 4 of year 1686, both ways |
| `CopticEpochProofs.ToEpochDayOrdered` | src/main/java/org/threeten/extra/chrono/CopticDate.java:404-408 | For every `int` year, a date earlier in (year, month, day) order has a smaller epoch day |
| `CopticEpochProofs.ToEpochDayInjective` | src/main/java/org/threeten/extra/chrono/CopticDate.java:404-408 | Two valid dates with the same epoch day are equal |
| `CopticEpochProofs.PlusDaysMovesEpochDay` | src/main/java/org/threeten/extra/chrono/CopticDate.java:314-319 | When the target lies in the supported range, `plusDays(n)` succeeds and its epoch day is the old one plus `n` |
| `CopticEpochProofs.PlusDaysLandsOn` | src/main/java/org/threeten/extra/chrono/CopticDate.java:314-319 | When the target epoch day lies in the supported range (proleptic years 0..1 000 000), `plusDays(n)` returns exactly the valid date whose epoch day is the old one plus `n` |
| `CopticEpochProofs.PlusDaysComposes` | src/main/java/org/threeten/extra/chrono/CopticDate.java:314-319 | Adding `a` days and then `b` days gives the same date as adding `a + b` days at once, while all dates involved lie in the supported range |
| `CopticEpochProofs.PlusDaysCrossesYearBackwards` | src/main/java/org/threeten/extra/chrono/CopticDate.java:314-319 | For years 1..1 000 000, one day before the first day of the year is the last day of month 13 of the year before: 6 in a leap year, 5 otherwise |
| `CopticEpochProofs.PlusDaysFailsBackFromYearZero` | src/main/java/org/threeten/extra/chrono/CopticDate.java:314-319 | One day before the first day of year 0 `plusDays` fails: it lands on the epoch day that `ofEpochDay` rejects (see `CopticEpochProofs.OfEpochDayBreaksBelowYearZero`), with the constructor's day-of-month error for day 0 |
| `CopticFieldProofs.GetAgreesWithGetLong` | src/main/java/org/threeten/extra/chrono/CopticDate.java:214-234 | For every supported field other than EPOCH_DAY, PROLEPTIC_MONTH and YEAR, `get` succeeds and returns the `getLong` value; for the year of era, this needs the year within the range of `Year` |
| `CopticFieldProofs.NamedGettersReadTheDate` | src/main/java/org/threeten/extra/chrono/CopticDate.java:335-349 | The named getters never fail. They return the stored month and day, the 1-based day of the year, and the weekday `floorMod(epochDay + 3, 7) + 1`. `getYear` gives the year of era |
| `CopticFieldProofs.GetYearFieldFailsFromYearZeroDown` | src/main/java/org/threeten/extra/chrono/CopticDate.java:203-205 | `get(YEAR)` rejects every proleptic year from 0 downwards, because the range of YEAR starts at 1 |
| `CopticFieldProofs.PlusDaysShiftsDayOfWeek` | src/main/java/org/threeten/extra/chrono/CopticDate.java:218 | When the target epoch day lies in the supported range (proleptic years 0..1 000 000), adding `n` days advances the day of week by `n` modulo 7 |
| `CopticFieldProofs.DayOfWeekAfterShift` | src/main/java/org/threeten/extra/chrono/CopticDate.java:218 | Any valid date `n` days after another has its weekday advanced by `n` modulo 7 |
| `CopticFieldProofs.WithDayOfWeekIsPlusDays` | src/main/java/org/threeten/extra/chrono/CopticDate.java:248 | `with(DAY_OF_WEEK, v)` for `v` in 1..7 is `plusDays` of `v` minus the current weekday, a shift of at most six days |
| `CopticFieldProofs.WithDayOfWeekSetsDayOfWeek` | src/main/java/org/threeten/extra/chrono/CopticDate.java:248 | `with(DAY_OF_WEEK, v)` succeeds, yields weekday `v`, and moves the epoch day by `v` minus the old weekday, at most six days either way |
| `CopticFieldProofs.WithWeekFieldIsPlusDays` | src/main/java/org/threeten/extra/chrono/CopticDate.java:254-255 | The aligned-week cases of `with` add seven days per week of difference between the new and the current value, at most 52 weeks |
| `CopticFieldProofs.WithAlignedWeekMovesByWeeks` | src/main/java/org/threeten/extra/chrono/CopticDate.java:254-255 | Setting an aligned week field succeeds, moves the epoch day by whole weeks of difference, and keeps the day of week |
| `CopticFieldProofs.WholeWeeksKeepDayOfWeek` | src/main/java/org/threeten/extra/chrono/CopticDate.java:218 | Two valid dates whole weeks apart have the same day of week |
| `CopticFieldProofs.WithAlignedDayOfWeekInYearMovesByDays` | src/main/java/org/threeten/extra/chrono/CopticDate.java:250 | Setting the aligned weekday of the year succeeds and moves the epoch day by the new value minus the current one |
| `CopticFieldProofs.WithAlignedDayOfWeekInMonthLandsOn` | src/main/java/org/threeten/extra/chrono/CopticDate.java:249 | Setting the aligned weekday of the month yields the valid date that lies the new value minus the current one days away |
| `CopticFieldProofs.WithAlignedDayOfWeekInMonthWithinMonth` | src/main/java/org/threeten/extra/chrono/CopticDate.java:249 | When it stays inside the month, setting the aligned weekday of the month moves to the day of the same aligned week that has that aligned weekday |
| `CopticFieldProofs.AlignedTargetInMonth` | src/main/java/org/threeten/extra/chrono/CopticDate.java:219 | The day of the same aligned week with aligned weekday `v`, when it lies in the month, is valid, has aligned weekday `v`, and is `v` minus the current aligned weekday days away |
| `CopticFieldProofs.WithDayOfMonthClamps` | src/main/java/org/threeten/extra/chrono/CopticDate.java:251 | For an ISO day of month, `with(DAY_OF_MONTH, v)` succeeds exactly in month 13 or for `v` ≤ 30. It keeps year and month and sets the day, clamped to month 13's end. Day 31 of a 30-day month is an invalid DAY_OF_MONTH |
| `CopticFieldProofs.WithDayOfYearClamps` | src/main/java/org/threeten/extra/chrono/CopticDate.java:252 | For an ISO day of year, `with(DAY_OF_YEAR, v)` always succeeds and keeps the year. It reaches day `v`, or the year's last day when the year is shorter, so 366 in a common year is 5 of month 13 |
| `CopticFieldProofs.WithMonthOfYearStopsAtTwelve` | src/main/java/org/threeten/extra/chrono/CopticDate.java:256 | For months 1..12, `with(MONTH_OF_YEAR, m)` keeps year and day and sets the month. Any other value, 13 included, fails the ISO month check |
| `CopticFieldProofs.WithYearClamps` | src/main/java/org/threeten/extra/chrono/CopticDate.java:258 | For an ISO year, `with(YEAR, v)` always succeeds. It moves to year `v`, keeps the month, and clamps a month-13 day to the new year's length |
| `CopticFieldProofs.WithEraFlipsEra` | src/main/java/org/threeten/extra/chrono/CopticDate.java:259 | For either era value, `with(ERA, v)` maps year `y` to `1 - y`. The era flips, the year of era and the month are kept, and a month-13 day is clamped |
| `CopticFieldProofs.WithEraIntendedSetsEra` | src/main/java/org/threeten/extra/chrono/CopticDate.java:351-353 | The corrected `withEra` always succeeds for era 0 or 1, for years from `1 - Integer.MAX_VALUE` up. The result is in the era asked for and keeps the year of era and the month |
| `CopticFieldProofs.WithEraOfCurrentEraMovesTheDate` | src/main/java/org/threeten/extra/chrono/CopticDate.java:259 | `withEra(1)` on 1 of month 1 of 1740, already in era 1, gives 1 of month 1 of year -1739. The corrected version returns the date unchanged |
| `CopticFieldProofs.WithYearOfEraKeepsEra` | src/main/java/org/threeten/extra/chrono/CopticDate.java:257 | `with(YEAR_OF_ERA, n)` for a valid year of era keeps the era and the month and makes the year of era `n` |
| `CopticFieldProofs.WithEpochDayRoundTrip` | src/main/java/org/threeten/extra/chrono/CopticDate.java:253 | On the supported range `with(EPOCH_DAY, v)` succeeds and yields the date whose epoch day is `v` |
| `CopticFieldProofs.WithEpochDayNarrowsToInt` | src/main/java/org/threeten/extra/chrono/CopticDate.java:246-253 | The value is cast to `int` first, so the ISO-valid epoch day 2^32 gives the date of epoch day 0 |
| `CopticFieldProofs.WithDayOfMonthIgnoresItsArgument` | src/main/java/org/threeten/extra/chrono/CopticDate.java:363-365 | `withDayOfMonth(15)` on the first of month 2 gives its second day. The intended version gives the fifteenth |
| `CopticFieldProofs.WithDayOfYearIgnoresItsArgument` | src/main/java/org/threeten/extra/chrono/CopticDate.java:367-369 | `withDayOfYear(100)` on a date in month 2 gives day 2 of the year. The intended version gives day 100 (10 of month 4) |

## Left out

- `of(era, year, month, day)` is left out. It delegates to the chronology's `date` factory, and `CopticChrono` is not part of this model.
- `CopticChrono` is not part of this model. These parts of it are written in as constants:
  - the leap rule `floorMod(y, 4) == 3`;
  - the month and day-of-month ranges;
  - its `range(field)`, taken as the month range 1..13 for MONTH_OF_YEAR and the field's ISO range for every other field.
- The JDK's `ChronoField` ranges are a table in `JavaTime.IsoRange`. Where a field has two maxima, the table keeps the larger one.
- `until` is left out. It hands the work to `LocalDate.until` and to foreign `TemporalUnit` code.
- `readResolve` and serialization are left out. `readResolve` returns the object unchanged.
- Dispatch to code outside this class is left out, because what it does is defined by other classes:
  - a non-`ChronoField` field's `getFrom`, `adjustInto`, `rangeRefinedBy` and `isSupportedBy`;
  - `with(TemporalAdjuster)`;
  - `getChronology`.
- The commented-out `plus`, `minus`, `plusMonths`, `plusYears`, `plusWeeks` and `minus*` methods are left out. They are not live code.
- `ValueRange` is kept as its outer bounds only. Its smallest maximum is not modelled.
- `equals`, `hashCode` and `toString` are not part of this model. `CopticDate` does not override `equals`, so Java compares two dates by identity; the model compares dates as values, and the round trips are stated on values.
- `CopticEpochProofs.OfEpochDayRoundTrip`: the round trip is stated for epoch days in proleptic years 0..1 000 000 only.
  - Below year 0 it fails, as `CopticEpochProofs.OfEpochDayBreaksBelowYearZero` shows.
  - The upper cap bounds the proof, not the code. The wrapped `int` steps of `ofEpochDay` may well stay exact above it, but the model makes no claim there.
- `CopticEpochProofs.ToEpochDayRoundTrip`: stated for years 0..1 000 000, for the same reasons.
- `CopticEpochProofs.PlusDaysLandsOn`, `CopticEpochProofs.PlusDaysCrossesYearBackwards` and `CopticFieldProofs.PlusDaysShiftsDayOfWeek` are stated only where the target epoch day lies in years 0..1 000 000. Outside that range they inherit the round trip's limits.
- `CopticFields.GetLong`: its bound on YEAR_OF_ERA (at least 1) is stated only for years from `1 - Integer.MAX_VALUE` upwards. Below that, `1 - prolepticYear` wraps around in `int` arithmetic.
- `CopticFields.GetYear`: the result is at least 1 whenever it succeeds. `CopticFieldProofs.NamedGettersReadTheDate` shows that it succeeds for years within the range of `Year`.
- `CopticFields.With`: its own contract gives only validity and the error cases. The result of each field's case is stated by the `CopticFieldProofs` lemmas.
  - Those lemmas take years 1..999 999 where the case moves the date by days or weeks, so that the moved date stays in the supported range.
  - They take years from `1 - Integer.MAX_VALUE` upwards for ERA.
- `CopticFields.WithEra`, `CopticFields.WithYear` and `CopticFields.WithMonth` take the numeric value of the era or year. Building an `Era` object is not modelled.

## Findings

| source | as written | input that shows it | evidently intended | confidence | as-written member | corrected member |
|---|---|---|---|---|---|---|
| src/main/java/org/threeten/extra/chrono/CopticDate.java:363-365 | `withDayOfMonth(dayOfMonth)` passes the date's month, not `dayOfMonth`, to `with(DAY_OF_MONTH, ...)` | `withDayOfMonth(15)` on 1 of month 2 of 1740 gives 2 of month 2 | `with(DAY_OF_MONTH, dayOfMonth)`, giving 15 of month 2 | not executed | `CopticFieldProofs.WithDayOfMonthIgnoresItsArgument` | `CopticFields.WithDayOfMonthIntended` |
| src/main/java/org/threeten/extra/chrono/CopticDate.java:367-369 | `withDayOfYear(dayOfYear)` passes the date's month, not `dayOfYear`, to `with(DAY_OF_YEAR, ...)` | `withDayOfYear(100)` on 1 of month 2 of 1740 gives 2 of month 1 | `with(DAY_OF_YEAR, dayOfYear)`, giving 10 of month 4 | not executed | `CopticFieldProofs.WithDayOfYearIgnoresItsArgument` | `CopticFields.WithDayOfYearIntended` |
| src/main/java/org/threeten/extra/chrono/CopticDate.java:259 | `with(ERA, v)` maps year `y` to `1 - y` whatever `v` is, so asking for the date's own era moves it to the other era | `withEra(1)` on 1 of month 1 of 1740 (era 1) gives 1 of month 1 of year -1739 | as `LocalDate.with(ERA, v)` does: the date unchanged when `v` is its era, the year flipped otherwise | not executed | `CopticFieldProofs.WithEraOfCurrentEraMovesTheDate` | `CopticFields.WithEraIntended` |
