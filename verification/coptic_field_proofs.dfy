/** What the field protocol promises: `get` reads the same values as
    `getLong` wherever the field's range admits them, the named getters never
    fail, and each `with` sets the field it names, moves the date by the days
    it says, or clamps the day of month 13, as the source does. */
module CopticFieldProofs {
  import opened JavaMath
  import opened JavaTime
  import opened CopticDates
  import opened CopticFields
  import opened CopticEpochProofs

  /** For every supported field whose range the date code itself bounds by
      the calendar, `get` succeeds and agrees with `getLong`; the year of era
      needs the year within the range of `Year`. EPOCH_DAY has a range wider
      than an `int`, and YEAR a range that starts at 1 (see
      GetYearFieldFailsFromYearZeroDown). */
  lemma {:induction false} GetAgreesWithGetLong(d: CopticDate, f: Field)
    requires Valid(d) && IsSupported(f)
    requires !f.EpochDay? && !f.ProlepticMonth? && !f.Year?
    requires f.YearOfEra? ==> YEAR_MIN_VALUE <= d.prolepticYear <= YEAR_MAX_VALUE
    ensures Get(d, f).Ok?
    ensures Get(d, f) == GetLong(d, f)
  {
    if f.YearOfEra? && d.prolepticYear <= 0 {
      assert Wrap32(1 - d.prolepticYear) == 1 - d.prolepticYear;
    }
  }

  /** The named getters never fail on a valid date, and read the stored
      fields; `getYear` needs the year within the range of `Year`. */
  lemma {:induction false} NamedGettersReadTheDate(d: CopticDate)
    requires Valid(d)
    ensures GetMonthValue(d) == Ok(d.month)
    ensures GetDayOfMonth(d) == Ok(d.day)
    ensures GetDayOfYear(d) == Ok(DayOfYearOf(d))
    ensures GetDayOfWeek(d) == Ok((ToEpochDay(d) + 3) % 7 + 1)
    ensures YEAR_MIN_VALUE <= d.prolepticYear <= YEAR_MAX_VALUE ==>
              GetYear(d) == Ok(if d.prolepticYear >= 1 then d.prolepticYear else 1 - d.prolepticYear)
  {
    GetAgreesWithGetLong(d, MonthOfYear);
    GetAgreesWithGetLong(d, DayOfMonth);
    GetAgreesWithGetLong(d, DayOfYear);
    GetAgreesWithGetLong(d, DayOfWeek);
    if YEAR_MIN_VALUE <= d.prolepticYear <= YEAR_MAX_VALUE {
      GetAgreesWithGetLong(d, YearOfEra);
    }
  }

  /** `get(YEAR)` uses the year-of-era range, which starts at 1, so it
      rejects every proleptic year from 0 downwards. */
  lemma GetYearFieldFailsFromYearZeroDown(d: CopticDate)
    requires Valid(d) && d.prolepticYear <= 0
    ensures Get(d, Year) == Err(InvalidValue(Year, d.prolepticYear))
  {
  }

  /** Days added to a date of years 1 .. MAX_SUPPORTED_YEAR - 1 land in the
      supported range as long as they are at most a year's worth. */
  lemma {:induction false} ShiftStaysSupported(d: CopticDate, days: int)
    requires Valid(d) && 1 <= d.prolepticYear < MAX_SUPPORTED_YEAR && -365 <= days <= 365
    ensures InSupportedEpochRange(ToEpochDay(d) + days)
  {
    ToEpochDayWithinYear(d);
    StartOfYearMonotone(1, d.prolepticYear);
    StartOfYearMonotone(d.prolepticYear + 1, MAX_SUPPORTED_YEAR);
    StartOfYearSpacing(MAX_SUPPORTED_YEAR);
  }

  /** Adding days advances the day of week by the same number of days,
      modulo 7. */
  lemma {:induction false} PlusDaysShiftsDayOfWeek(d: CopticDate, days: Int64)
    requires Valid(d) && InSupportedEpochRange(ToEpochDay(d) + days)
    ensures PlusDays(d, days).Ok?
    ensures GetLong(PlusDays(d, days).value, DayOfWeek).value
            == (GetLong(d, DayOfWeek).value - 1 + days) % 7 + 1
  {
    PlusDaysMovesEpochDay(d, days);
    DayOfWeekAfterShift(d, PlusDays(d, days).value, days);
  }

  /** The weekday number of epoch day `e + n` is that of `e` advanced by `n`. */
  lemma {:induction false} WeekdayArithmetic(e: int, n: int)
    ensures (e + n + 3) % 7 + 1 == ((e + 3) % 7 + 1 - 1 + n) % 7 + 1
  {
    var q, r := (e + 3) / 7, (e + 3) % 7;
    assert e + 3 + n == 7 * q + (r + n);
  }

  /** `with(DAY_OF_WEEK, v)` adds the difference between `v` and the current
      day of week, in days. */
  lemma {:induction false} WithDayOfWeekIsPlusDays(d: CopticDate, v: Int64)
    requires Valid(d) && 1 <= v <= 7
    ensures -6 <= v - GetLong(d, DayOfWeek).value <= 6
    ensures With(d, DayOfWeek, v) == PlusDays(d, v - GetLong(d, DayOfWeek).value)
  {
    GetAgreesWithGetLong(d, DayOfWeek);
    assert GetDayOfWeek(d) == GetLong(d, DayOfWeek);
  }

  /** The aligned week cases of `with` add the difference between the new
      value and the current one, in weeks. */
  lemma {:induction false} WithWeekFieldIsPlusDays(d: CopticDate, f: Field, v: Int64)
    requires Valid(d)
    requires f.AlignedWeekOfMonth? || f.AlignedWeekOfYear?
    requires IsValidValue(IsoRange(f), v)
    ensures -364 <= (v - GetLong(d, f).value) * 7 <= 364
    ensures With(d, f, v) == PlusDays(d, (v - GetLong(d, f).value) * 7)
  {
    match f
    case AlignedWeekOfMonth =>
      assert With(d, f, v) == PlusDays(d, (v - GetLong(d, f).value) * 7);
    case AlignedWeekOfYear =>
      assert With(d, f, v) == PlusDays(d, (v - GetLong(d, f).value) * 7);
  }

  /** `with(DAY_OF_WEEK, v)` lands on weekday `v` within the same
      Monday-to-Sunday week: the epoch day moves by `v` minus the old
      weekday, at most six days either way. */
  lemma {:induction false} WithDayOfWeekSetsDayOfWeek(d: CopticDate, v: Int64)
    requires Valid(d) && 1 <= v <= 7 && 1 <= d.prolepticYear < MAX_SUPPORTED_YEAR
    ensures var r := With(d, DayOfWeek, v);
            && r.Ok?
            && GetLong(r.value, DayOfWeek) == Ok(v)
            && ToEpochDay(r.value) - ToEpochDay(d) == v - GetLong(d, DayOfWeek).value
            && -6 <= ToEpochDay(r.value) - ToEpochDay(d) <= 6
  {
    var dow := GetLong(d, DayOfWeek).value;
    WithDayOfWeekIsPlusDays(d, v);
    ShiftStaysSupported(d, v - dow);
    PlusDaysMovesEpochDay(d, v - dow);
    DayOfWeekLands(d, With(d, DayOfWeek, v).value, v);
  }

  /** A date `days` later than another has its day of week advanced by `days`,
      modulo 7. */
  lemma {:induction false} DayOfWeekAfterShift(d: CopticDate, r: CopticDate, days: int)
    requires Valid(d) && Valid(r) && ToEpochDay(r) == ToEpochDay(d) + days
    ensures GetLong(r, DayOfWeek) == Ok((GetLong(d, DayOfWeek).value - 1 + days) % 7 + 1)
  {
    WeekdayArithmetic(ToEpochDay(d), days);
  }

  /** The date `v - dow` days after a date of weekday `dow` has weekday `v`. */
  lemma {:induction false} DayOfWeekLands(d: CopticDate, r: CopticDate, v: int)
    requires Valid(d) && Valid(r) && 1 <= v <= 7
    requires ToEpochDay(r) == ToEpochDay(d) + (v - GetLong(d, DayOfWeek).value)
    ensures GetLong(r, DayOfWeek) == Ok(v)
  {
    var dow := GetLong(d, DayOfWeek).value;
    DayOfWeekAfterShift(d, r, v - dow);
    WeekdayLands(dow, v);
  }

  /** Moving weekday `dow` by `v - dow` days lands on weekday `v`. */
  lemma {:induction false} WeekdayLands(dow: int, v: int)
    requires 1 <= v <= 7
    ensures (dow - 1 + (v - dow)) % 7 + 1 == v
  {
    assert dow - 1 + (v - dow) == v - 1;
  }

  /** `with(ALIGNED_DAY_OF_WEEK_IN_YEAR, v)` moves the date by the difference
      between `v` and the current aligned weekday of the year, in days. */
  lemma {:induction false} WithAlignedDayOfWeekInYearMovesByDays(d: CopticDate, v: Int64)
    requires Valid(d) && 1 <= d.prolepticYear < MAX_SUPPORTED_YEAR && 1 <= v <= 7
    ensures var r := With(d, AlignedDayOfWeekInYear, v);
            && r.Ok?
            && ToEpochDay(r.value) - ToEpochDay(d) == v - GetLong(d, AlignedDayOfWeekInYear).value
  {
    var days := v - GetLong(d, AlignedDayOfWeekInYear).value;
    assert With(d, AlignedDayOfWeekInYear, v) == PlusDays(d, days);
    ShiftStaysSupported(d, days);
    PlusDaysMovesEpochDay(d, days);
  }

  /** The two aligned week fields move the date by the difference between
      the new value and the current one, in weeks, and so keep the weekday. */
  lemma {:induction false} WithAlignedWeekMovesByWeeks(d: CopticDate, f: Field, v: Int64)
    requires Valid(d) && 1 <= d.prolepticYear < MAX_SUPPORTED_YEAR
    requires f.AlignedWeekOfMonth? || f.AlignedWeekOfYear?
    requires IsValidValue(IsoRange(f), v)
    ensures With(d, f, v).Ok?
    ensures ToEpochDay(With(d, f, v).value) - ToEpochDay(d) == (v - GetLong(d, f).value) * 7
    ensures GetLong(With(d, f, v).value, DayOfWeek) == GetLong(d, DayOfWeek)
  {
    var days := (v - GetLong(d, f).value) * 7;
    WithWeekFieldIsPlusDays(d, f, v);
    ShiftStaysSupported(d, days);
    PlusDaysMovesEpochDay(d, days);
    WholeWeeksKeepDayOfWeek(d, With(d, f, v).value, v - GetLong(d, f).value);
  }

  /** A date whole weeks away from another has the same day of week. */
  lemma {:induction false} WholeWeeksKeepDayOfWeek(d: CopticDate, r: CopticDate, weeks: int)
    requires Valid(d) && Valid(r) && ToEpochDay(r) == ToEpochDay(d) + weeks * 7
    ensures GetLong(r, DayOfWeek) == GetLong(d, DayOfWeek)
  {
    WeekdayArithmetic(ToEpochDay(d), weeks * 7);
    WholeWeeksKeepWeekday(GetLong(d, DayOfWeek).value, weeks);
  }

  /** Moving a weekday by whole weeks keeps it. */
  lemma {:induction false} WholeWeeksKeepWeekday(dow: int, weeks: int)
    requires 1 <= dow <= 7
    ensures (dow - 1 + weeks * 7) % 7 + 1 == dow
  {
    assert dow - 1 + weeks * 7 == 7 * weeks + (dow - 1);
  }

  /** When the target stays inside the month, `with(ALIGNED_DAY_OF_WEEK_IN_MONTH, v)`
      moves to the day of the same aligned week whose aligned weekday is `v`. */
  lemma {:induction false} WithAlignedDayOfWeekInMonthWithinMonth(d: CopticDate, v: Int64)
    requires Valid(d) && 1 <= v <= 7 && 1 <= d.prolepticYear < MAX_SUPPORTED_YEAR
    requires d.day - GetLong(d, AlignedDayOfWeekInMonth).value + v <= LengthOfMonth(d)
    ensures var target := CopticDate(d.prolepticYear, d.month, d.day - GetLong(d, AlignedDayOfWeekInMonth).value + v);
            && With(d, AlignedDayOfWeekInMonth, v) == Ok(target)
            && GetLong(target, AlignedDayOfWeekInMonth) == Ok(v)
  {
    var cur := GetLong(d, AlignedDayOfWeekInMonth).value;
    var target := CopticDate(d.prolepticYear, d.month, d.day - cur + v);
    AlignedTargetInMonth(d, v);
    assert With(d, AlignedDayOfWeekInMonth, v) == Ok(target) by {
      WithAlignedDayOfWeekInMonthLandsOn(d, v, target);
    }
  }

  /** `with(ALIGNED_DAY_OF_WEEK_IN_MONTH, v)` lands on the valid date the
      difference between `v` and the current aligned weekday away. */
  lemma {:induction false} WithAlignedDayOfWeekInMonthLandsOn(d: CopticDate, v: Int64, target: CopticDate)
    requires Valid(d) && Valid(target) && 1 <= v <= 7 && 1 <= d.prolepticYear < MAX_SUPPORTED_YEAR
    requires ToEpochDay(target) == ToEpochDay(d) + (v - GetLong(d, AlignedDayOfWeekInMonth).value)
    ensures With(d, AlignedDayOfWeekInMonth, v) == Ok(target)
  {
    var days := v - GetLong(d, AlignedDayOfWeekInMonth).value;
    assert With(d, AlignedDayOfWeekInMonth, v) == PlusDays(d, days);
    ShiftStaysSupported(d, days);
    PlusDaysLandsOn(d, days, target);
  }

  /** The day of the same aligned week with aligned weekday `v`, when it lies
      in the month, is `v` minus the current aligned weekday days away. */
  lemma {:induction false} AlignedTargetInMonth(d: CopticDate, v: int)
    requires Valid(d) && 1 <= v <= 7
    requires d.day - GetLong(d, AlignedDayOfWeekInMonth).value + v <= LengthOfMonth(d)
    ensures var target := CopticDate(d.prolepticYear, d.month, d.day - GetLong(d, AlignedDayOfWeekInMonth).value + v);
            && Valid(target)
            && ToEpochDay(target) == ToEpochDay(d) + (v - GetLong(d, AlignedDayOfWeekInMonth).value)
            && GetLong(target, AlignedDayOfWeekInMonth) == Ok(v)
  {
    var cur := GetLong(d, AlignedDayOfWeekInMonth).value;
    var target := CopticDate(d.prolepticYear, d.month, d.day - cur + v);
    assert d.day - 1 == 7 * ((d.day - 1) / 7) + (cur - 1);
    assert (target.day - 1) % 7 == v - 1;
  }

  /** `with(DAY_OF_MONTH, v)` keeps year and month; in month 13 a day beyond
      the month's end is clamped to it, in the other months a day 31 is an
      error. */
  lemma {:induction false} WithDayOfMonthClamps(d: CopticDate, v: Int64)
    requires Valid(d) && 1 <= v <= 31
    ensures With(d, DayOfMonth, v).Ok? <==> d.month == 13 || v <= 30
    ensures With(d, DayOfMonth, v).Ok? ==>
              With(d, DayOfMonth, v).value
              == CopticDate(d.prolepticYear, d.month, if v <= LengthOfMonth(d) then v else LengthOfMonth(d))
    ensures With(d, DayOfMonth, v).Err? ==> With(d, DayOfMonth, v).error == InvalidValue(DayOfMonth, v)
  {
    assert With(d, DayOfMonth, v) == ResolvePreviousValid(d.prolepticYear, d.month, v);
  }

  /** `with(DAY_OF_YEAR, v)` never fails for an ISO day of year: it keeps the
      year and reaches day `v`, or the last day of the year when the year is
      shorter (so day 366 of a common year is 5 of month 13). */
  lemma {:induction false} WithDayOfYearClamps(d: CopticDate, v: Int64)
    requires Valid(d) && 1 <= v <= 366
    ensures With(d, DayOfYear, v).Ok?
    ensures With(d, DayOfYear, v).value.prolepticYear == d.prolepticYear
    ensures DayOfYearOf(With(d, DayOfYear, v).value)
            == (if v <= LengthOfYear(d.prolepticYear) then v else LengthOfYear(d.prolepticYear))
  {
    var m, dom := (v - 1) / 30 + 1, (v - 1) % 30 + 1;
    assert v - 1 == 30 * (m - 1) + (dom - 1);
    assert With(d, DayOfYear, v) == ResolvePreviousValid(d.prolepticYear, m, dom);
  }

  /** `with(MONTH_OF_YEAR, m)` keeps year and day for months 1..12; since the
      ISO month range stops at 12, month 13 can never be reached this way. */
  lemma {:induction false} WithMonthOfYearStopsAtTwelve(d: CopticDate, m: Int64)
    requires Valid(d)
    ensures 1 <= m <= 12 ==> With(d, MonthOfYear, m) == Ok(CopticDate(d.prolepticYear, m, d.day))
    ensures !(1 <= m <= 12) ==> With(d, MonthOfYear, m) == Err(InvalidValue(MonthOfYear, m))
  {
    if 1 <= m <= 12 {
      assert With(d, MonthOfYear, m) == ResolvePreviousValid(d.prolepticYear, m, d.day);
    }
  }

  /** `with(YEAR, v)` never fails for an ISO year: it moves to year `v`,
      keeps the month, and clamps a month-13 day to the new year's length. */
  lemma {:induction false} WithYearClamps(d: CopticDate, v: Int64)
    requires Valid(d) && YEAR_MIN_VALUE <= v <= YEAR_MAX_VALUE
    ensures With(d, Year, v).Ok?
    ensures var r := With(d, Year, v).value;
            && r.prolepticYear == v && r.month == d.month
            && r.day == (if d.day <= LengthOfMonth(r) then d.day else LengthOfMonth(r))
  {
    assert With(d, Year, v) == ResolvePreviousValid(v, d.month, d.day);
  }

  /** `with(ERA, v)` maps year `y` to `1 - y` whatever the era value `v`:
      the era flips (even when `v` names the current era), the year of era and
      the month stay, and a month-13 day is clamped. */
  lemma {:induction false} WithEraFlipsEra(d: CopticDate, v: Int64)
    requires Valid(d) && 0 <= v <= 1 && d.prolepticYear >= 1 - INT_MAX
    ensures With(d, Era, v).Ok?
    ensures var r := With(d, Era, v).value;
            && r.prolepticYear == 1 - d.prolepticYear && r.month == d.month
            && r.day == (if d.day <= LengthOfMonth(r) then d.day else LengthOfMonth(r))
            && GetLong(r, Era).value == 1 - GetLong(d, Era).value
            && GetLong(r, YearOfEra) == GetLong(d, YearOfEra)
  {
    var y := d.prolepticYear;
    assert Wrap32(1 - y) == 1 - y;
    assert With(d, Era, v) == ResolvePreviousValid(1 - y, d.month, d.day);
    if y >= 1 {
      assert Wrap32(1 - (1 - y)) == y;
    }
  }

  /** The intended `withEra` sets the era asked for and keeps the year of
      era and the month, whichever era the date is in. */
  lemma {:induction false} WithEraIntendedSetsEra(d: CopticDate, era: Int32)
    requires Valid(d) && 0 <= era <= 1 && d.prolepticYear >= 1 - INT_MAX
    ensures WithEraIntended(d, era).Ok?
    ensures var r := WithEraIntended(d, era).value;
            && GetLong(r, Era) == Ok(era)
            && GetLong(r, YearOfEra) == GetLong(d, YearOfEra)
            && r.month == d.month
  {
    if era != GetLong(d, Era).value {
      WithEraFlipsEra(d, era);
    }
  }

  /** `withEra(AM)` on a date already in the AM era moves it to the year of
      era 1740 before the era; the intended version leaves it unchanged. */
  lemma WithEraOfCurrentEraMovesTheDate()
    ensures WithEra(CopticDate(1740, 1, 1), 1) == Ok(CopticDate(-1739, 1, 1))
    ensures WithEraIntended(CopticDate(1740, 1, 1), 1) == Ok(CopticDate(1740, 1, 1))
  {
  }

  /** `with(YEAR_OF_ERA, n)` keeps the era and the month and sets the year of
      era to `n`. */
  lemma {:induction false} WithYearOfEraKeepsEra(d: CopticDate, n: Int64)
    requires Valid(d) && 1 <= n <= YEAR_MAX_VALUE + 1
    ensures With(d, YearOfEra, n).Ok?
    ensures var r := With(d, YearOfEra, n).value;
            && r.month == d.month
            && GetLong(r, Era) == GetLong(d, Era)
            && GetLong(r, YearOfEra) == Ok(n)
  {
    var y := d.prolepticYear;
    if y >= 1 {
      assert With(d, YearOfEra, n) == ResolvePreviousValid(n, d.month, d.day);
    } else {
      assert Wrap32(1 - n) == 1 - n;
      assert With(d, YearOfEra, n) == ResolvePreviousValid(1 - n, d.month, d.day);
      assert Wrap32(1 - (1 - n)) == n;
    }
  }

  /** `with(EPOCH_DAY, v)` on the supported range yields the date of epoch
      day `v`. */
  lemma {:induction false} WithEpochDayRoundTrip(d: CopticDate, v: Int64)
    requires Valid(d) && InSupportedEpochRange(v)
    ensures With(d, EpochDay, v).Ok?
    ensures ToEpochDay(With(d, EpochDay, v).value) == v
  {
    assert Wrap32(v) == v;
    assert With(d, EpochDay, v) == OfEpochDay(v);
    OfEpochDayRoundTrip(v);
  }

  /** `with(EPOCH_DAY, v)` narrows `v` to an `int` before converting, so an
      ISO-valid epoch day 2^32 behaves like epoch day 0. */
  lemma WithEpochDayNarrowsToInt()
    ensures With(CopticDate(1686, 1, 1), EpochDay, 0x1_0000_0000) == Ok(CopticDate(1686, 4, 23))
  {
    assert Wrap32(0x1_0000_0000) == 0;
    assert With(CopticDate(1686, 1, 1), EpochDay, 0x1_0000_0000) == OfEpochDay(0);
    EpochDayZero();
  }

  /** `withDayOfMonth(15)` on the first of month 2 gives its second day, where
      the argument asks for the fifteenth; the intended version does that. */
  lemma WithDayOfMonthIgnoresItsArgument()
    ensures WithDayOfMonth(CopticDate(1740, 2, 1), 15) == Ok(CopticDate(1740, 2, 2))
    ensures WithDayOfMonthIntended(CopticDate(1740, 2, 1), 15) == Ok(CopticDate(1740, 2, 15))
  {
  }

  /** `withDayOfYear(100)` on a date in month 2 gives day 2 of the year, where
      the argument asks for day 100 (10 of month 4); the intended version does
      that. */
  lemma WithDayOfYearIgnoresItsArgument()
    ensures WithDayOfYear(CopticDate(1740, 2, 1), 100) == Ok(CopticDate(1740, 1, 2))
    ensures WithDayOfYearIntended(CopticDate(1740, 2, 1), 100) == Ok(CopticDate(1740, 4, 10))
  {
  }
}
