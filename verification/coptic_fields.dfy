/** The field protocol of the Coptic date: which `ChronoField`s it supports,
    their ranges, reading a field (`getLong`, `get`), setting one (`with`),
    and the named getters and `with*` shortcuts built on them. */
module CopticFields {
  import opened JavaMath
  import opened JavaTime
  import opened CopticDates

  /** `isSupported(field)` for a ChronoField: exactly the date-based ones. */
  predicate IsSupported(f: Field) {
    IsDateBased(f)
  }

  /** The Coptic chronology's range for the fields that `range` hands on to
      it: the month range for MONTH_OF_YEAR, the field's ISO range otherwise. */
  function ChronologyRange(f: Field): ValueRange {
    if f.MonthOfYear? then MOY_RANGE else IsoRange(f)
  }

  /** `range(field)`. The aligned-week-of-month bound reads the month through
      `getMonthValue()`, which always yields the stored month (see
      CopticFieldProofs.NamedGettersReadTheDate). */
  function Range(d: CopticDate, f: Field): (r: Result<ValueRange>)
    requires Valid(d)
    ensures r.Ok? <==> IsSupported(f)
    ensures r.Err? ==> r.error == UnsupportedField(f)
    ensures r.Ok? ==> r.value.min <= r.value.max
    // the days a date of this year and month may have
    ensures r.Ok? && f.DayOfMonth? ==>
      forall v :: IsValidValue(r.value, v) <==> Valid(CopticDate(d.prolepticYear, d.month, v))
    ensures r.Ok? && f.DayOfYear? ==>
      forall v :: IsValidValue(r.value, v) <==> 1 <= v <= LengthOfYear(d.prolepticYear)
    ensures r.Ok? && f.MonthOfYear? ==> forall m :: IsValidValue(r.value, m) <==> 1 <= m <= 13
    // from week 1 up to the aligned week of the month's, or the year's, last day
    ensures r.Ok? && f.AlignedWeekOfMonth? ==> r.value == ValueRange(1, JDiv(LengthOfMonth(d) - 1, 7) + 1)
    ensures r.Ok? && f.AlignedWeekOfYear? ==>
      r.value == ValueRange(1, JDiv(LengthOfYear(d.prolepticYear) - 1, 7) + 1)
    ensures r.Ok? && (f.Year? || f.YearOfEra?) ==> r.value.min == 1
    // the weekdays, EPOCH_DAY, PROLEPTIC_MONTH and ERA keep their ISO ranges
    ensures r.Ok? && (f.DayOfWeek? || f.AlignedDayOfWeekInMonth? || f.AlignedDayOfWeekInYear? ||
                      f.EpochDay? || f.ProlepticMonth? || f.Era?) ==>
      r.value == IsoRange(f)
  {
    if !IsSupported(f) then Err(UnsupportedField(f))
    else
      match f
      case DayOfMonth => Ok(ValueRange(1, LengthOfMonth(d)))
      case DayOfYear => Ok(ValueRange(1, LengthOfYear(d.prolepticYear)))
      case AlignedWeekOfMonth => Ok(ValueRange(1, if d.month == 13 then 1 else 5))
      case Year | YearOfEra =>
        Ok(if d.prolepticYear <= 0 then ValueRange(1, YEAR_MAX_VALUE + 1) else ValueRange(1, YEAR_MAX_VALUE))
      case _ => Ok(ChronologyRange(f))
  }

  /** `getLong(field)`: the twelve supported derivations; every other field,
      PROLEPTIC_MONTH included, is unsupported. Each derived value stays within
      the bounds the calendar gives it. */
  function GetLong(d: CopticDate, f: Field): (r: Result<Int64>)
    requires Valid(d)
    ensures r.Ok? <==> !(f.ProlepticMonth? || f.TimeField?)
    ensures r.Err? ==> r.error == UnsupportedField(f)
    ensures r.Ok? && f.DayOfWeek? ==> 1 <= r.value <= 7
    ensures r.Ok? && f.AlignedDayOfWeekInMonth? ==> 1 <= r.value <= 7
    ensures r.Ok? && f.AlignedDayOfWeekInYear? ==> 1 <= r.value <= 7
    ensures r.Ok? && f.DayOfMonth? ==> 1 <= r.value <= LengthOfMonth(d)
    ensures r.Ok? && f.DayOfYear? ==> 1 <= r.value <= LengthOfYear(d.prolepticYear)
    ensures r.Ok? && f.AlignedWeekOfMonth? ==> 1 <= r.value <= 5 && (d.month == 13 ==> r.value == 1)
    ensures r.Ok? && f.AlignedWeekOfYear? ==> 1 <= r.value <= 53
    ensures r.Ok? && f.MonthOfYear? ==> 1 <= r.value <= 13
    ensures r.Ok? && f.YearOfEra? && d.prolepticYear >= 1 - INT_MAX ==> r.value >= 1
    ensures r.Ok? && f.Era? ==> r.value == (if d.prolepticYear >= 1 then 1 else 0)
  {
    var y := d.prolepticYear;
    match f
    case DayOfWeek => Ok((ToEpochDay(d) + 3) % 7 + 1)   // Math.floorMod
    case AlignedDayOfWeekInMonth => Ok(JMod(d.day - 1, 7) + 1)
    case AlignedDayOfWeekInYear => Ok(JMod(DayOfYearOf(d) - 1, 7) + 1)
    case DayOfMonth => Ok(d.day)
    case DayOfYear => Ok((d.month - 1) * 30 + d.day)
    case EpochDay => Ok(ToEpochDay(d))
    case AlignedWeekOfMonth => Ok(JDiv(d.day - 1, 7) + 1)
    case AlignedWeekOfYear => Ok(JDiv(DayOfYearOf(d) - 1, 7) + 1)
    case MonthOfYear => Ok(d.month)
    case YearOfEra => Ok(if y >= 1 then y else Wrap32(1 - y))   // `int` arithmetic
    case Year => Ok(y)
    case Era => Ok(if y >= 1 then 1 else 0)
    case _ => Err(UnsupportedField(f))
  }

  /** `get(field)`, the TemporalAccessor default: the field's range must fit in
      an `int`, and the value read must lie in it. */
  function Get(d: CopticDate, f: Field): (r: Result<Int32>)
    requires Valid(d)
    ensures r.Ok? ==> GetLong(d, f) == Ok(r.value)
    ensures r.Ok? ==> Range(d, f).Ok? && IsValidValue(Range(d, f).value, r.value)
  {
    var range :- Range(d, f);
    if !IsIntValue(range) then Err(InvalidFieldForGet(f))
    else
      var value :- GetLong(d, f);
      if !IsValidValue(range, value) then Err(InvalidValue(f, value)) else Ok(value)
  }

  /** `with(field, newValue)`: the value must first pass the field's ISO range
      check; the day-of-week and aligned fields move by whole days, the
      calendar fields rebuild the date through the month-13 clamp, EPOCH_DAY
      converts the value narrowed to an `int`, and every other field is
      unsupported. */
  function With(d: CopticDate, f: Field, newValue: Int64): (r: Result<CopticDate>)
    requires Valid(d)
    ensures r.Ok? ==> Valid(r.value)
    ensures !IsValidValue(IsoRange(f), newValue) ==> r == Err(InvalidValue(f, newValue))
    ensures IsValidValue(IsoRange(f), newValue) && (f.ProlepticMonth? || f.TimeField?) ==>
              r == Err(UnsupportedField(f))
  {
    var _ :- CheckValidValue(IsoRange(f), f, newValue);
    var nvalue := Wrap32(newValue);
    var y := d.prolepticYear;
    match f
    case DayOfWeek =>
      var dow :- GetDayOfWeek(d);
      PlusDays(d, newValue - dow)
    case AlignedDayOfWeekInMonth =>
      PlusDays(d, newValue - GetLong(d, AlignedDayOfWeekInMonth).value)
    case AlignedDayOfWeekInYear =>
      PlusDays(d, newValue - GetLong(d, AlignedDayOfWeekInYear).value)
    case DayOfMonth => ResolvePreviousValid(y, d.month, nvalue)
    case DayOfYear => ResolvePreviousValid(y, JDiv(nvalue - 1, 30) + 1, JMod(nvalue - 1, 30) + 1)
    case EpochDay => OfEpochDay(nvalue)
    case AlignedWeekOfMonth =>
      PlusDays(d, (newValue - GetLong(d, AlignedWeekOfMonth).value) * 7)
    case AlignedWeekOfYear =>
      PlusDays(d, (newValue - GetLong(d, AlignedWeekOfYear).value) * 7)
    case MonthOfYear => ResolvePreviousValid(y, nvalue, d.day)
    case YearOfEra => ResolvePreviousValid(if y >= 1 then nvalue else Wrap32(1 - nvalue), d.month, d.day)
    case Year => ResolvePreviousValid(nvalue, d.month, d.day)
    case Era => ResolvePreviousValid(Wrap32(1 - y), d.month, d.day)
    case _ => Err(UnsupportedField(f))
  }

  /** `getYear()`: the year of era, through `get`. */
  function GetYear(d: CopticDate): (r: Result<Int32>)
    requires Valid(d)
    ensures r.Ok? ==> r.value >= 1
  {
    Get(d, YearOfEra)
  }

  /** `getMonthValue()`. */
  function GetMonthValue(d: CopticDate): (r: Result<Int32>)
    requires Valid(d)
    ensures r.Ok? ==> 1 <= r.value <= 13
  {
    Get(d, MonthOfYear)
  }

  /** `getDayOfMonth()`. */
  function GetDayOfMonth(d: CopticDate): (r: Result<Int32>)
    requires Valid(d)
    ensures r.Ok? ==> 1 <= r.value <= LengthOfMonth(d)
  {
    Get(d, DayOfMonth)
  }

  /** `getDayOfYear()`. */
  function GetDayOfYear(d: CopticDate): (r: Result<Int32>)
    requires Valid(d)
    ensures r.Ok? ==> 1 <= r.value <= LengthOfYear(d.prolepticYear)
  {
    Get(d, DayOfYear)
  }

  /** `getDayOfWeek()`, as the ISO day-of-week number 1..7 that
      `DayOfWeek.of` accepts. */
  function GetDayOfWeek(d: CopticDate): (r: Result<Int32>)
    requires Valid(d)
    ensures r.Ok? ==> 1 <= r.value <= 7
  {
    Get(d, DayOfWeek)
  }

  /** `withEra(era)`, given the era's numeric value. */
  function WithEra(d: CopticDate, era: Int32): (r: Result<CopticDate>)
    requires Valid(d)
    ensures r.Ok? ==> Valid(r.value)
    ensures !(0 <= era <= 1) ==> r == Err(InvalidValue(Era, era))
  {
    With(d, Era, era)
  }

  /** `withEra(era)` as evidently intended, following `LocalDate`: asking for
      the era the date is already in leaves it unchanged, and only the other
      era moves the year to `1 - y`. */
  function WithEraIntended(d: CopticDate, era: Int32): (r: Result<CopticDate>)
    requires Valid(d)
    ensures r.Ok? ==> Valid(r.value)
    ensures !(0 <= era <= 1) ==> r == Err(InvalidValue(Era, era))
    ensures era == GetLong(d, Era).value ==> r == Ok(d)
  {
    if era == GetLong(d, Era).value then Ok(d) else With(d, Era, era)
  }

  /** `withYear(year)`: sets the year of era. */
  function WithYear(d: CopticDate, year: Int32): (r: Result<CopticDate>)
    requires Valid(d)
    ensures r.Ok? ==> Valid(r.value)
    ensures year < 1 ==> r == Err(InvalidValue(YearOfEra, year))
  {
    With(d, YearOfEra, year)
  }

  /** `withMonth(month)`. */
  function WithMonth(d: CopticDate, month: Int32): (r: Result<CopticDate>)
    requires Valid(d)
    ensures r.Ok? ==> Valid(r.value) && r.value.month == month
  {
    With(d, MonthOfYear, month)
  }

  /** `withDayOfMonth(dayOfMonth)` as written: it passes the date's month, not
      its argument, to `with(DAY_OF_MONTH, ...)`. */
  function WithDayOfMonth(d: CopticDate, dayOfMonth: Int32): (r: Result<CopticDate>)
    requires Valid(d)
    ensures r.Ok? && r.value.prolepticYear == d.prolepticYear && r.value.month == d.month
    ensures r.Ok? ==> r.value.day == (if d.month == 13 then LengthOfMonth(d) else d.month)
  {
    With(d, DayOfMonth, d.month)
  }

  /** `withDayOfYear(dayOfYear)` as written: it passes the date's month, not
      its argument, to `with(DAY_OF_YEAR, ...)`. */
  function WithDayOfYear(d: CopticDate, dayOfYear: Int32): (r: Result<CopticDate>)
    requires Valid(d)
    ensures r.Ok? && r.value.prolepticYear == d.prolepticYear && DayOfYearOf(r.value) == d.month
  {
    With(d, DayOfYear, d.month)
  }

  /** `withDayOfMonth` as evidently intended: the argument is the new day. */
  function WithDayOfMonthIntended(d: CopticDate, dayOfMonth: Int32): (r: Result<CopticDate>)
    requires Valid(d)
    ensures r.Ok? ==> Valid(r.value) && r.value.prolepticYear == d.prolepticYear && r.value.month == d.month
    ensures 1 <= dayOfMonth <= LengthOfMonth(d) ==> r == Ok(CopticDate(d.prolepticYear, d.month, dayOfMonth))
  {
    With(d, DayOfMonth, dayOfMonth)
  }

  /** `withDayOfYear` as evidently intended: the argument is the new day of
      the year. */
  function WithDayOfYearIntended(d: CopticDate, dayOfYear: Int32): (r: Result<CopticDate>)
    requires Valid(d)
    ensures r.Ok? ==> Valid(r.value) && r.value.prolepticYear == d.prolepticYear
    ensures 1 <= dayOfYear <= LengthOfYear(d.prolepticYear) ==> r.Ok? && DayOfYearOf(r.value) == dayOfYear
  {
    With(d, DayOfYear, dayOfYear)
  }
}
