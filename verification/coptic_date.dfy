/** The Coptic date value: a proleptic year, a month 1..13 and a day, with the
    validating constructor, the month-13 end-of-month clamp, the conversions to
    and from the epoch-day count, and day arithmetic. */
module CopticDates {
  import opened JavaMath
  import opened JavaTime

  /** The distance between the Coptic day count (day 0 is the first day of
      proleptic year 1) and the epoch-day count (day 0 is 1970-01-01 ISO). */
  const EPOCH_DAY_DIFFERENCE: int := 574971 + 40587

  /** The range constants of the Coptic chronology. */
  const MOY_RANGE: ValueRange := ValueRange(1, 13)
  const DOM_RANGE: ValueRange := ValueRange(1, 30)
  const DOM_RANGE_LEAP: ValueRange := ValueRange(1, 6)
  const DOM_RANGE_NONLEAP: ValueRange := ValueRange(1, 5)

  /** An immutable date. Only `Of` builds one that the rest of the code
      accepts (see `Valid`); the month and day fit in a Java `short`. */
  datatype CopticDate = CopticDate(prolepticYear: Int32, month: int, day: int)

  /** The chronology's leap-year rule: `Math.floorMod(prolepticYear, 4) == 3`. */
  predicate IsLeapYear(prolepticYear: int) {
    prolepticYear % 4 == 3
  }

  /** `lengthOfMonth()`: 30 days in months 1..12, 6 or 5 in month 13, so
      month 13 holds what is left of the year after twelve 30-day months. */
  function LengthOfMonth(d: CopticDate): (r: int)
    ensures d.month != 13 ==> r == 30
    ensures d.month == 13 ==> r == LengthOfYear(d.prolepticYear) - 12 * 30
  {
    if d.month == 13 then (if IsLeapYear(d.prolepticYear) then 6 else 5) else 30
  }

  /** `lengthOfYear()`, the ChronoLocalDate default over the leap-year rule. */
  function LengthOfYear(prolepticYear: int): (r: int)
    ensures 365 <= r <= 366
  {
    if IsLeapYear(prolepticYear) then 366 else 365
  }

  /** What the constructor checks; every date the model hands out has it. */
  predicate Valid(d: CopticDate) {
    1 <= d.month <= 13 && 1 <= d.day <= LengthOfMonth(d)
  }

  /** The constructor `CopticDate(int, int, int)`: the month must lie in the
      chronology's month range, then the day in the day range that applies to
      that month (the month-13 range depends on the leap year). */
  function Of(prolepticYear: Int32, month: Int32, dayOfMonth: Int32): (r: Result<CopticDate>)
    ensures r.Ok? <==> Valid(CopticDate(prolepticYear, month, dayOfMonth))
    ensures r.Ok? ==> r.value == CopticDate(prolepticYear, month, dayOfMonth)
    ensures r.Err? && !(1 <= month <= 13) ==> r.error == InvalidValue(MonthOfYear, month)
    ensures r.Err? && 1 <= month <= 13 ==> r.error == InvalidValue(DayOfMonth, dayOfMonth)
  {
    var _ :- CheckValidValue(MOY_RANGE, MonthOfYear, month);
    var range :=
      if month == 13 then (if IsLeapYear(prolepticYear) then DOM_RANGE_LEAP else DOM_RANGE_NONLEAP)
      else DOM_RANGE;
    var _ :- CheckValidValue(range, DayOfMonth, dayOfMonth);
    Ok(CopticDate(prolepticYear, month, dayOfMonth))
  }

  /** `resolvePreviousValid`: a month-13 day beyond 5 is brought down to the
      last day of month 13 of that year, then the constructor validates. So the
      year and month pass through, the day is clamped to the month's length,
      and any other fault is reported exactly as the constructor reports it. */
  function ResolvePreviousValid(prolepticYear: Int32, month: Int32, day: Int32): (r: Result<CopticDate>)
    ensures r.Ok? <==> 1 <= month <= 13 && 1 <= day && (month == 13 || day <= 30)
    ensures r.Ok? ==> Valid(r.value) && r.value.prolepticYear == prolepticYear && r.value.month == month
    ensures r.Ok? ==> r.value.day == (if day <= LengthOfMonth(r.value) then day else LengthOfMonth(r.value))
    ensures r.Err? ==> r == Of(prolepticYear, month, day)
  {
    var day' := if month == 13 && day > 5 then (if IsLeapYear(prolepticYear) then 6 else 5) else day;
    Of(prolepticYear, month, day')
  }

  /** The day of the year, 1-based: what `getDayOfYear()` returns for a valid
      date (see CopticFields.GetDayOfYear). */
  function DayOfYearOf(d: CopticDate): (r: int)
    ensures Valid(d) ==> 1 <= r <= LengthOfYear(d.prolepticYear)
  {
    (d.month - 1) * 30 + d.day
  }

  /** `toEpochDay()`, in `long` arithmetic (which cannot overflow for a year
      that fits in an `int`); `/` here is `Math.floorDiv`. */
  function ToEpochDay(d: CopticDate): (r: Int64)
    requires Valid(d)
  {
    var year := d.prolepticYear as int;
    var copticEpochDay := (year - 1) * 365 + year / 4 + (DayOfYearOf(d) - 1);
    copticEpochDay - EPOCH_DAY_DIFFERENCE
  }

  /** `ofEpochDay(long)`: the year from the 1461-day four-year cycle, then the
      month and day from the zero-based day of that year, each step in the
      source's `long` or `int` arithmetic with Java's truncating division. The
      result goes through the constructor, which rejects what the arithmetic
      gets wrong (below the start of proleptic year 0). */
  function OfEpochDay(epochDay: Int64): (r: Result<CopticDate>)
    ensures r.Ok? ==> Valid(r.value)
  {
    var shifted := Wrap64(epochDay + EPOCH_DAY_DIFFERENCE);
    var prolepticYear := Wrap32(JDiv(Wrap64(Wrap64(shifted * 4) + 1463), 1461));
    var startYearEpochDay := Wrap32(Wrap32(Wrap32(prolepticYear - 1) * 365) + JDiv(prolepticYear, 4));
    var doy0 := Wrap32(Wrap64(shifted - startYearEpochDay));
    Of(prolepticYear, JDiv(doy0, 30) + 1, JMod(doy0, 30) + 1)
  }

  /** `plusDays(long)`: no change for zero, otherwise the date at the epoch day
      `Math.addExact(toEpochDay(), days)`, whose overflow is an error. */
  function PlusDays(d: CopticDate, days: Int64): (r: Result<CopticDate>)
    requires Valid(d)
    ensures days == 0 ==> r == Ok(d)
    ensures days != 0 && !IsInt64(ToEpochDay(d) + days) ==> r == Err(ArithmeticOverflow)
    ensures r.Ok? ==> Valid(r.value)
  {
    if days == 0 then Ok(d)
    else
      var epochDay :- AddExact(ToEpochDay(d), days);
      OfEpochDay(epochDay)
  }
}
