/** The pieces of the java.time framework that the Coptic date relies on:
    the `DateTimeException`/`ArithmeticException` error paths, `ValueRange`,
    the `ChronoField` enumeration with the ISO ranges it checks values against,
    and `Math.addExact`. */
module JavaTime {
  import opened JavaMath

  /** `Year.MIN_VALUE` and `Year.MAX_VALUE`. */
  const YEAR_MIN_VALUE: int := -999_999_999
  const YEAR_MAX_VALUE: int := 999_999_999

  /** A `ValueRange`; `min` and `max` are its smallest minimum and largest
      maximum, the two bounds that `checkValidValue` and `isValidValue` use. */
  datatype ValueRange = ValueRange(min: int, max: int)

  predicate IsValidValue(range: ValueRange, value: int) {
    range.min <= value <= range.max
  }

  /** `ValueRange.isIntValue`: both bounds fit in an `int`. */
  predicate IsIntValue(range: ValueRange) {
    IsInt32(range.min) && IsInt32(range.max)
  }

  /** The `ChronoField` constants. The thirteen date-based ones are listed by
      name; the ChronoFields that are not date-based (NANO_OF_SECOND ..
      OFFSET_SECONDS) are one constructor carrying the field's name and its ISO range. */
  datatype Field =
    | DayOfWeek
    | AlignedDayOfWeekInMonth
    | AlignedDayOfWeekInYear
    | DayOfMonth
    | DayOfYear
    | EpochDay
    | AlignedWeekOfMonth
    | AlignedWeekOfYear
    | MonthOfYear
    | ProlepticMonth
    | YearOfEra
    | Year
    | Era
    | TimeField(name: string, isoRange: ValueRange)

  /** `ChronoField.isDateBased`. */
  predicate IsDateBased(f: Field) {
    !f.TimeField?
  }

  /** `ChronoField.range()`: the ISO range of each field, as the JDK 8 enum
      declares it (its largest maximum where there are two). */
  function IsoRange(f: Field): ValueRange {
    match f
    case DayOfWeek => ValueRange(1, 7)
    case AlignedDayOfWeekInMonth => ValueRange(1, 7)
    case AlignedDayOfWeekInYear => ValueRange(1, 7)
    case DayOfMonth => ValueRange(1, 31)
    case DayOfYear => ValueRange(1, 366)
    case EpochDay => ValueRange(-365_249_999_634, 365_249_999_634)
    case AlignedWeekOfMonth => ValueRange(1, 5)
    case AlignedWeekOfYear => ValueRange(1, 53)
    case MonthOfYear => ValueRange(1, 12)
    case ProlepticMonth => ValueRange(YEAR_MIN_VALUE * 12, YEAR_MAX_VALUE * 12 + 11)
    case YearOfEra => ValueRange(1, YEAR_MAX_VALUE + 1)
    case Year => ValueRange(YEAR_MIN_VALUE, YEAR_MAX_VALUE)
    case Era => ValueRange(0, 1)
    case TimeField(_, range) => range
  }

  /** The exceptions the date code raises. */
  datatype Error =
    | InvalidValue(field: Field, value: int)   // DateTimeException "Invalid value for <field> ..."
    | UnsupportedField(field: Field)           // DateTimeException "Unsupported field: <field>"
    | InvalidFieldForGet(field: Field)         // UnsupportedTemporalTypeException from `get`
    | ArithmeticOverflow                       // ArithmeticException from Math.addExact

  /** A value, or the exception thrown instead of returning one. */
  datatype Result<+T> = Ok(value: T) | Err(error: Error) {
    predicate IsFailure() { Err? }

    function PropagateFailure<U>(): Result<U>
      requires Err?
    {
      Err(error)
    }

    function Extract(): T
      requires Ok?
    {
      value
    }
  }

  /** `ValueRange.checkValidValue(value, field)`. */
  function CheckValidValue(range: ValueRange, f: Field, value: int): (r: Result<int>)
    ensures r.Ok? <==> IsValidValue(range, value)
    ensures r.Ok? ==> r.value == value
    ensures r.Err? ==> r.error == InvalidValue(f, value)
  {
    if IsValidValue(range, value) then Ok(value) else Err(InvalidValue(f, value))
  }

  /** `Math.addExact(long, long)`. */
  function AddExact(a: Int64, b: Int64): (r: Result<Int64>)
    ensures r.Ok? <==> IsInt64(a + b)
    ensures r.Ok? ==> r.value == a + b
    ensures r.Err? ==> r.error == ArithmeticOverflow
  {
    if IsInt64(a + b) then Ok(a + b) else Err(ArithmeticOverflow)
  }
}
