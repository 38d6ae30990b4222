/** What the epoch-day conversion promises: years start where the four-year
    cycle says, `OfEpochDay` and `ToEpochDay` are inverse to each other from
    the start of proleptic year 0 upwards, `ToEpochDay` preserves the order of
    dates, and day arithmetic moves the epoch day by exactly the days added. */
module CopticEpochProofs {
  import opened JavaMath
  import opened JavaTime
  import opened CopticDates

  /** The largest year of the domain on which the round trips are stated;
      every intermediate of `OfEpochDay` fits in an `int` well below it. */
  const MAX_SUPPORTED_YEAR: int := 1_000_000

  /** The Coptic day number (day 0 = the first day of proleptic year 1) of the
      first day of a proleptic year, with floor division. */
  function StartOfYear(prolepticYear: int): int {
    (prolepticYear - 1) * 365 + prolepticYear / 4
  }

  /** The epoch days that fall in proleptic years 0 .. MAX_SUPPORTED_YEAR. */
  predicate InSupportedEpochRange(epochDay: int) {
    StartOfYear(0) <= epochDay + EPOCH_DAY_DIFFERENCE < StartOfYear(MAX_SUPPORTED_YEAR + 1)
  }

  /** Consecutive year starts are one year length apart: 366 days exactly
      when the year is a leap year, and the extra day is month 13's sixth. */
  lemma {:induction false} StartOfYearSpacing(prolepticYear: Int32)
    ensures StartOfYear(prolepticYear + 1) - StartOfYear(prolepticYear)
            == (if prolepticYear % 4 == 3 then 366 else 365)
    ensures StartOfYear(prolepticYear + 1) - StartOfYear(prolepticYear)
            == 12 * 30 + LengthOfMonth(CopticDate(prolepticYear, 13, 1))
  {
    var k, r := prolepticYear / 4, prolepticYear % 4;
    assert prolepticYear == 4 * k + r;
    assert (prolepticYear + 1) / 4 == if r == 3 then k + 1 else k;
  }

  /** The leap rule repeats every four years, and exactly one year of any
      four consecutive ones is a leap year. */
  lemma LeapYearEveryFourthYear(prolepticYear: int)
    ensures IsLeapYear(prolepticYear) <==> IsLeapYear(prolepticYear + 4)
    ensures IsLeapYear(prolepticYear) ==>
              !IsLeapYear(prolepticYear + 1) && !IsLeapYear(prolepticYear + 2) && !IsLeapYear(prolepticYear + 3)
    ensures IsLeapYear(prolepticYear) || IsLeapYear(prolepticYear + 1)
            || IsLeapYear(prolepticYear + 2) || IsLeapYear(prolepticYear + 3)
  {
  }

  lemma {:induction false} StartOfYearMonotone(a: int, b: int)
    requires a <= b
    ensures StartOfYear(a) <= StartOfYear(b)
  {
    assert a / 4 <= b / 4 by {
      assert 4 * (a / 4) <= a < 4 * (a / 4) + 4;
      assert 4 * (b / 4) <= b < 4 * (b / 4) + 4;
    }
  }

  /** The days of the proleptic years `first` .. `last - 1`, counted year by
      year: an independent reading of the calendar's year layout. */
  function DaysInYears(first: int, last: int): (r: int)
    requires first <= last
    ensures 365 * (last - first) <= r <= 366 * (last - first)
    decreases last - first
  {
    if first == last then 0 else DaysInYears(first, last - 1) + LengthOfYear(last - 1)
  }

  /** The closed formula for the start of a year agrees with counting the
      year lengths one by one, for every span of `int` years. */
  lemma {:induction false} StartOfYearCountsYearLengths(first: Int32, last: Int32)
    requires first <= last
    ensures StartOfYear(last) - StartOfYear(first) == DaysInYears(first, last)
    decreases (last as int) - (first as int)
  {
    if first < last {
      StartOfYearCountsYearLengths(first, last - 1);
      StartOfYearSpacing(last - 1);
    }
  }

  /** The year formula of `ofEpochDay`, read with floor division, picks the
      year whose days contain the given Coptic day number. */
  lemma {:induction false} YearFormulaBrackets(s: int)
    ensures StartOfYear((4 * s + 1463) / 1461) <= s < StartOfYear((4 * s + 1463) / 1461 + 1)
  {
    var y := (4 * s + 1463) / 1461;
    assert 1461 * y <= 4 * s + 1463 < 1461 * y + 1461;
    var k, r := y / 4, y % 4;
    assert y == 4 * k + r;
    assert StartOfYear(y) == 1461 * k + 365 * r - 365;
    assert StartOfYear(y + 1) == if r == 3 then 1461 * k + 1096 else 1461 * k + 365 * r;
  }

  /** That year is the only one whose days contain the day number. */
  lemma {:induction false} YearFormulaUnique(s: int, prolepticYear: int)
    requires StartOfYear(prolepticYear) <= s < StartOfYear(prolepticYear + 1)
    ensures (4 * s + 1463) / 1461 == prolepticYear
  {
    var q := (4 * s + 1463) / 1461;
    YearFormulaBrackets(s);
    if q < prolepticYear {
      StartOfYearMonotone(q + 1, prolepticYear);
    } else if q > prolepticYear {
      StartOfYearMonotone(prolepticYear + 1, q);
    }
  }

  /** A zero-based day of a year splits into a valid month and day. */
  lemma {:induction false} DayOfYearSplits(prolepticYear: Int32, doy0: int)
    requires 0 <= doy0 < LengthOfYear(prolepticYear)
    ensures Of(prolepticYear, doy0 / 30 + 1, doy0 % 30 + 1)
            == Ok(CopticDate(prolepticYear, doy0 / 30 + 1, doy0 % 30 + 1))
    ensures DayOfYearOf(CopticDate(prolepticYear, doy0 / 30 + 1, doy0 % 30 + 1)) == doy0 + 1
  {
    var m, dom := doy0 / 30 + 1, doy0 % 30 + 1;
    assert doy0 == 30 * (m - 1) + (dom - 1);
    if doy0 >= 360 {
      assert m == 13 && dom == doy0 - 359;
    }
    assert Valid(CopticDate(prolepticYear, m, dom));
  }

  /** On the supported range no step of `OfEpochDay` overflows or truncates
      a negative quotient: it is the floor-division computation. */
  lemma {:induction false} OfEpochDayExact(epochDay: Int64)
    requires InSupportedEpochRange(epochDay)
    ensures var s := epochDay + EPOCH_DAY_DIFFERENCE;
            var y := (4 * s + 1463) / 1461;
            && 0 <= y <= MAX_SUPPORTED_YEAR
            && StartOfYear(y) <= s < StartOfYear(y + 1)
            && OfEpochDay(epochDay)
               == Of(y, (s - StartOfYear(y)) / 30 + 1, (s - StartOfYear(y)) % 30 + 1)
  {
    var s := epochDay + EPOCH_DAY_DIFFERENCE;
    var y := (4 * s + 1463) / 1461;
    YearFormulaBrackets(s);
    assert 0 <= y by {
      assert 4 * s + 1463 >= 3;
    }
    assert y <= MAX_SUPPORTED_YEAR by {
      if y > MAX_SUPPORTED_YEAR {
        StartOfYearMonotone(MAX_SUPPORTED_YEAR + 1, y);
      }
    }
    YearStepExact(epochDay);
    YearStartFitsInInt(y);
    OfEpochDaySteps(epochDay);
  }

  /** `OfEpochDay` unfolded once, in the let-form whose subterms the step
      lemmas `YearStepExact` and `YearStartFitsInInt` name. */
  lemma OfEpochDaySteps(epochDay: Int64)
    ensures OfEpochDay(epochDay) ==
              var shifted := Wrap64(epochDay + EPOCH_DAY_DIFFERENCE);
              var prolepticYear := Wrap32(JDiv(Wrap64(Wrap64(shifted * 4) + 1463), 1461));
              var startYearEpochDay := Wrap32(Wrap32(Wrap32(prolepticYear - 1) * 365) + JDiv(prolepticYear, 4));
              var doy0 := Wrap32(Wrap64(shifted - startYearEpochDay));
              Of(prolepticYear, JDiv(doy0, 30) + 1, JMod(doy0, 30) + 1)
  {
  }

  /** The `long` steps of `OfEpochDay` up to the year do not overflow on the
      supported range, and the year quotient fits in an `int`. */
  lemma {:induction false} YearStepExact(epochDay: Int64)
    requires InSupportedEpochRange(epochDay)
    ensures Wrap64(epochDay + EPOCH_DAY_DIFFERENCE) == epochDay + EPOCH_DAY_DIFFERENCE
    ensures Wrap32(JDiv(Wrap64(Wrap64(Wrap64(epochDay + EPOCH_DAY_DIFFERENCE) * 4) + 1463), 1461))
            == (4 * (epochDay + EPOCH_DAY_DIFFERENCE) + 1463) / 1461
  {
    var s := epochDay + EPOCH_DAY_DIFFERENCE;
    assert StartOfYear(MAX_SUPPORTED_YEAR + 1) == 365_250_000;
    assert Wrap64(s) == s;
    assert Wrap64(Wrap64(s * 4) + 1463) == 4 * s + 1463;
    YearFitsInInt(4 * s + 1463);
  }

  /** The year quotient of `OfEpochDay` fits in an `int` for a non-negative
      dividend below the bound of the supported range. */
  lemma {:induction false} YearFitsInInt(x: int)
    requires 0 <= x <= 4 * 365_250_000 + 1463
    ensures Wrap32(JDiv(x, 1461)) == x / 1461
  {
  }

  /** The `int` computation of the first day of a year does not overflow on
      the supported years. */
  lemma {:induction false} YearStartFitsInInt(y: int)
    requires 0 <= y <= MAX_SUPPORTED_YEAR
    ensures Wrap32(Wrap32(Wrap32(y - 1) * 365) + JDiv(y, 4)) == StartOfYear(y)
  {
  }

  /** Epoch day to date and back: on the supported range `OfEpochDay` never
      fails, lands in years 0 .. MAX_SUPPORTED_YEAR, and `ToEpochDay` undoes it. */
  lemma {:induction false} OfEpochDayRoundTrip(epochDay: Int64)
    requires InSupportedEpochRange(epochDay)
    ensures OfEpochDay(epochDay).Ok?
    ensures 0 <= OfEpochDay(epochDay).value.prolepticYear <= MAX_SUPPORTED_YEAR
    ensures ToEpochDay(OfEpochDay(epochDay).value) == epochDay
  {
    var s := epochDay + EPOCH_DAY_DIFFERENCE;
    var y := (4 * s + 1463) / 1461;
    OfEpochDayExact(epochDay);
    StartOfYearSpacing(y);
    DayOfYearSplits(y, s - StartOfYear(y));
  }

  /** Date to epoch day and back: every valid date of years
      0 .. MAX_SUPPORTED_YEAR maps into the supported range and comes back
      unchanged. */
  lemma {:induction false} ToEpochDayRoundTrip(d: CopticDate)
    requires Valid(d) && 0 <= d.prolepticYear <= MAX_SUPPORTED_YEAR
    ensures InSupportedEpochRange(ToEpochDay(d))
    ensures OfEpochDay(ToEpochDay(d)) == Ok(d)
  {
    ToEpochDayWithinYear(d);
    OfEpochDayRoundTrip(ToEpochDay(d));
    ToEpochDayInjective(OfEpochDay(ToEpochDay(d)).value, d);
  }

  /** The day number of a valid date lies within its year, so in the
      supported range when the year does. */
  lemma {:induction false} ToEpochDayWithinYear(d: CopticDate)
    requires Valid(d)
    ensures var s := ToEpochDay(d) + EPOCH_DAY_DIFFERENCE;
            && s == StartOfYear(d.prolepticYear) + DayOfYearOf(d) - 1
            && StartOfYear(d.prolepticYear) <= s < StartOfYear(d.prolepticYear + 1)
    ensures 0 <= d.prolepticYear <= MAX_SUPPORTED_YEAR ==> InSupportedEpochRange(ToEpochDay(d))
  {
    var y := d.prolepticYear;
    StartOfYearSpacing(y);
    if 0 <= y <= MAX_SUPPORTED_YEAR {
      StartOfYearMonotone(0, y);
      StartOfYearMonotone(y + 1, MAX_SUPPORTED_YEAR + 1);
    }
  }

  /** The zero-based day of the year of a valid date splits back into its
      month and day. */
  lemma {:induction false} MonthAndDaySplit(d: CopticDate)
    requires Valid(d)
    ensures (DayOfYearOf(d) - 1) / 30 + 1 == d.month
    ensures (DayOfYearOf(d) - 1) % 30 + 1 == d.day
  {
    assert DayOfYearOf(d) - 1 == 30 * (d.month - 1) + (d.day - 1);
  }

  /** Below year 0 the truncating division breaks the round trip: the day
      before the start of year 0 is month 13, day 6 of the leap year -1, but
      `OfEpochDay` computes day 0 of month 1 of year 0, which the constructor
      rejects. */
  lemma OfEpochDayBreaksBelowYearZero()
    ensures Valid(CopticDate(-1, 13, 6))
    ensures ToEpochDay(CopticDate(-1, 13, 6)) == -366 - EPOCH_DAY_DIFFERENCE
    ensures OfEpochDay(-366 - EPOCH_DAY_DIFFERENCE) == Err(InvalidValue(DayOfMonth, 0))
  {
  }

  /** Epoch day 0, 1970-01-01 ISO, is 23 of month 4 of the year 1686, both
      ways. */
  lemma EpochDayZero()
    ensures OfEpochDay(0) == Ok(CopticDate(1686, 4, 23))
    ensures ToEpochDay(CopticDate(1686, 4, 23)) == 0
  {
    ToEpochDayRoundTrip(CopticDate(1686, 4, 23));
  }

  /** Strictly earlier (year, month, day) triple. */
  predicate Before(d1: CopticDate, d2: CopticDate) {
    || d1.prolepticYear < d2.prolepticYear
    || (d1.prolepticYear == d2.prolepticYear && d1.month < d2.month)
    || (d1.prolepticYear == d2.prolepticYear && d1.month == d2.month && d1.day < d2.day)
  }

  /** `ToEpochDay` preserves the calendar order on every valid date, in every
      year an `int` holds, and so never maps two dates to the same day. */
  lemma {:induction false} ToEpochDayOrdered(d1: CopticDate, d2: CopticDate)
    requires Valid(d1) && Valid(d2) && Before(d1, d2)
    ensures ToEpochDay(d1) < ToEpochDay(d2)
  {
    var y1, y2 := d1.prolepticYear, d2.prolepticYear;
    if y1 < y2 {
      StartOfYearSpacing(y1);
      StartOfYearMonotone(y1 + 1, y2);
      assert DayOfYearOf(d1) <= LengthOfYear(y1);
      assert ToEpochDay(d1) < StartOfYear(y1 + 1) - EPOCH_DAY_DIFFERENCE;
      assert StartOfYear(y2) - EPOCH_DAY_DIFFERENCE <= ToEpochDay(d2);
    }
  }

  /** `PlusDays` moves the epoch day by exactly the number of days added,
      whenever the target lies in the supported range. */
  lemma {:induction false} PlusDaysMovesEpochDay(d: CopticDate, days: Int64)
    requires Valid(d) && InSupportedEpochRange(ToEpochDay(d) + days)
    ensures PlusDays(d, days).Ok?
    ensures ToEpochDay(PlusDays(d, days).value) == ToEpochDay(d) + days
  {
    if days != 0 {
      OfEpochDayRoundTrip(ToEpochDay(d) + days);
    }
  }

  /** So `PlusDays` lands on the one valid date whose epoch day is the target. */
  lemma {:induction false} PlusDaysLandsOn(d: CopticDate, days: Int64, target: CopticDate)
    requires Valid(d) && Valid(target) && InSupportedEpochRange(ToEpochDay(d) + days)
    requires ToEpochDay(target) == ToEpochDay(d) + days
    ensures PlusDays(d, days) == Ok(target)
  {
    PlusDaysMovesEpochDay(d, days);
    ToEpochDayInjective(PlusDays(d, days).value, target);
  }

  /** Adding days in two steps is adding their sum in one, while every date
      involved stays in the supported range. */
  lemma {:induction false} PlusDaysComposes(d: CopticDate, a: Int64, b: Int64)
    requires Valid(d) && IsInt64(a + b)
    requires InSupportedEpochRange(ToEpochDay(d) + a) && InSupportedEpochRange(ToEpochDay(d) + a + b)
    ensures PlusDays(d, a).Ok?
    ensures PlusDays(PlusDays(d, a).value, b) == PlusDays(d, a + b)
  {
    PlusDaysMovesEpochDay(d, a);
    var m := PlusDays(d, a).value;
    PlusDaysMovesEpochDay(m, b);
    PlusDaysMovesEpochDay(d, a + b);
    ToEpochDayInjective(PlusDays(m, b).value, PlusDays(d, a + b).value);
  }

  /** Going back one day from the first day of a year lands on the last day
      of month 13 of the year before: day 6 in a leap year, day 5 otherwise. */
  lemma {:induction false} PlusDaysCrossesYearBackwards(d: CopticDate)
    requires Valid(d) && d.month == 1 && d.day == 1 && 1 <= d.prolepticYear <= MAX_SUPPORTED_YEAR
    ensures PlusDays(d, -1)
            == Ok(CopticDate(d.prolepticYear - 1, 13, if IsLeapYear(d.prolepticYear - 1) then 6 else 5))
  {
    var y := d.prolepticYear - 1;
    var last := CopticDate(y, 13, if IsLeapYear(y) then 6 else 5);
    LastDayPrecedesNewYear(d);
    PlusDaysLandsOn(d, -1, last);
  }

  /** From the first day of year 0 one day back fails: it lands on the epoch
      day that `OfEpochDayBreaksBelowYearZero` shows `ofEpochDay` rejecting. */
  lemma PlusDaysFailsBackFromYearZero()
    ensures Valid(CopticDate(0, 1, 1))
    ensures PlusDays(CopticDate(0, 1, 1), -1) == Err(InvalidValue(DayOfMonth, 0))
  {
    assert ToEpochDay(CopticDate(0, 1, 1)) - 1 == -366 - EPOCH_DAY_DIFFERENCE;
    OfEpochDayBreaksBelowYearZero();
  }

  /** The last day of a year is the day before the first day of the next. */
  lemma {:induction false} LastDayPrecedesNewYear(d: CopticDate)
    requires Valid(d) && d.month == 1 && d.day == 1 && 1 <= d.prolepticYear <= MAX_SUPPORTED_YEAR
    ensures var last := CopticDate(d.prolepticYear - 1, 13, if IsLeapYear(d.prolepticYear - 1) then 6 else 5);
            && Valid(last) && ToEpochDay(last) == ToEpochDay(d) - 1
            && InSupportedEpochRange(ToEpochDay(d) - 1)
  {
    var y := d.prolepticYear - 1;
    var last := CopticDate(y, 13, if IsLeapYear(y) then 6 else 5);
    StartOfYearSpacing(y);
    assert LengthOfMonth(last) == LengthOfMonth(CopticDate(y, 13, 1));
    assert ToEpochDay(last) + EPOCH_DAY_DIFFERENCE == StartOfYear(y) + 12 * 30 + LengthOfMonth(last) - 1;
    assert ToEpochDay(d) + EPOCH_DAY_DIFFERENCE == StartOfYear(y + 1);
    ToEpochDayWithinYear(last);
  }

  /** Two valid dates with the same epoch day are the same date. */
  lemma {:induction false} ToEpochDayInjective(d1: CopticDate, d2: CopticDate)
    requires Valid(d1) && Valid(d2) && ToEpochDay(d1) == ToEpochDay(d2)
    ensures d1 == d2
  {
    if Before(d1, d2) {
      ToEpochDayOrdered(d1, d2);
    } else if Before(d2, d1) {
      ToEpochDayOrdered(d2, d1);
    }
  }
}
