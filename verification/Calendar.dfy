// Timestamps: the closed-form Gregorian conversion used by the log lines, checked against a calendar that
// counts day by day.
module Calendar {
  import opened Text

  datatype Date = Date(year: int, month: int, day: int)

  // ----- The calendar, one day at a time -----

  predicate IsLeapYear(year: int) {
    year % 4 == 0 && (year % 100 != 0 || year % 400 == 0)
  }

  function DaysInMonth(year: int, month: int): int {
    if month == 2 then (if IsLeapYear(year) then 29 else 28)
    else if month == 4 || month == 6 || month == 9 || month == 11 then 30
    else 31
  }

  predicate ValidDate(date: Date) {
    1 <= date.month <= 12 && 1 <= date.day <= DaysInMonth(date.year, date.month)
  }

  function NextDay(date: Date): Date {
    if date.day < DaysInMonth(date.year, date.month) then date.(day := date.day + 1)
    else if date.month < 12 then Date(date.year, date.month + 1, 1)
    else Date(date.year + 1, 1, 1)
  }

  function PreviousDay(date: Date): Date {
    if date.day > 1 then date.(day := date.day - 1)
    else if date.month > 1 then Date(date.year, date.month - 1, DaysInMonth(date.year, date.month - 1))
    else Date(date.year - 1, 12, 31)
  }

  const EPOCH := Date(1970, 1, 1)

  /** The date a number of days after the epoch, or before it, found by counting. */
  function CalendarDate(days: int): Date
    decreases if days >= 0 then days else -days
  {
    if days == 0 then EPOCH
    else if days > 0 then NextDay(CalendarDate(days - 1))
    else PreviousDay(CalendarDate(days + 1))
  }

  // ----- The closed form -----

  // From 1 March of year 0 to the epoch; 146_097 days make an era of 400 years.
  const DAYS_TO_EPOCH := 719_468

  /** Integer division that truncates toward zero, for a positive divisor. */
  function TruncatedDiv(a: int, b: int): int
    requires b > 0
  {
    if a >= 0 then a / b else -((-a) / b)
  }

  function YearOfEra(doe: int): int {
    (doe - doe / 1_460 + doe / 36_524 - doe / 146_096) / 365
  }

  /** Days of an era before its given year. */
  function DaysBefore(yoe: int): int {
    365 * yoe + yoe / 4 - yoe / 100
  }

  /** The conversion before the year is narrowed to 32 bits. */
  function WideCivilFromDays(days: int): Date {
    var z := days + DAYS_TO_EPOCH;
    var era := TruncatedDiv(if z >= 0 then z else z - 146_096, 146_097);
    var doe := z - era * 146_097;
    var yoe := YearOfEra(doe);
    var doy := doe - DaysBefore(yoe);
    var mp := (5 * doy + 2) / 153;
    var day := doy - (153 * mp + 2) / 5 + 1;
    var month := mp + (if mp < 10 then 3 else -9);
    Date(yoe + era * 400 + (if month <= 2 then 1 else 0), month, day)
  }

  const TWO_TO_32 := 0x1_0000_0000

  predicate FitsI32(n: int) {
    -0x8000_0000 <= n < 0x8000_0000
  }

  /** The 32-bit cast keeps the low bits. */
  function AsI32(n: int): (r: int)
    ensures FitsI32(r) && (r - n) % TWO_TO_32 == 0
  {
    var low := n % TWO_TO_32;
    if low < 0x8000_0000 then low else low - TWO_TO_32
  }

  function CivilFromDays(days: int): Date {
    var date := WideCivilFromDays(days);
    date.(year := AsI32(date.year))
  }

  // ----- Years counted from March -----

  /** Days from 1 March of year 0 to 1 March of the given year. */
  function YearStart(year: int): int {
    365 * year + year / 4 - year / 100 + year / 400
  }

  /** Days from 1 March to the first of the month; month 0 is March, month 11 is February. */
  function MonthStart(month: int): int {
    (153 * month + 2) / 5
  }

  function MarchYear(date: Date): int {
    if date.month <= 2 then date.year - 1 else date.year
  }

  function MarchMonth(date: Date): int {
    if date.month <= 2 then date.month + 9 else date.month - 3
  }

  function DayOfYear(date: Date): int {
    MonthStart(MarchMonth(date)) + date.day - 1
  }

  /** The inverse conversion. */
  function DaysFromCivil(date: Date): int {
    YearStart(MarchYear(date)) + DayOfYear(date) - DAYS_TO_EPOCH
  }

  lemma YearLength(year: int)
    ensures YearStart(year + 1) - YearStart(year) == if IsLeapYear(year + 1) then 366 else 365
  {
    NextQuotient(year, 4);
    NextQuotient(year, 100);
    NextQuotient(year, 400);
  }

  lemma NextQuotient(n: int, d: int)
    requires d == 4 || d == 100 || d == 400
    ensures (n + 1) / d - n / d == if (n + 1) % d == 0 then 1 else 0
  {
  }

  lemma {:induction false} YearStartIncreases(a: int, b: int)
    requires a < b
    ensures YearStart(a + 1) <= YearStart(b)
    decreases b - a
  {
    if a + 1 < b {
      YearStartIncreases(a, b - 1);
      YearLength(b - 1);
    }
  }

  /** Eras of 400 years repeat. */
  lemma YearStartInEra(era: int, yoe: int)
    requires 0 <= yoe < 400
    ensures YearStart(era * 400 + yoe) == era * 146_097 + DaysBefore(yoe)
  {
    assert (era * 400 + yoe) / 4 == era * 100 + yoe / 4;
    assert (era * 400 + yoe) / 100 == era * 4 + yoe / 100;
    assert (era * 400 + yoe) / 400 == era;
  }

  // ----- The year within an era -----

  /**
   * A day of an era is century * 36524 + cycle * 1461 + rest; the nested divisions find its year because the
   * corrections they apply are exactly the leap days before it.
   */
  lemma YearOfEraByParts(century: int, cycle: int, rest: int)
    requires (0 <= century <= 3 && 0 <= cycle <= 24 && 0 <= rest <= 1460) || (century == 4 && cycle == rest == 0)
    requires cycle == 24 && century <= 3 ==> rest <= 1459
    ensures YearOfEra(36_524 * century + 1_461 * cycle + rest) ==
            if century == 4 then 399 else 100 * century + 4 * cycle + (if rest == 1460 then 3 else rest / 365)
  {
    var doe := 36_524 * century + 1_461 * cycle + rest;
    var late := if 24 * century + cycle + rest >= 1_460 then 1 else 0;
    assert doe / 1_460 == 25 * century + cycle + late by {
      assert doe == 1_460 * (25 * century + cycle) + (24 * century + cycle + rest);
    }
    assert doe / 36_524 == century by {
      assert 0 <= 1_461 * cycle + rest < 36_524;
    }
    assert doe / 146_096 == if century == 4 then 1 else 0;
  }

  /** A day of an era by century, four-year cycle and rest; the last day of all is a century of its own. */
  lemma DayOfEraParts(doe: int) returns (century: int, cycle: int, rest: int)
    requires 0 <= doe < 146_097
    ensures doe == 36_524 * century + 1_461 * cycle + rest
    ensures (0 <= century <= 3 && 0 <= cycle <= 24 && 0 <= rest <= 1460) || (century == 4 && cycle == rest == 0)
    ensures cycle == 24 && century <= 3 ==> rest <= 1459
  {
    century := doe / 36_524;
    cycle, rest := (doe - 36_524 * century) / 1_461, (doe - 36_524 * century) % 1_461;
  }

  lemma CycleEndsInLeapYear(century: int, cycle: int)
    requires 0 <= century <= 3 && 0 <= cycle <= 23
    ensures IsLeapYear(100 * century + 4 * (cycle + 1))
  {
    var rest := 4 * (cycle + 1);
    assert (100 * century + rest) % 100 == rest;
  }

  lemma DaysBeforeParts(century: int, cycle: int, year: int)
    requires 0 <= century <= 3 && 0 <= cycle <= 24 && 0 <= year <= 3
    ensures DaysBefore(100 * century + 4 * cycle + year) == 36_524 * century + 1_461 * cycle + 365 * year
  {
    var yoe := 100 * century + 4 * cycle + year;
    assert yoe / 4 == 25 * century + cycle && yoe / 100 == century;
  }

  lemma YearHoldsRest(century: int, cycle: int, rest: int, year: int)
    requires 0 <= century <= 3 && 0 <= cycle <= 24 && 0 <= rest <= 1460 && (cycle == 24 ==> rest <= 1459)
    requires year == if rest == 1_460 then 3 else rest / 365
    ensures 0 <= year <= 3 && 0 <= rest - 365 * year <= 365
    ensures rest - 365 * year == 365 ==> year == 3 && cycle <= 23
  {
  }

  /** The closed form finds the year of the era: the day falls within that year. */
  lemma YearOfEraIsTheYear(doe: int)
    requires 0 <= doe < 146_097
    ensures var yoe := YearOfEra(doe);
            var doy := doe - DaysBefore(yoe);
            && 0 <= yoe < 400
            && 0 <= doy <= 365
            && (doy == 365 ==> IsLeapYear(yoe + 1))
  {
    hide YearOfEra, DaysBefore, IsLeapYear;
    var century, cycle, rest := DayOfEraParts(doe);
    YearOfEraByParts(century, cycle, rest);
    if century < 4 {
      var year := if rest == 1_460 then 3 else rest / 365;
      YearHoldsRest(century, cycle, rest, year);
      DaysBeforeParts(century, cycle, year);
      if rest - 365 * year == 365 {
        CycleEndsInLeapYear(century, cycle);
        assert 100 * century + 4 * cycle + year + 1 == 100 * century + 4 * (cycle + 1);
      }
    } else {
      LastDayOfEra();
    }
  }

  lemma LastDayOfEra()
    ensures DaysBefore(399) == 145_731 && IsLeapYear(400)
  {
  }

  /** The month formula finds the month of a year counted from March. */
  lemma MonthOfYear(doy: int)
    requires 0 <= doy <= 365
    ensures var mp := (5 * doy + 2) / 153;
            var day := doy - MonthStart(mp) + 1;
            && 0 <= mp <= 11
            && 1 <= day
            && (mp < 11 ==> doy < MonthStart(mp + 1))
            && MonthStart(11) == 337
  {
  }

  /** Every month but February has the length the month formula gives it. */
  lemma MonthLength(year: int, mp: int)
    requires 0 <= mp < 11
    ensures MonthStart(mp + 1) - MonthStart(mp) == DaysInMonth(year, if mp < 10 then mp + 3 else mp - 9)
  {
  }

  /** The date on a day of a year counted from March. */
  function MarchDate(marchYear: int, doy: int): Date {
    var mp := (5 * doy + 2) / 153;
    var month := mp + (if mp < 10 then 3 else -9);
    Date(marchYear + (if month <= 2 then 1 else 0), month, doy - MonthStart(mp) + 1)
  }

  /** It is a real date, that many days after the year's start. */
  lemma MarchDateIsReal(marchYear: int, doy: int)
    requires 0 <= doy <= 365 && (doy == 365 ==> IsLeapYear(marchYear + 1))
    ensures var date := MarchDate(marchYear, doy);
            ValidDate(date) && MarchYear(date) == marchYear && DayOfYear(date) == doy
  {
    var mp := (5 * doy + 2) / 153;
    MonthOfYear(doy);
    if mp < 11 {
      MonthLength(marchYear + (if mp < 10 then 0 else 1), mp);
    }
  }

  function EraOf(z: int): int {
    TruncatedDiv(if z >= 0 then z else z - 146_096, 146_097)
  }

  lemma WideCivilIsMarchDate(days: int)
    ensures var z := days + DAYS_TO_EPOCH;
            var doe := z - EraOf(z) * 146_097;
            var yoe := YearOfEra(doe);
            WideCivilFromDays(days) == MarchDate(EraOf(z) * 400 + yoe, doe - DaysBefore(yoe))
  {
    hide YearOfEra, TruncatedDiv, DaysBefore;
  }

  /** The intermediate results of the closed form. */
  lemma ClosedFormParts(days: int) returns (era: int, yoe: int, doy: int)
    ensures days + DAYS_TO_EPOCH == era * 146_097 + DaysBefore(yoe) + doy
    ensures 0 <= yoe < 400 && 0 <= doy <= 365 && (doy == 365 ==> IsLeapYear(yoe + 1))
    ensures WideCivilFromDays(days) == MarchDate(era * 400 + yoe, doy)
  {
    hide EraOf, YearOfEra, IsLeapYear, WideCivilFromDays, MarchDate, DaysBefore;
    var z := days + DAYS_TO_EPOCH;
    era := EraOf(z);
    var doe := z - era * 146_097;
    yoe := YearOfEra(doe);
    doy := doe - DaysBefore(yoe);
    EraIsFloor(z);
    WideCivilIsMarchDate(days);
    YearOfEraIsTheYear(doe);
  }

  /** The closed form yields a real date, and the inverse conversion takes it back. */
  lemma WideCivilIsInverted(days: int)
    ensures ValidDate(WideCivilFromDays(days))
    ensures DaysFromCivil(WideCivilFromDays(days)) == days
  {
    hide WideCivilFromDays, MarchDate, YearStart, ValidDate, IsLeapYear, DayOfYear, MarchYear, DaysBefore;
    var era, yoe, doy := ClosedFormParts(days);
    LeapRepeats(era, yoe + 1);
    YearStartInEra(era, yoe);
    var year := era * 400 + yoe;
    assert era * 400 + (yoe + 1) == year + 1;
    MarchDateIsReal(year, doy);
  }

  /** Shifting negative days before truncating gives the era they fall in. */
  lemma EraIsFloor(z: int)
    ensures 0 <= z - EraOf(z) * 146_097 < 146_097
  {
  }

  lemma LeapRepeats(era: int, year: int)
    ensures IsLeapYear(era * 400 + year) == IsLeapYear(year)
  {
    RemainderRepeats(era * 100, era * 4, era, year);
  }

  lemma RemainderRepeats(a: int, b: int, c: int, n: int)
    ensures (4 * a + n) % 4 == n % 4 && (100 * b + n) % 100 == n % 100 && (400 * c + n) % 400 == n % 400
  {
    FourRepeats(a, n);
    HundredRepeats(b, n);
    FourHundredRepeats(c, n);
  }

  lemma FourRepeats(a: int, n: int)
    ensures (4 * a + n) % 4 == n % 4
  {
    assert 4 * a + n == 4 * (a + n / 4) + n % 4;
  }

  lemma HundredRepeats(b: int, n: int)
    ensures (100 * b + n) % 100 == n % 100
  {
    assert 100 * b + n == 100 * (b + n / 100) + n % 100;
  }

  lemma FourHundredRepeats(c: int, n: int)
    ensures (400 * c + n) % 400 == n % 400
  {
    assert 400 * c + n == 400 * (c + n / 400) + n % 400;
  }

  // ----- The two calendars agree -----

  /** The inverse conversion grows by one from day to day. */
  lemma DaysFromNextDay(date: Date)
    requires ValidDate(date)
    ensures ValidDate(NextDay(date)) && DaysFromCivil(NextDay(date)) == DaysFromCivil(date) + 1
  {
    if date.day < DaysInMonth(date.year, date.month) {
      hide YearStart, MonthStart, IsLeapYear;
    } else if date.month == 2 {
      FebruaryEnds(date);
    } else {
      MonthLength(date.year, MarchMonth(date));
      hide YearStart, MonthStart, IsLeapYear;
    }
  }

  /** The last day of February is the last of a year counted from March. */
  lemma FebruaryEnds(date: Date)
    requires ValidDate(date) && date.month == 2 && date.day == DaysInMonth(date.year, 2)
    ensures DaysFromCivil(Date(date.year, 3, 1)) == DaysFromCivil(date) + 1
  {
    YearLength(date.year - 1);
    hide YearStart;
    assert MonthStart(11) == 337 && MonthStart(0) == 0;
  }

  lemma PreviousDayUndone(date: Date)
    requires ValidDate(date)
    ensures ValidDate(PreviousDay(date)) && NextDay(PreviousDay(date)) == date
  {
  }

  /** Counting days gives real dates, as many days from the epoch as were counted. */
  lemma {:induction false} CalendarCounts(days: int)
    ensures ValidDate(CalendarDate(days)) && DaysFromCivil(CalendarDate(days)) == days
    decreases if days >= 0 then days else -days
  {
    hide DaysFromCivil, NextDay, PreviousDay, ValidDate;
    EpochCounts();
    if days > 0 {
      CalendarCounts(days - 1);
      DaysFromNextDay(CalendarDate(days - 1));
    } else if days < 0 {
      CalendarCounts(days + 1);
      PreviousDayUndone(CalendarDate(days + 1));
      DaysFromNextDay(CalendarDate(days));
    }
  }

  lemma EpochCounts()
    ensures ValidDate(EPOCH) && DaysFromCivil(EPOCH) == 0
  {
  }

  lemma DayOfYearBounds(date: Date)
    requires ValidDate(date)
    ensures 0 <= MarchMonth(date) <= 11
    ensures MonthStart(MarchMonth(date)) <= DayOfYear(date)
    ensures MarchMonth(date) < 11 ==> DayOfYear(date) < MonthStart(MarchMonth(date) + 1)
    ensures DayOfYear(date) < YearStart(MarchYear(date) + 1) - YearStart(MarchYear(date))
  {
    YearLength(MarchYear(date));
    if MarchMonth(date) < 11 {
      MonthLength(date.year, MarchMonth(date));
    }
    assert MonthStart(11) == 337;
  }

  lemma SameMonth(a: int, b: int, doy: int)
    requires 0 <= a <= 11 && 0 <= b <= 11
    requires MonthStart(a) <= doy && (a < 11 ==> doy < MonthStart(a + 1))
    requires MonthStart(b) <= doy && (b < 11 ==> doy < MonthStart(b + 1))
    ensures a == b
  {
  }

  lemma SameMarchYear(a: int, b: int, i: int, j: int)
    requires 0 <= i < YearStart(a + 1) - YearStart(a) && 0 <= j < YearStart(b + 1) - YearStart(b)
    requires YearStart(a) + i == YearStart(b) + j
    ensures a == b
  {
    if a < b {
      YearStartIncreases(a, b);
    } else if b < a {
      YearStartIncreases(b, a);
    }
    hide YearStart;
  }

  /** No two real dates are equally many days from the epoch. */
  lemma DaysFromCivilIsInjective(a: Date, b: Date)
    requires ValidDate(a) && ValidDate(b) && DaysFromCivil(a) == DaysFromCivil(b)
    ensures a == b
  {
    hide DaysInMonth, IsLeapYear, YearStart, MonthStart, MarchYear, MarchMonth, ValidDate;
    DayOfYearBounds(a);
    DayOfYearBounds(b);
    MonthStartsAfter(MarchMonth(a));
    MonthStartsAfter(MarchMonth(b));
    SameMarchYear(MarchYear(a), MarchYear(b), DayOfYear(a), DayOfYear(b));
    SameMonth(MarchMonth(a), MarchMonth(b), DayOfYear(a));
    SameParts(a, b);
  }

  lemma MonthStartsAfter(month: int)
    requires month >= 0
    ensures MonthStart(month) >= 0
  {
  }

  /** A date is known by its March year, its March month and its day. */
  lemma SameParts(a: Date, b: Date)
    requires ValidDate(a) && ValidDate(b)
    requires MarchYear(a) == MarchYear(b) && MarchMonth(a) == MarchMonth(b) && DayOfYear(a) == DayOfYear(b)
    ensures a == b
  {
    hide DaysInMonth, MonthStart;
  }

  /** The closed form agrees with counting on every day, before the epoch as well as after it. */
  lemma WideCivilIsTheCalendar(days: int)
    ensures WideCivilFromDays(days) == CalendarDate(days)
  {
    WideCivilIsInverted(days);
    CalendarCounts(days);
    DaysFromCivilIsInjective(WideCivilFromDays(days), CalendarDate(days));
  }

  /** A real date falls after a year exactly when it is more days from the epoch than the last day of that year. */
  lemma YearsByDays(date: Date, year: int)
    requires ValidDate(date)
    ensures date.year <= year <==> DaysFromCivil(date) <= DaysFromCivil(Date(year, 12, 31))
  {
    DayOfYearBounds(date);
    EndOfYear(date);
    hide YearStart, DaysInMonth, IsLeapYear;
    assert MarchYear(Date(year, 12, 31)) == year && DayOfYear(Date(year, 12, 31)) == 305;
    if MarchYear(date) < year {
      YearStartIncreases(MarchYear(date), year);
    } else if MarchYear(date) > year {
      YearStartIncreases(year, MarchYear(date));
      YearLength(year);
    }
    hide MonthStart;
  }

  /** January and February are the last days of their March year. */
  lemma EndOfYear(date: Date)
    requires ValidDate(date)
    ensures date.month <= 2 <==> DayOfYear(date) > 305
  {
  }

  const FIRST_I32_DAY := -784_353_015_833
  const LAST_I32_DAY := 784_351_576_776

  lemma FirstI32Day()
    ensures DaysFromCivil(Date(-0x8000_0001, 12, 31)) == FIRST_I32_DAY - 1
  {
    assert -0x8000_0001 / 4 == -536_870_913 && -0x8000_0001 / 100 == -21_474_837 && -0x8000_0001 / 400 == -5_368_710;
  }

  lemma LastI32Day()
    ensures DaysFromCivil(Date(0x7fff_ffff, 12, 31)) == LAST_I32_DAY
  {
    assert 0x7fff_ffff / 4 == 536_870_911 && 0x7fff_ffff / 100 == 21_474_836 && 0x7fff_ffff / 400 == 5_368_709;
  }

  lemma I32Days()
    ensures DaysFromCivil(Date(-0x8000_0001, 12, 31)) == FIRST_I32_DAY - 1
    ensures DaysFromCivil(Date(0x7fff_ffff, 12, 31)) == LAST_I32_DAY
  {
    hide DaysFromCivil;
    FirstI32Day();
    LastI32Day();
  }

  /** The year of a day fits in 32 bits exactly between two days. */
  lemma YearFitsBetween(days: int)
    ensures FitsI32(CalendarDate(days).year) <==> FIRST_I32_DAY <= days <= LAST_I32_DAY
  {
    hide CalendarDate, DaysFromCivil;
    CalendarCounts(days);
    I32Days();
    YearsByDays(CalendarDate(days), -0x8000_0001);
    YearsByDays(CalendarDate(days), 0x7fff_ffff);
  }

  /**
   * The 32-bit year is right exactly when the year of the day fits in 32 bits, which is from day -784353015833
   * (1 January of year -2^31) to day 784351576776 (31 December of year 2^31 - 1).
   */
  lemma CivilIsTheCalendar(days: int)
    ensures CivilFromDays(days) == CalendarDate(days) <==> FitsI32(CalendarDate(days).year)
    ensures CivilFromDays(days) == CalendarDate(days) <==> FIRST_I32_DAY <= days <= LAST_I32_DAY
  {
    hide WideCivilFromDays, CalendarDate, AsI32, FitsI32;
    WideCivilIsTheCalendar(days);
    AsI32IsExact(CalendarDate(days).year);
    YearFitsBetween(days);
  }

  lemma AsI32IsExact(n: int)
    ensures AsI32(n) == n <==> FitsI32(n)
  {
  }

  // ----- Timestamps -----

  datatype Timestamp = Timestamp(date: Date, hour: int, minute: int, second: int)

  function TimestampOf(unixSecs: nat): Timestamp {
    var seconds := unixSecs % 86_400;
    Timestamp(CivilFromDays(unixSecs / 86_400), seconds / 3_600, seconds % 3_600 / 60, seconds % 60)
  }

  lemma SecondsRecombine(seconds: int)
    requires 0 <= seconds < 86_400
    ensures var hour, minute, second := seconds / 3_600, seconds % 3_600 / 60, seconds % 60;
            && 0 <= hour < 24 && 0 <= minute < 60 && 0 <= second < 60
            && hour * 3_600 + minute * 60 + second == seconds
  {
  }

  /**
   * The clock is that of the seconds' day for every input, and the date is right exactly up to the last day whose
   * year fits in 32 bits.
   */
  lemma TimestampIsExact(unixSecs: nat)
    ensures var t := TimestampOf(unixSecs);
            && 0 <= t.hour < 24 && 0 <= t.minute < 60 && 0 <= t.second < 60
            && t.hour * 3_600 + t.minute * 60 + t.second == unixSecs % 86_400
    ensures TimestampOf(unixSecs).date == CalendarDate(unixSecs / 86_400) <==> unixSecs / 86_400 <= LAST_I32_DAY
  {
    hide CivilFromDays, CalendarDate, FitsI32;
    CivilIsTheCalendar(unixSecs / 86_400);
    SecondsRecombine(unixSecs % 86_400);
  }

  /** Until then the fields recombine to the seconds they came from. */
  lemma TimestampRecombines(unixSecs: nat)
    requires unixSecs / 86_400 <= LAST_I32_DAY
    ensures var t := TimestampOf(unixSecs);
            && ValidDate(t.date) && 0 <= t.hour < 24 && 0 <= t.minute < 60 && 0 <= t.second < 60
            && DaysFromCivil(t.date) * 86_400 + t.hour * 3_600 + t.minute * 60 + t.second == unixSecs
  {
    hide TimestampOf, CalendarDate, DaysFromCivil, ValidDate;
    TimestampIsExact(unixSecs);
    CalendarCounts(unixSecs / 86_400);
  }

  // ----- The text of a timestamp -----

  function Zeros(n: nat): (s: string)
    ensures |s| == n && forall i :: 0 <= i < n ==> s[i] == '0'
  {
    seq(n, _ => '0')
  }

  /** Zero-padded decimal; numbers wider than the field are not cut. */
  function Padded(n: nat, width: nat): (s: string)
    ensures AllDigits(s)
  {
    if |Decimal(n)| >= width then Decimal(n) else Zeros(width - |Decimal(n)|) + Decimal(n)
  }

  lemma {:induction false} LeadingZeros(k: nat, s: string)
    requires forall i :: 0 <= i < |s| ==> IsDigit(s[i])
    ensures DigitsValue(Zeros(k) + s) == DigitsValue(s)
    decreases |s|, k
  {
    var t := Zeros(k) + s;
    if s == "" {
      if k > 0 {
        LeadingZeros(k - 1, s);
        assert t[..|t| - 1] == Zeros(k - 1) + s;
      }
    } else {
      LeadingZeros(k, s[..|s| - 1]);
      assert t[..|t| - 1] == Zeros(k) + s[..|s| - 1];
    }
  }

  lemma PaddedIsInjective(m: nat, n: nat, width: nat)
    requires Padded(m, width) == Padded(n, width)
    ensures m == n
  {
    PaddedValue(m, width);
    PaddedValue(n, width);
  }

  lemma PaddedValue(n: nat, width: nat)
    ensures DigitsValue(Padded(n, width)) == n
  {
    DecimalValue(n);
    if |Decimal(n)| < width {
      LeadingZeros(width - |Decimal(n)|, Decimal(n));
    }
  }

  lemma PaddedHasNo(n: nat, width: nat, c: char)
    requires !IsDigit(c)
    ensures c !in Padded(n, width)
  {
    hide Decimal;
  }

  function TwoParts(a: nat, width: nat, sep: char, rest: string): string {
    Padded(a, width) + [sep] + rest
  }

  lemma TwoPartsAreInjective(a: nat, b: nat, width: nat, sep: char, rest: string, rest': string)
    requires !IsDigit(sep) && TwoParts(a, width, sep, rest) == TwoParts(b, width, sep, rest')
    ensures a == b && rest == rest'
  {
    PaddedHasNo(a, width, sep);
    PaddedHasNo(b, width, sep);
    CutAtFirst(Padded(a, width), rest, Padded(b, width), rest', sep);
    PaddedIsInjective(a, b, width);
  }

  predicate Printable(t: Timestamp) {
    t.date.year >= 0 && t.date.month >= 0 && t.date.day >= 0 && t.hour >= 0 && t.minute >= 0 && t.second >= 0
  }

  /** year/month/day hour:minute:second, zero-padded. */
  function FormatTimestamp(t: Timestamp): string
    requires Printable(t)
  {
    TwoParts(t.date.year, 4, '/', TwoParts(t.date.month, 2, '/', TwoParts(t.date.day, 2, ' ',
      TwoParts(t.hour, 2, ':', TwoParts(t.minute, 2, ':', Padded(t.second, 2))))))
  }

  lemma FormatIsInjective(a: Timestamp, b: Timestamp)
    requires Printable(a) && Printable(b) && FormatTimestamp(a) == FormatTimestamp(b)
    ensures a == b
  {
    hide TwoParts, Padded;
    var a5, b5 := Padded(a.second, 2), Padded(b.second, 2);
    var a4, b4 := TwoParts(a.minute, 2, ':', a5), TwoParts(b.minute, 2, ':', b5);
    var a3, b3 := TwoParts(a.hour, 2, ':', a4), TwoParts(b.hour, 2, ':', b4);
    var a2, b2 := TwoParts(a.date.day, 2, ' ', a3), TwoParts(b.date.day, 2, ' ', b3);
    var a1, b1 := TwoParts(a.date.month, 2, '/', a2), TwoParts(b.date.month, 2, '/', b2);
    TwoPartsAreInjective(a.date.year, b.date.year, 4, '/', a1, b1);
    TwoPartsAreInjective(a.date.month, b.date.month, 2, '/', a2, b2);
    TwoPartsAreInjective(a.date.day, b.date.day, 2, ' ', a3, b3);
    TwoPartsAreInjective(a.hour, b.hour, 2, ':', a4, b4);
    TwoPartsAreInjective(a.minute, b.minute, 2, ':', a5, b5);
    PaddedIsInjective(a.second, b.second, 2);
  }

  lemma {:induction false} YearsSinceEpoch(days: nat)
    ensures CalendarDate(days).year >= 1970
  {
    if days > 0 {
      YearsSinceEpoch(days - 1);
    }
  }

  /** As long as the years fit in 32 bits, no two seconds are logged under the same timestamp. */
  lemma TimestampsAreDistinct(s: nat, t: nat)
    requires s / 86_400 <= LAST_I32_DAY && t / 86_400 <= LAST_I32_DAY
    ensures Printable(TimestampOf(s)) && Printable(TimestampOf(t))
    ensures FormatTimestamp(TimestampOf(s)) == FormatTimestamp(TimestampOf(t)) ==> s == t
  {
    hide TimestampOf, FormatTimestamp, CalendarDate, DaysFromCivil, ValidDate, Printable;
    TimestampIsPrintable(s);
    TimestampIsPrintable(t);
    if FormatTimestamp(TimestampOf(s)) == FormatTimestamp(TimestampOf(t)) {
      FormatIsInjective(TimestampOf(s), TimestampOf(t));
      TimestampRecombines(s);
      TimestampRecombines(t);
    }
  }

  lemma TimestampIsPrintable(s: nat)
    requires s / 86_400 <= LAST_I32_DAY
    ensures Printable(TimestampOf(s))
  {
    hide TimestampOf, CivilFromDays, CalendarDate, DaysFromCivil;
    TimestampIsExact(s);
    CalendarCounts(s / 86_400);
    YearsSinceEpoch(s / 86_400);
  }

  // ----- Reading a timestamp back -----

  /** The digits from i to j spell this number. */
  predicate Spells(s: string, i: nat, j: nat, n: int) {
    i <= j <= |s| && AllDigits(s[i..j]) && DigitsValue(s[i..j]) == n
  }

  function TenTo(width: nat): nat {
    if width == 0 then 1 else 10 * TenTo(width - 1)
  }

  lemma {:induction false} DecimalWidth(n: nat, width: nat)
    requires width > 0 && n < TenTo(width)
    ensures |Decimal(n)| <= width
  {
    if n >= 10 {
      assert TenTo(1) == 10;
      DecimalWidth(n / 10, width - 1);
    }
  }

  lemma PaddedTwo(n: nat)
    requires n < 100
    ensures |Padded(n, 2)| == 2 && AllDigits(Padded(n, 2)) && DigitsValue(Padded(n, 2)) == n
  {
    assert TenTo(2) == 100;
    DecimalWidth(n, 2);
    PaddedValue(n, 2);
  }

  lemma PaddedFour(n: nat)
    requires n < 10_000
    ensures |Padded(n, 4)| == 4 && AllDigits(Padded(n, 4)) && DigitsValue(Padded(n, 4)) == n
  {
    assert TenTo(2) == 100 && TenTo(4) == 10_000;
    DecimalWidth(n, 4);
    PaddedValue(n, 4);
  }

  /**
   * Up to the year 9999 a timestamp is nineteen characters: four digits of the year, and two each of month, day,
   * hour, minute and second, with slashes, a blank and colons between them.
   */
  lemma FormatReadsBack(t: Timestamp)
    requires 0 <= t.date.year < 10_000 && 0 <= t.date.month < 100 && 0 <= t.date.day < 100
    requires 0 <= t.hour < 100 && 0 <= t.minute < 100 && 0 <= t.second < 100
    ensures var s := FormatTimestamp(t);
            && |s| == 19 && s[4] == s[7] == '/' && s[10] == ' ' && s[13] == s[16] == ':'
            && Spells(s, 0, 4, t.date.year) && Spells(s, 5, 7, t.date.month) && Spells(s, 8, 10, t.date.day)
            && Spells(s, 11, 13, t.hour) && Spells(s, 14, 16, t.minute) && Spells(s, 17, 19, t.second)
  {
    hide Padded, DigitsValue;
    PaddedFour(t.date.year);
    PaddedTwo(t.date.month);
    PaddedTwo(t.date.day);
    PaddedTwo(t.hour);
    PaddedTwo(t.minute);
    PaddedTwo(t.second);
    var s := FormatTimestamp(t);
    assert s[0..4] == Padded(t.date.year, 4) && s[5..7] == Padded(t.date.month, 2);
    assert s[8..10] == Padded(t.date.day, 2) && s[11..13] == Padded(t.hour, 2);
    assert s[14..16] == Padded(t.minute, 2) && s[17..19] == Padded(t.second, 2);
  }
}
