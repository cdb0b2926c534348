/** The proleptic Gregorian calendar as two division formulas that live in different files:
    days to date (`src/library/mod.rs`) and date to days (`src/collections/scheduler.rs`).
    Numbers are unbounded here; `StepsFitI64` shows the 64-bit code meets no overflow. */
module Calendar {
  const DAYS_PER_ERA := 146_097
  const EPOCH_SHIFT := 719_468

  datatype CivilDate = CivilDate(year: int, month: int, day: int)

  /** Rust's `/`, which rounds toward zero. */
  function TruncDiv(a: int, b: int): int
    requires b > 0
  {
    if a >= 0 then a / b else -((-a) / b)
  }

  // ---- The two conversions, as the source computes them ----

  function YearOfEra(dayOfEra: int): int {
    TruncDiv(dayOfEra - TruncDiv(dayOfEra, 1_460) + TruncDiv(dayOfEra, 36_524) - TruncDiv(dayOfEra, 146_096), 365)
  }

  function CivilFromDays(days: int): CivilDate {
    var shifted := days + EPOCH_SHIFT;
    var era := shifted / DAYS_PER_ERA;
    var dayOfEra := shifted - era * DAYS_PER_ERA;
    var yearOfEra := YearOfEra(dayOfEra);
    var dayOfYear := dayOfEra - (365 * yearOfEra + TruncDiv(yearOfEra, 4) - TruncDiv(yearOfEra, 100));
    var monthPart := TruncDiv(5 * dayOfYear + 2, 153);
    var day := dayOfYear - TruncDiv(153 * monthPart + 2, 5) + 1;
    var month := monthPart + if monthPart < 10 then 3 else -9;
    CivilDate(yearOfEra + era * 400 + if month <= 2 then 1 else 0, month, day)
  }

  function DaysFromCivil(year: int, month: int, day: int): int {
    var adjustedYear := year - if month <= 2 then 1 else 0;
    var era := adjustedYear / 400;
    var yearOfEra := adjustedYear - era * 400;
    var adjustedMonth := month + if month > 2 then -3 else 9;
    var dayOfYear := TruncDiv(153 * adjustedMonth + 2, 5) + day - 1;
    var dayOfEra := yearOfEra * 365 + TruncDiv(yearOfEra, 4) - TruncDiv(yearOfEra, 100) + dayOfYear;
    era * DAYS_PER_ERA + dayOfEra - EPOCH_SHIFT
  }

  predicate IsLeap(year: int) {
    year % 4 == 0 && (year % 100 != 0 || year % 400 == 0)
  }

  function DaysInMonth(year: int, month: int): int {
    if month in {1, 3, 5, 7, 8, 10, 12} then 31
    else if month in {4, 6, 9, 11} then 30
    else if month == 2 && IsLeap(year) then 29
    else if month == 2 then 28
    else 30
  }

  // ---- What a calendar is ----

  predicate ValidMonth(month: int) { 1 <= month <= 12 }

  predicate ValidDate(date: CivilDate) {
    ValidMonth(date.month) && 1 <= date.day <= DaysInMonth(date.year, date.month)
  }

  function NextMonthOf(year: int, month: int): (int, int) {
    if month == 12 then (year + 1, 1) else (year, month + 1)
  }

  /** The calendar successor: the next day of the month, or the first of the next month. */
  function NextDay(date: CivilDate): CivilDate {
    if date.day < DaysInMonth(date.year, date.month) then date.(day := date.day + 1)
    else var (year, month) := NextMonthOf(date.year, date.month); CivilDate(year, month, 1)
  }

  // ---- Eras of 400 March-based years ----

  /** Days of an era before its March-based year `y`. */
  function YearStart(y: int): int { 365 * y + y / 4 - y / 100 }

  /** A March-based year ends in the February of the following civil year. */
  function YearLength(y: int): int { if IsLeap(y + 1) then 366 else 365 }

  /** A day of an era splits into centuries, four-year cycles, years and days, each part bounded. */
  lemma EraParts(dayOfEra: int) returns (c: int, q: int, m: int, d: int)
    requires 0 <= dayOfEra < DAYS_PER_ERA
    ensures 0 <= c <= 3 && 0 <= q <= 24 && 0 <= m <= 3 && 0 <= d <= 365
    ensures d == 365 ==> m == 3 && (q < 24 || c == 3)
    ensures dayOfEra == 36_524 * c + 1_461 * q + 365 * m + d
  {
    c := if dayOfEra < 146_096 then dayOfEra / 36_524 else 3;
    var inCentury := dayOfEra - 36_524 * c;
    q := inCentury / 1_461;
    var inCycle := inCentury - 1_461 * q;
    m := if inCycle < 1_460 then inCycle / 365 else 3;
    d := inCycle - 365 * m;
  }

  /** The source's year formula reads off exactly those parts. */
  lemma YearOfEraFromParts(c: int, q: int, m: int, d: int)
    requires 0 <= c <= 3 && 0 <= q <= 24 && 0 <= m <= 3 && 0 <= d <= 365
    requires d == 365 ==> m == 3 && (q < 24 || c == 3)
    ensures var doe := 36_524 * c + 1_461 * q + 365 * m + d;
            0 <= doe < DAYS_PER_ERA && YearOfEra(doe) == 100 * c + 4 * q + m
  {
    var doe := 36_524 * c + 1_461 * q + 365 * m + d;
    var rest := 24 * c + q + 365 * m + d;
    assert doe == 1_460 * (25 * c + q) + rest;
    var extra := if rest >= 1_460 then 1 else 0;
    assert doe / 1_460 == 25 * c + q + extra;
    var last := if doe == 146_096 then 1 else 0;
    assert doe / 36_524 == c + last && doe / 146_096 == last;
  }

  lemma YearStartFromParts(c: int, q: int, m: int)
    requires 0 <= c <= 3 && 0 <= q <= 24 && 0 <= m <= 3
    ensures var y := 100 * c + 4 * q + m;
            YearStart(y) == 36_524 * c + 1_461 * q + 365 * m
            && (YearLength(y) == 366 <==> m == 3 && (q < 24 || c == 3))
  {
    var y := 100 * c + 4 * q + m;
    assert y / 4 == 25 * c + q && y / 100 == c;
    assert y + 1 == 100 * c + 4 * q + m + 1;
  }

  /** The year formula is exact: it names the one March-based year that holds the day. */
  lemma YearOfEraExact(dayOfEra: int)
    requires 0 <= dayOfEra < DAYS_PER_ERA
    ensures var y := YearOfEra(dayOfEra);
            0 <= y <= 399 && YearStart(y) <= dayOfEra < YearStart(y) + YearLength(y)
  {
    var c, q, m, d := EraParts(dayOfEra);
    YearOfEraFromParts(c, q, m, d);
    YearStartFromParts(c, q, m);
  }

  lemma YearOfEraUnique(y: int, dayOfYear: int)
    requires 0 <= y <= 399 && 0 <= dayOfYear < YearLength(y)
    ensures 0 <= YearStart(y) + dayOfYear < DAYS_PER_ERA
    ensures YearOfEra(YearStart(y) + dayOfYear) == y
  {
    var c, r := y / 100, y % 100;
    YearStartFromParts(c, r / 4, r % 4);
    YearOfEraFromParts(c, r / 4, r % 4, dayOfYear);
  }

  lemma FourYearsOn(year: int, k: int)
    ensures (year + 4 * k) % 4 == year % 4
  {
    assert year + 4 * k == 4 * (year / 4 + k) + year % 4;
  }

  lemma HundredYearsOn(year: int, k: int)
    ensures (year + 100 * k) % 100 == year % 100
  {
    assert year + 100 * k == 100 * (year / 100 + k) + year % 100;
  }

  lemma FourHundredYearsOn(year: int, k: int)
    ensures (year + 400 * k) % 400 == year % 400
  {
    assert year + 400 * k == 400 * (year / 400 + k) + year % 400;
  }

  lemma LeapIsPeriodic(year: int, era: int)
    ensures IsLeap(year + 400 * era) == IsLeap(year)
  {
    FourYearsOn(year, 100 * era);
    HundredYearsOn(year, 4 * era);
    FourHundredYearsOn(year, era);
  }

  // ---- The date of a day inside a March-based year ----

  /** Days of a March-based year before its month `part`. */
  function MonthStart(part: int): int { (153 * part + 2) / 5 }

  function MarchDate(era: int, y: int, dayOfYear: int): CivilDate
    requires 0 <= dayOfYear
  {
    var part := (5 * dayOfYear + 2) / 153;
    var month := if part < 10 then part + 3 else part - 9;
    CivilDate(y + era * 400 + if month <= 2 then 1 else 0, month, dayOfYear - MonthStart(part) + 1)
  }

  lemma MonthPartExact(dayOfYear: int, part: int)
    requires 0 <= dayOfYear <= 365
    ensures part == (5 * dayOfYear + 2) / 153 <==> MonthStart(part) <= dayOfYear < MonthStart(part + 1)
    ensures 0 <= (5 * dayOfYear + 2) / 153 <= 11
  {
  }

  lemma MonthLengths(era: int, y: int, part: int)
    requires 0 <= part <= 11
    ensures var month := if part < 10 then part + 3 else part - 9;
            var year := y + era * 400 + if month <= 2 then 1 else 0;
            DaysInMonth(year, month)
              == if part == 11 then YearLength(y) - 337 else MonthStart(part + 1) - MonthStart(part)
  {
    LeapIsPeriodic(y + 1, era);
    assert y + 1 + 400 * era == y + era * 400 + 1;
  }

  lemma MarchDateIsValid(era: int, y: int, dayOfYear: int)
    requires 0 <= y <= 399 && 0 <= dayOfYear < YearLength(y)
    ensures ValidDate(MarchDate(era, y, dayOfYear))
  {
    var part := (5 * dayOfYear + 2) / 153;
    MonthPartExact(dayOfYear, part);
    MonthLengths(era, y, part);
  }

  lemma DaysOfMarchDate(era: int, y: int, dayOfYear: int)
    requires 0 <= y <= 399 && 0 <= dayOfYear < YearLength(y)
    ensures var date := MarchDate(era, y, dayOfYear);
            DaysFromCivil(date.year, date.month, date.day)
              == era * DAYS_PER_ERA + YearStart(y) + dayOfYear - EPOCH_SHIFT
  {
    var part := (5 * dayOfYear + 2) / 153;
    MonthPartExact(dayOfYear, part);
    assert (y + era * 400) / 400 == era;
  }

  lemma CivilOfMarchDay(era: int, y: int, dayOfYear: int)
    requires 0 <= y <= 399 && 0 <= dayOfYear < YearLength(y)
    ensures CivilFromDays(era * DAYS_PER_ERA + YearStart(y) + dayOfYear - EPOCH_SHIFT)
              == MarchDate(era, y, dayOfYear)
  {
    YearOfEraUnique(y, dayOfYear);
    MonthPartExact(dayOfYear, (5 * dayOfYear + 2) / 153);
    assert (era * DAYS_PER_ERA + YearStart(y) + dayOfYear) / DAYS_PER_ERA == era;
  }

  lemma DayToMarchDay(days: int) returns (era: int, y: int, dayOfYear: int)
    ensures 0 <= y <= 399 && 0 <= dayOfYear < YearLength(y)
    ensures days == era * DAYS_PER_ERA + YearStart(y) + dayOfYear - EPOCH_SHIFT
  {
    var shifted := days + EPOCH_SHIFT;
    era := shifted / DAYS_PER_ERA;
    var dayOfEra := shifted - era * DAYS_PER_ERA;
    YearOfEraExact(dayOfEra);
    y := YearOfEra(dayOfEra);
    dayOfYear := dayOfEra - YearStart(y);
  }

  lemma DateToMarchDay(date: CivilDate) returns (era: int, y: int, dayOfYear: int)
    requires ValidDate(date)
    ensures 0 <= y <= 399 && 0 <= dayOfYear < YearLength(y)
    ensures MarchDate(era, y, dayOfYear) == date
  {
    var adjustedYear := date.year - if date.month <= 2 then 1 else 0;
    era, y := adjustedYear / 400, adjustedYear % 400;
    var part := if date.month > 2 then date.month - 3 else date.month + 9;
    dayOfYear := MonthStart(part) + date.day - 1;
    MonthLengths(era, y, part);
    MonthPartExact(dayOfYear, part);
  }

  // ---- The round trips ----

  lemma MarchDayRoundTrip(era: int, y: int, dayOfYear: int)
    requires 0 <= y <= 399 && 0 <= dayOfYear < YearLength(y)
    ensures var date := MarchDate(era, y, dayOfYear);
            CivilFromDays(DaysFromCivil(date.year, date.month, date.day)) == date
  {
    DaysOfMarchDate(era, y, dayOfYear);
    CivilOfMarchDay(era, y, dayOfYear);
  }

  lemma DateToDaysAndBack(date: CivilDate)
    requires ValidDate(date)
    ensures CivilFromDays(DaysFromCivil(date.year, date.month, date.day)) == date
  {
    var era, y, dayOfYear := DateToMarchDay(date);
    MarchDayRoundTrip(era, y, dayOfYear);
  }

  lemma DaysToDateAndBack(days: int)
    ensures var date := CivilFromDays(days);
            ValidDate(date) && DaysFromCivil(date.year, date.month, date.day) == days
  {
    var era, y, dayOfYear := DayToMarchDay(days);
    CivilOfMarchDay(era, y, dayOfYear);
    MarchDateIsValid(era, y, dayOfYear);
    DaysOfMarchDate(era, y, dayOfYear);
  }

  // ---- Successors ----

  /** Days from the start of era 0 to the start of a March-based year. */
  function YearDays(year: int): int { year / 400 * DAYS_PER_ERA + YearStart(year % 400) }

  lemma YearDaysInEra(era: int, y: int)
    requires 0 <= y < 400
    ensures YearDays(400 * era + y) == era * DAYS_PER_ERA + YearStart(y)
  {
    assert (400 * era + y) / 400 == era;
  }

  lemma YearStartSuccessor(y: int)
    requires 0 <= y < 399
    ensures YearStart(y + 1) == YearStart(y) + YearLength(y)
  {
    var c, r := y / 100, y % 100;
    var q, m := r / 4, r % 4;
    YearStartFromParts(c, q, m);
    if m < 3 {
      YearStartFromParts(c, q, m + 1);
    } else if q < 24 {
      YearStartFromParts(c, q + 1, 0);
    } else {
      YearStartFromParts(c + 1, 0, 0);
    }
  }

  lemma YearSuccessor(year: int)
    ensures YearDays(year + 1) == YearDays(year) + if IsLeap(year + 1) then 366 else 365
  {
    var era, y := year / 400, year % 400;
    LeapIsPeriodic(y + 1, era);
    YearDaysInEra(era, y);
    if y == 399 {
      YearDaysInEra(era + 1, 0);
    } else {
      YearDaysInEra(era, y + 1);
      YearStartSuccessor(y);
    }
  }

  /** `DaysFromCivil` by March-based years; the form the successor proofs add up. */
  function DayNumber(date: CivilDate): int {
    YearDays(if date.month <= 2 then date.year - 1 else date.year) + DayOfMarchYear(date.month, date.day) - EPOCH_SHIFT
  }

  function DayOfMarchYear(month: int, day: int): int {
    MonthStart(if month <= 2 then month + 9 else month - 3) + day - 1
  }

  lemma DayNumberIsDaysFromCivil(date: CivilDate)
    requires ValidMonth(date.month)
    ensures DaysFromCivil(date.year, date.month, date.day) == DayNumber(date)
  {
    var adjusted := date.year - if date.month <= 2 then 1 else 0;
    assert adjusted - adjusted / 400 * 400 == adjusted % 400;
  }

  /** February ends a March-based year, and every other month is followed by one of the same year. */
  lemma MonthLengthInYear(year: int, month: int)
    requires ValidMonth(month)
    ensures DaysInMonth(year, month)
      == if month == 2 then (if IsLeap(year) then 366 else 365) - DayOfMarchYear(2, 1)
         else DayOfMarchYear(NextMonthOf(year, month).1, 1) - DayOfMarchYear(month, 1)
  {
  }

  /** The first of the next month is one month length later. */
  lemma MonthSuccessor(year: int, month: int)
    requires ValidMonth(month)
    ensures var (y, m) := NextMonthOf(year, month);
            DayNumber(CivilDate(y, m, 1)) == DayNumber(CivilDate(year, month, 1)) + DaysInMonth(year, month)
  {
    MonthLengthInYear(year, month);
    YearSuccessor(year - 1);
  }

  lemma DayNumberInMonth(date: CivilDate, day: int)
    ensures DayNumber(date.(day := day)) == DayNumber(date) + day - date.day
  {
  }

  lemma NextDayNumber(date: CivilDate)
    requires ValidDate(date)
    ensures ValidDate(NextDay(date)) && DayNumber(NextDay(date)) == DayNumber(date) + 1
  {
    if date.day < DaysInMonth(date.year, date.month) {
      DayNumberInMonth(date, date.day + 1);
    } else {
      DayNumberInMonth(date, 1);
      MonthSuccessor(date.year, date.month);
    }
  }

  lemma DateOfDayNumber(date: CivilDate, days: int)
    requires ValidDate(date) && DayNumber(date) == days
    ensures CivilFromDays(days) == date
  {
    DayNumberIsDaysFromCivil(date);
    DateToDaysAndBack(date);
  }

  lemma DayNumberOfDate(days: int)
    ensures var date := CivilFromDays(days); ValidDate(date) && DayNumber(date) == days
  {
    DaysToDateAndBack(days);
    DayNumberIsDaysFromCivil(CivilFromDays(days));
  }

  lemma SuccessorOf(date: CivilDate, days: int)
    requires ValidDate(date) && DayNumber(date) == days
    ensures CivilFromDays(days + 1) == NextDay(date)
  {
    NextDayNumber(date);
    DateOfDayNumber(NextDay(date), days + 1);
  }

  /** Consecutive day numbers are consecutive dates, for every integer. */
  lemma DayNumberSuccessor(days: int)
    ensures CivilFromDays(days + 1) == NextDay(CivilFromDays(days))
  {
    DayNumberOfDate(days);
    SuccessorOf(CivilFromDays(days), days);
  }

  /** Day zero is January 1, 1970, which with the successors fixes the date of every day. */
  lemma DayZero()
    ensures CivilFromDays(0) == CivilDate(1970, 1, 1) && DaysFromCivil(1970, 1, 1) == 0
  {
  }

  // ---- 64-bit safety ----

  const I64_MIN := -0x8000_0000_0000_0000
  const I64_MAX := 0x7FFF_FFFF_FFFF_FFFF

  predicate FitsI64(value: int) { I64_MIN <= value <= I64_MAX }

  /** Every value `civil_from_days` computes on the way, in order. */
  function CivilSteps(days: int): seq<int> {
    var shifted := days + EPOCH_SHIFT;
    var era := shifted / DAYS_PER_ERA;
    var doe := shifted - era * DAYS_PER_ERA;
    var y := YearOfEra(doe);
    [shifted, era * DAYS_PER_ERA, doe, doe - doe / 1_460, doe - doe / 1_460 + doe / 36_524,
     y, era * 400, y + era * 400, y + era * 400 + 1] + DayOfYearSteps(doe, y)
  }

  function DayOfYearSteps(doe: int, y: int): seq<int> {
    var doy := doe - (365 * y + TruncDiv(y, 4) - TruncDiv(y, 100));
    var part := TruncDiv(5 * doy + 2, 153);
    [365 * y, 365 * y + y / 4, doy, 5 * doy + 2, part, 153 * part + 2, doy - TruncDiv(153 * part + 2, 5)]
  }

  /** Every value `days_from_civil` computes on the way, in order. */
  function DaySteps(year: int, month: int, day: int): seq<int> {
    var adjusted := year - if month <= 2 then 1 else 0;
    var era := adjusted / 400;
    var y := adjusted - era * 400;
    var part := month + if month > 2 then -3 else 9;
    var doy := TruncDiv(153 * part + 2, 5) + day - 1;
    [adjusted, era * 400, y, part, 153 * part + 2, doy + 1, doy, y * 365, y * 365 + y / 4,
     y * 365 + y / 4 - y / 100 + doy, era * DAYS_PER_ERA,
     DaysFromCivil(year, month, day) + EPOCH_SHIFT, DaysFromCivil(year, month, day)]
  }

  /** No step overflows for a day derived from a 64-bit timestamp, in either direction. */
  lemma StepsFitI64(timestamp: int)
    requires FitsI64(timestamp)
    ensures var days := timestamp / 86_400;
            var date := CivilFromDays(days);
            && (forall step <- CivilSteps(days) :: FitsI64(step))
            && (forall step <- DaySteps(date.year, date.month, date.day) :: FitsI64(step))
  {
    var days := timestamp / 86_400;
    CivilStepsFit(days);
    DayStepsFit(days);
  }

  lemma DayOfYearStepsFit(y: int, doy: int)
    requires 0 <= y <= 399 && 0 <= doy <= 365
    ensures forall step <- DayOfYearSteps(YearStart(y) + doy, y) :: FitsI64(step)
  {
    assert 0 <= (5 * doy + 2) / 153 <= 11;
  }

  lemma CivilStepsFit(days: int)
    requires -0x1_0000_0000_0000 <= days <= 0x1_0000_0000_0000
    ensures forall step <- CivilSteps(days) :: FitsI64(step)
  {
    var era, y, doy := DayToMarchDay(days);
    YearOfEraUnique(y, doy);
    DayOfYearStepsFit(y, doy);
    var doe := YearStart(y) + doy;
    var shifted := days + EPOCH_SHIFT;
    assert shifted == era * DAYS_PER_ERA + doe;
    assert shifted / DAYS_PER_ERA == era;
    assert -0x1_0000_0000 <= era <= 0x1_0000_0000;
    assert 0 <= doe / 36_524 <= 4 && 0 <= doe / 1_460 <= 100;
  }

  lemma DayStepsFit(days: int)
    requires -0x1_0000_0000_0000 <= days <= 0x1_0000_0000_0000
    ensures var date := CivilFromDays(days);
            forall step <- DaySteps(date.year, date.month, date.day) :: FitsI64(step)
  {
    var era, y, doy := DayToMarchDay(days);
    CivilOfMarchDay(era, y, doy);
    DaysToDateAndBack(days);
    MarchDateIsValid(era, y, doy);
    ValidDateStepsFit(MarchDate(era, y, doy));
  }

  lemma ValidDateStepsFit(date: CivilDate)
    requires ValidDate(date) && -0x10_0000_0000_0000 <= date.year <= 0x10_0000_0000_0000
    ensures forall step <- DaySteps(date.year, date.month, date.day) :: FitsI64(step)
  {
    var adjusted := date.year - if date.month <= 2 then 1 else 0;
    var era := adjusted / 400;
    var y := adjusted - era * 400;
    assert 0 <= y < 400 && 0 <= y * 365 <= 150_000 && 0 <= y / 4 <= 100 && 0 <= y / 100 <= 4;
    assert -0x1_0000_0000_0000 <= era <= 0x1_0000_0000_0000;
  }
}
