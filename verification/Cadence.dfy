/** When a collection profile is due for a refresh (`src/collections/scheduler.rs`). */
module Cadence {
  import opened Basics
  import opened Calendar

  datatype RefreshCadence = Manual | Daily | Weekly | Monthly

  const DAY := 86_400

  function Saturate(value: int): int {
    if value < I64_MIN then I64_MIN else if value > I64_MAX then I64_MAX else value
  }

  function NextMonth(timestamp: int): int {
    var days := timestamp / DAY;
    var seconds := timestamp % DAY;
    var date := CivilFromDays(days);
    var (nextYear, nextMonth) :=
      if date.month == 12 then (date.year + 1, 1) else (date.year, date.month + 1);
    var length := DaysInMonth(nextYear, nextMonth);
    var day := if date.day <= length then date.day else length;
    Saturate(Saturate(DaysFromCivil(nextYear, nextMonth, day) * DAY) + seconds)
  }

  function NextDueAt(lastSuccess: int, cadence: RefreshCadence): Option<int> {
    match cadence
    case Manual => None
    case Daily => Some(Saturate(lastSuccess + DAY))
    case Weekly => Some(Saturate(lastSuccess + 7 * DAY))
    case Monthly => Some(NextMonth(lastSuccess))
  }

  predicate IsDue(lastSuccess: Option<int>, cadence: RefreshCadence, now: int) {
    match lastSuccess
    case None => cadence != Manual
    case Some(last) => var due := NextDueAt(last, cadence); due.Some? && due.value <= now
  }

  // ---- The month step, stated on dates ----

  /** The same day of the next calendar month, or its last day when that month is shorter. */
  function SameDayNextMonth(date: CivilDate): CivilDate {
    var (year, month) := NextMonthOf(date.year, date.month);
    var length := DaysInMonth(year, month);
    CivilDate(year, month, if date.day <= length then date.day else length)
  }

  lemma MonthStepLength(date: CivilDate)
    requires ValidDate(date)
    ensures var next := SameDayNextMonth(date);
            DayNumber(next) == DayNumber(date) + DaysInMonth(date.year, date.month) + next.day - date.day
  {
    MonthSuccessor(date.year, date.month);
    DayNumberInMonth(date, 1);
    DayNumberInMonth(SameDayNextMonth(date), 1);
  }

  lemma MonthStepIsFourToFiveWeeks(date: CivilDate)
    requires ValidDate(date)
    ensures var next := SameDayNextMonth(date);
            ValidDate(next) && 28 <= DaysInMonth(date.year, date.month) + next.day - date.day <= 31
  {
  }

  lemma NextMonthDays(days: int)
    ensures var next := SameDayNextMonth(CivilFromDays(days));
            var nextDays := DaysFromCivil(next.year, next.month, next.day);
            CivilFromDays(nextDays) == next && 28 <= nextDays - days <= 31
  {
    var date := CivilFromDays(days);
    var next := SameDayNextMonth(date);
    DayNumberOfDate(days);
    MonthStepIsFourToFiveWeeks(date);
    MonthStepLength(date);
    DayNumberIsDaysFromCivil(next);
    DateToDaysAndBack(next);
  }

  /** Saturating in two steps is saturating once: the steps cannot fall below the range. */
  lemma SaturateInSteps(days: int, nextDays: int, seconds: int)
    requires FitsI64(days * DAY + seconds) && 0 <= seconds < DAY && 28 <= nextDays - days <= 31
    ensures var exact := nextDays * DAY + seconds;
            Saturate(Saturate(nextDays * DAY) + seconds) == if exact <= I64_MAX then exact else I64_MAX
  {
  }

  lemma DayAndSeconds(days: int, seconds: int)
    requires 0 <= seconds < DAY
    ensures (days * DAY + seconds) / DAY == days && (days * DAY + seconds) % DAY == seconds
  {
  }

  /** Before saturation: the time of day is kept, the date is the same day of the next month,
      and the two instants are a whole 28 to 31 days apart. Saturation sets in exactly where
      that instant leaves the 64-bit range, and only upward. */
  lemma NextMonthMeaning(timestamp: int) returns (exact: int)
    requires FitsI64(timestamp)
    ensures exact % DAY == timestamp % DAY
    ensures CivilFromDays(exact / DAY) == SameDayNextMonth(CivilFromDays(timestamp / DAY))
    ensures 28 <= exact / DAY - timestamp / DAY <= 31
    ensures exact - timestamp == (exact / DAY - timestamp / DAY) * DAY
    ensures NextMonth(timestamp) == if exact <= I64_MAX then exact else I64_MAX
  {
    var days, seconds := timestamp / DAY, timestamp % DAY;
    var nextDays := NextMonthAt(timestamp, days, seconds);
    exact := nextDays * DAY + seconds;
    DayAndSeconds(nextDays, seconds);
  }

  lemma NextMonthAt(timestamp: int, days: int, seconds: int) returns (nextDays: int)
    requires FitsI64(timestamp) && days == timestamp / DAY && seconds == timestamp % DAY
    ensures CivilFromDays(nextDays) == SameDayNextMonth(CivilFromDays(days)) && 28 <= nextDays - days <= 31
    ensures NextMonth(timestamp)
      == if nextDays * DAY + seconds <= I64_MAX then nextDays * DAY + seconds else I64_MAX
  {
    NextMonthDays(days);
    NextMonthUnfolds(timestamp);
    var next := SameDayNextMonth(CivilFromDays(days));
    nextDays := DaysFromCivil(next.year, next.month, next.day);
    SaturateInSteps(days, nextDays, seconds);
  }

  lemma NextMonthUnfolds(timestamp: int)
    ensures var next := SameDayNextMonth(CivilFromDays(timestamp / DAY));
            NextMonth(timestamp)
              == Saturate(Saturate(DaysFromCivil(next.year, next.month, next.day) * DAY) + timestamp % DAY)
  {
  }

  /** No 64-bit step of `days_from_civil` overflows on the one date the code gives it, the same day of
      the next month. */
  lemma NextMonthStepsFit(timestamp: int)
    requires FitsI64(timestamp)
    ensures var next := SameDayNextMonth(CivilFromDays(timestamp / DAY));
            forall step <- DaySteps(next.year, next.month, next.day) :: FitsI64(step)
  {
    NextMonthDays(timestamp / DAY);
    var next := SameDayNextMonth(CivilFromDays(timestamp / DAY));
    DayStepsFit(DaysFromCivil(next.year, next.month, next.day));
  }

  /** A profile refreshed at `last` is not due for 28 days, is due after 31, and the end of the
      64-bit range is the only instant at which it can come due earlier. */
  lemma MonthlyWindow(last: int, now: int)
    requires FitsI64(last) && FitsI64(now)
    ensures now < last + 28 * DAY && now < I64_MAX ==> !IsDue(Some(last), Monthly, now)
    ensures last + 31 * DAY <= now ==> IsDue(Some(last), Monthly, now)
  {
    var exact := NextMonthMeaning(last);
  }

  /** When a profile is due: never by itself if manual, at once if it was never refreshed, else a day
      or a week after its last success, or from the month step on. */
  lemma DueExactly(last: Option<int>, cadence: RefreshCadence, now: int)
    requires FitsI64(now) && (last.Some? ==> FitsI64(last.value))
    ensures cadence == Manual ==> !IsDue(last, cadence, now)
    ensures last.None? && cadence != Manual ==> IsDue(last, cadence, now)
    ensures last.Some? && cadence == Daily ==>
              (IsDue(last, cadence, now) <==> now - last.value >= 86_400 || now == 0x7FFF_FFFF_FFFF_FFFF)
    ensures last.Some? && cadence == Weekly ==>
              (IsDue(last, cadence, now) <==> now - last.value >= 604_800 || now == 0x7FFF_FFFF_FFFF_FFFF)
    ensures last.Some? && cadence == Monthly ==> (IsDue(last, cadence, now) <==> NextMonth(last.value) <= now)
  {
  }

  /** Once due, always due, under every cadence. */
  lemma DueIsStable(last: Option<int>, cadence: RefreshCadence, now: int, later: int)
    requires now <= later && IsDue(last, cadence, now)
    ensures IsDue(last, cadence, later)
  {
  }

  /** A refresh clears the due state: right after success no cadence asks for another refresh,
      except at the very last representable second. */
  lemma RefreshClearsDue(now: int, cadence: RefreshCadence)
    requires FitsI64(now)
    ensures IsDue(Some(now), cadence, now) <==> cadence != Manual && now == I64_MAX
  {
    var exact := NextMonthMeaning(now);
  }
}
