/** A model of `java.time.LocalDate` / `LocalDateTime` in the ISO
    (proleptic Gregorian) calendar, restricted to what the task service
    uses: ordering, start and end of a day, and adding or subtracting
    weeks and months.  A date-time has no time zone; "now" is always
    supplied by the caller. */
module Time {

  /** Nanoseconds in one day; `LocalTime.MAX` is the last of them. */
  const NanosPerDay: int := 86_400_000_000_000

  datatype Date = Date(year: int, month: int, day: int)

  predicate IsLeapYear(year: int) {
    year % 4 == 0 && (year % 100 != 0 || year % 400 == 0)
  }

  function LengthOfMonth(year: int, month: int): (n: int)
    requires 1 <= month <= 12
    ensures 28 <= n <= 31
  {
    if month == 2 then (if IsLeapYear(year) then 29 else 28)
    else if month == 4 || month == 6 || month == 9 || month == 11 then 30
    else 31
  }

  predicate IsValidDate(d: Date) {
    1 <= d.month <= 12 && 1 <= d.day <= LengthOfMonth(d.year, d.month)
  }

  /** A calendar date that exists. */
  type LocalDate = d: Date | IsValidDate(d) witness Date(1970, 1, 1)

  /** The time of day as nanoseconds since midnight. */
  type NanoOfDay = n: int | 0 <= n < NanosPerDay

  datatype LocalDateTime = LocalDateTime(date: LocalDate, nanoOfDay: NanoOfDay)

  // ---------------------------------------------------------------- order

  /** `LocalDate.isBefore`: year, then month, then day. */
  predicate DateIsBefore(a: Date, b: Date) {
    a.year < b.year ||
    (a.year == b.year && (a.month < b.month || (a.month == b.month && a.day < b.day)))
  }

  /** `LocalDateTime.isBefore`: the date first, then the time of day. */
  predicate IsBefore(a: LocalDateTime, b: LocalDateTime) {
    DateIsBefore(a.date, b.date) || (a.date == b.date && a.nanoOfDay < b.nanoOfDay)
  }

  /** SQL `t BETWEEN start AND end`: both bounds are included. */
  predicate IsBetween(t: LocalDateTime, start: LocalDateTime, end: LocalDateTime) {
    !IsBefore(t, start) && !IsBefore(end, t)
  }

  /** `IsBefore` is a strict total order. */
  lemma IsBeforeIsStrictTotalOrder(a: LocalDateTime, b: LocalDateTime, c: LocalDateTime)
    ensures !IsBefore(a, a)
    ensures IsBefore(a, b) && IsBefore(b, c) ==> IsBefore(a, c)
    ensures a == b || IsBefore(a, b) || IsBefore(b, a)
  {
  }

  /** A range whose bounds coincide holds that one instant and nothing else. */
  lemma BetweenEqualBounds(t: LocalDateTime, d: LocalDateTime)
    ensures IsBetween(t, d, d) <==> t == d
  {
  }

  // ---------------------------------------------------------------- days

  /** The day after `d`: later than `d`, with no date in between. */
  function NextDay(d: LocalDate): (r: LocalDate)
    ensures DateIsBefore(d, r)
    ensures forall e: LocalDate :: !(DateIsBefore(d, e) && DateIsBefore(e, r))
  {
    if d.day < LengthOfMonth(d.year, d.month) then Date(d.year, d.month, d.day + 1)
    else if d.month < 12 then Date(d.year, d.month + 1, 1)
    else Date(d.year + 1, 1, 1)
  }

  /** The day before `d`: earlier than `d`, with no date in between. */
  function PrevDay(d: LocalDate): (r: LocalDate)
    ensures DateIsBefore(r, d)
    ensures forall e: LocalDate :: !(DateIsBefore(r, e) && DateIsBefore(e, d))
  {
    if d.day > 1 then Date(d.year, d.month, d.day - 1)
    else if d.month > 1 then Date(d.year, d.month - 1, LengthOfMonth(d.year, d.month - 1))
    else Date(d.year - 1, 12, 31)
  }

  /** The day after and the day before undo each other. */
  lemma NextDayPrevDay(d: LocalDate)
    ensures PrevDay(NextDay(d)) == d
    ensures NextDay(PrevDay(d)) == d
  {
  }

  /** `LocalDate.plusDays(n)`, one calendar day at a time; moves strictly
      forward for positive `n` and strictly backward for negative `n`. */
  function PlusDays(d: LocalDate, n: int): (r: LocalDate)
    ensures n > 0 ==> DateIsBefore(d, r)
    ensures n < 0 ==> DateIsBefore(r, d)
    decreases if n >= 0 then n else -n
  {
    if n == 0 then d
    else if n > 0 then PlusDays(NextDay(d), n - 1)
    else PlusDays(PrevDay(d), n + 1)
  }

  lemma StepForward(d: LocalDate, n: int)
    ensures PlusDays(NextDay(d), n) == PlusDays(d, n + 1)
  {
    if n < 0 {
      NextDayPrevDay(d);
    }
  }

  lemma StepBack(d: LocalDate, n: int)
    ensures PlusDays(PrevDay(d), n) == PlusDays(d, n - 1)
  {
    if n > 0 {
      NextDayPrevDay(d);
    }
  }

  /** Adding days composes: `d.plusDays(a).plusDays(b) == d.plusDays(a + b)`. */
  lemma {:induction false} PlusDaysAdditive(d: LocalDate, a: int, b: int)
    ensures PlusDays(PlusDays(d, a), b) == PlusDays(d, a + b)
    decreases if a >= 0 then a else -a
  {
    if a > 0 {
      PlusDaysAdditive(NextDay(d), a - 1, b);
      StepForward(d, a - 1 + b);
    } else if a < 0 {
      PlusDaysAdditive(PrevDay(d), a + 1, b);
      StepBack(d, a + 1 + b);
    }
  }

  /** Going `n` days forward and `n` days back returns to the same date. */
  lemma PlusDaysRoundTrip(d: LocalDate, n: int)
    ensures PlusDays(PlusDays(d, n), -n) == d
  {
    PlusDaysAdditive(d, n, -n);
  }

  /** Day steps cross month ends, leap days and year ends as the calendar does. */
  lemma PlusDaysExamples()
    ensures PlusDays(Date(2024, 2, 28), 1) == Date(2024, 2, 29)
    ensures PlusDays(Date(2023, 2, 28), 1) == Date(2023, 3, 1)
    ensures PlusDays(Date(2024, 12, 28), 7) == Date(2025, 1, 4)
    ensures PlusDays(Date(2024, 3, 3), -7) == Date(2024, 2, 25)
  {
  }

  /** Later offsets give later dates. */
  lemma PlusDaysMonotone(d: LocalDate, a: int, b: int)
    requires a < b
    ensures DateIsBefore(PlusDays(d, a), PlusDays(d, b))
  {
    PlusDaysAdditive(d, a, b - a);
  }

  // ---------------------------------------------------------------- months

  /** `LocalDate.plusMonths(months)`: count months from year 0, add, split
      the count back into year and month with floor division by 12, and
      clamp the day to the length of the resulting month. */
  function DatePlusMonths(d: LocalDate, months: int): (r: LocalDate)
    ensures r.day <= d.day
    ensures r.day == d.day || r.day == LengthOfMonth(r.year, r.month)
    ensures (r.year * 12 + r.month - 1) - (d.year * 12 + d.month - 1) == months
    ensures months > 0 ==> DateIsBefore(d, r)
    ensures months < 0 ==> DateIsBefore(r, d)
  {
    if months == 0 then d
    else
      var monthCount := d.year * 12 + (d.month - 1);
      var calcMonths := monthCount + months;
      var newYear := calcMonths / 12;
      var newMonth := calcMonths % 12 + 1;
      var length := LengthOfMonth(newYear, newMonth);
      Date(newYear, newMonth, if d.day <= length then d.day else length)
  }

  // ---------------------------------------------------------------- date-times

  /** `LocalDateTime.plusWeeks(weeks)`: seven days per week, same time of day. */
  function PlusWeeks(t: LocalDateTime, weeks: int): LocalDateTime {
    LocalDateTime(PlusDays(t.date, 7 * weeks), t.nanoOfDay)
  }

  /** `LocalDateTime.minusWeeks(weeks)`. */
  function MinusWeeks(t: LocalDateTime, weeks: int): LocalDateTime {
    PlusWeeks(t, -weeks)
  }

  /** `LocalDateTime.plusMonths(months)`: same time of day. */
  function PlusMonths(t: LocalDateTime, months: int): LocalDateTime {
    LocalDateTime(DatePlusMonths(t.date, months), t.nanoOfDay)
  }

  /** `LocalDateTime.minusMonths(months)`. */
  function MinusMonths(t: LocalDateTime, months: int): LocalDateTime {
    PlusMonths(t, -months)
  }

  /** `LocalDate.atStartOfDay()`: midnight of the date. */
  function AtStartOfDay(d: LocalDate): LocalDateTime {
    LocalDateTime(d, 0)
  }

  /** `LocalDate.atTime(LocalTime.MAX)`: 23:59:59.999999999 of the date. */
  function AtEndOfDay(d: LocalDate): LocalDateTime {
    LocalDateTime(d, NanosPerDay - 1)
  }

  /** Adding a positive number of weeks or months moves strictly forward;
      subtracting moves strictly back. */
  lemma ShiftsAreMonotone(t: LocalDateTime, n: int)
    requires n > 0
    ensures IsBefore(t, PlusWeeks(t, n)) && IsBefore(MinusWeeks(t, n), t)
    ensures IsBefore(t, PlusMonths(t, n)) && IsBefore(MinusMonths(t, n), t)
  {
  }

  /** An instant lies between the start and the end of a day exactly when
      it falls on that day. */
  lemma WholeDay(t: LocalDateTime, d: LocalDate)
    ensures IsBetween(t, AtStartOfDay(d), AtEndOfDay(d)) <==> t.date == d
  {
  }

  /** `plusMonths` clamps: 31 January 2024 plus one month is 29 February 2024
      (a leap year), and one month back from there is 29 January, so adding
      and subtracting a month is not a round trip. */
  lemma MonthClampExample()
    ensures DatePlusMonths(Date(2024, 1, 31), 1) == Date(2024, 2, 29)
    ensures DatePlusMonths(Date(2024, 2, 29), -1) == Date(2024, 1, 29)
    ensures DatePlusMonths(Date(2023, 12, 15), 1) == Date(2024, 1, 15)
  {
  }
}
