/** Calendar dates, times of day, durations and their combination, as the plain
    records the EEBUS date-time utilities work on. */
module Chrono {

  /** Outcome of reading a value from text. */
  datatype Parse<T> = Parsed(value: T) | Rejected

  const INT32_MAX: int := 0x7fff_ffff

  /** A 32-bit field whose negation is still a 32-bit value. */
  predicate Negatable(n: int) {
    -INT32_MAX <= n <= INT32_MAX
  }

  predicate Int32(n: int) {
    -INT32_MAX - 1 <= n <= INT32_MAX
  }

  datatype Date = Date(year: int, month: int, day: int)

  datatype Time = Time(hour: int, min: int, sec: int)

  datatype DateTime = DateTime(date: Date, time: Time)

  datatype Duration = Duration(
    years: int, months: int, days: int,
    hours: int, minutes: int, seconds: int, milliseconds: int)

  const ZERO_DURATION := Duration(0, 0, 0, 0, 0, 0, 0)

  /** An absolute-or-relative time carries its own tag. */
  datatype AbsoluteOrRelative = Relative(duration: Duration) | Absolute(dateTime: DateTime)

  predicate IsLeapYear(year: int) {
    (year % 4 == 0 && year % 100 != 0) || year % 400 == 0
  }

  /** Zero for a month number outside 1..12. */
  function DaysInMonth(year: int, month: int): (n: int)
    ensures 1 <= month <= 12 ==> 28 <= n <= 31
  {
    if month < 1 || month > 12 then 0
    else if month == 2 then (if IsLeapYear(year) then 29 else 28)
    else if month in {4, 6, 9, 11} then 30
    else 31
  }

  /** A real calendar day: month and day in range, any year. */
  predicate OnCalendar(d: Date) {
    1 <= d.month <= 12 && 1 <= d.day <= DaysInMonth(d.year, d.month)
  }

  predicate DateValid(d: Date) {
    0 <= d.year <= 2100 && OnCalendar(d)
  }

  predicate TimeValid(t: Time) {
    0 <= t.hour < 24 && 0 <= t.min < 60 && 0 <= t.sec < 60
  }

  predicate DateTimeValid(dt: DateTime) {
    DateValid(dt.date) && TimeValid(dt.time)
  }

  predicate DurationIsZero(d: Duration) {
    d == ZERO_DURATION
  }

  predicate DurationIsNegative(d: Duration) {
    && !DurationIsZero(d)
    && d.years <= 0 && d.months <= 0 && d.days <= 0
    && d.hours <= 0 && d.minutes <= 0 && d.seconds <= 0 && d.milliseconds <= 0
  }

  predicate DurationIsPositive(d: Duration) {
    && !DurationIsZero(d)
    && d.years >= 0 && d.months >= 0 && d.days >= 0
    && d.hours >= 0 && d.minutes >= 0 && d.seconds >= 0 && d.milliseconds >= 0
  }

  predicate DurationValid(d: Duration) {
    DurationIsZero(d) || DurationIsNegative(d) || DurationIsPositive(d)
  }

  /** Every field can be negated without leaving 32 bits. */
  predicate DurationNegatable(d: Duration) {
    && Negatable(d.years) && Negatable(d.months) && Negatable(d.days)
    && Negatable(d.hours) && Negatable(d.minutes) && Negatable(d.seconds)
    && Negatable(d.milliseconds)
  }

  function InvertSign(d: Duration): Duration {
    Duration(-d.years, -d.months, -d.days, -d.hours, -d.minutes, -d.seconds, -d.milliseconds)
  }
}
