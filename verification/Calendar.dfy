/** Date-time arithmetic against the absolute count of seconds in the Gregorian calendar. */
module Calendar {
  import opened Chrono

  // ---------------------------------------------------------------- the absolute count

  function DaysInYear(year: int): int {
    if IsLeapYear(year) then 366 else 365
  }

  /** Days from 1 January of year 0 to 1 January of `year`, in either direction. */
  function DaysBeforeYear(year: int): int
    decreases if year >= 0 then year else -year
  {
    if year == 0 then 0
    else if year > 0 then DaysBeforeYear(year - 1) + DaysInYear(year - 1)
    else DaysBeforeYear(year + 1) - DaysInYear(year)
  }

  function MonthStart(year: int, month: int): int
    requires 1 <= month <= 12
    decreases month
  {
    if month == 1 then DaysBeforeYear(year)
    else MonthStart(year, month - 1) + DaysInMonth(year, month - 1)
  }

  /** The day may lie outside its month. */
  function DayNumber(d: Date): int
    requires 1 <= d.month <= 12
  {
    MonthStart(d.year, d.month) + d.day - 1
  }

  function SecondOfDay(t: Time): int {
    3600 * t.hour + 60 * t.min + t.sec
  }

  function Instant(dt: DateTime): int
    requires 1 <= dt.date.month <= 12
  {
    86400 * DayNumber(dt.date) + SecondOfDay(dt.time)
  }

  predicate OnClock(dt: DateTime) {
    OnCalendar(dt.date) && TimeValid(dt.time)
  }

  lemma YearLength(year: int)
    ensures DaysBeforeYear(year + 1) == DaysBeforeYear(year) + DaysInYear(year)
  {
  }

  /** 365 days a year and one more for every multiple of 4 that is not one of 100 unless of
      400. */
  function GregorianFormula(year: int): int {
    365 * year + (year + 3) / 4 - (year + 99) / 100 + (year + 399) / 400
  }

  lemma MultiplesNest(year: int)
    ensures year % 100 == 0 ==> year % 4 == 0
    ensures year % 400 == 0 ==> year % 100 == 0
  {
    if year % 100 == 0 {
      assert year == 4 * (25 * (year / 100));
    }
    if year % 400 == 0 {
      assert year == 100 * (4 * (year / 400));
    }
  }

  /** Multiples of `k` below `year + 1` and below `year` differ by whether `year` is one. */
  lemma LeapCount(year: int, k: int)
    requires k == 4 || k == 100 || k == 400
    ensures (year + k) / k == (year + (k - 1)) / k + if year % k == 0 then 1 else 0
  {
  }

  lemma FormulaStep(year: int)
    ensures GregorianFormula(year + 1) == GregorianFormula(year) + DaysInYear(year)
  {
    LeapCount(year, 4);
    LeapCount(year, 100);
    LeapCount(year, 400);
    MultiplesNest(year);
  }

  /** The count agrees with the closed formula of the proleptic Gregorian calendar. */
  lemma {:induction false} DaysBeforeYearClosedForm(year: int)
    ensures DaysBeforeYear(year) == GregorianFormula(year)
    decreases if year >= 0 then year else -year
  {
    if year > 0 {
      DaysBeforeYearClosedForm(year - 1);
      FormulaStep(year - 1);
    } else if year < 0 {
      DaysBeforeYearClosedForm(year + 1);
      FormulaStep(year);
    }
  }

  function NextMonth(year: int, month: int): (int, int) {
    if month == 12 then (year + 1, 1) else (year, month + 1)
  }

  function PreviousMonth(d: Date): Date {
    if d.month == 1 then Date(d.year - 1, 12, d.day) else Date(d.year, d.month - 1, d.day)
  }

  lemma YearIsItsMonths(year: int)
    ensures MonthStart(year, 12) + 31 == DaysBeforeYear(year) + DaysInYear(year)
  {
    assert MonthStart(year, 3) == DaysBeforeYear(year) + 31 + DaysInMonth(year, 2);
    assert MonthStart(year, 5) == MonthStart(year, 3) + 61;
    assert MonthStart(year, 7) == MonthStart(year, 5) + 61;
    assert MonthStart(year, 9) == MonthStart(year, 7) + 62;
    assert MonthStart(year, 11) == MonthStart(year, 9) + 61;
  }

  lemma DecemberLength(year: int)
    ensures MonthStart(year + 1, 1) == MonthStart(year, 12) + 31
  {
    YearLength(year);
    YearIsItsMonths(year);
  }

  lemma EarlierMonthLength(year: int, month: int)
    requires 1 <= month < 12
    ensures MonthStart(year, month + 1) == MonthStart(year, month) + DaysInMonth(year, month)
  {
  }

  lemma MonthLength(year: int, month: int)
    requires 1 <= month <= 12
    ensures var (y, m) := NextMonth(year, month); MonthStart(y, m) == MonthStart(year, month) + DaysInMonth(year, month)
  {
    if month == 12 {
      DecemberLength(year);
    } else {
      EarlierMonthLength(year, month);
    }
  }

  /** Days of the year before a month: 367/12 a month, less the days February lacks. */
  function MonthFormula(year: int, month: int): int {
    (367 * month - 362) / 12 - (if month <= 2 then 0 else if IsLeapYear(year) then 1 else 2)
  }

  lemma MonthFormulaStep(year: int, month: int)
    requires 1 <= month < 12
    ensures MonthFormula(year, month + 1) == MonthFormula(year, month) + DaysInMonth(year, month)
  {
  }

  /** The month table agrees with that closed formula. */
  lemma {:induction false} MonthStartClosedForm(year: int, month: int)
    requires 1 <= month <= 12
    ensures MonthStart(year, month) == DaysBeforeYear(year) + MonthFormula(year, month)
    decreases month
  {
    if month > 1 {
      MonthStartClosedForm(year, month - 1);
      MonthFormulaStep(year, month - 1);
    }
  }

  lemma {:induction false} YearsAreOrdered(y1: int, y2: int)
    requires y1 < y2
    ensures MonthStart(y1, 12) + 31 <= DaysBeforeYear(y2)
    decreases y2 - y1
  {
    YearLength(y2 - 1);
    YearIsItsMonths(y1);
    if y1 + 1 < y2 {
      YearsAreOrdered(y1, y2 - 1);
    }
  }

  lemma {:induction false} MonthsAreOrdered(year: int, m1: int, m2: int)
    requires 1 <= m1 < m2 <= 12
    ensures MonthStart(year, m1) + DaysInMonth(year, m1) <= MonthStart(year, m2)
    decreases m2 - m1
  {
    MonthLength(year, m2 - 1);
    if m1 + 1 < m2 {
      MonthsAreOrdered(year, m1, m2 - 1);
    }
  }

  // ---------------------------------------------------------------- comparison

  function CompareDates(a: Date, b: Date): int {
    if a.year != b.year then a.year - b.year
    else if a.month != b.month then a.month - b.month
    else if a.day != b.day then a.day - b.day
    else 0
  }

  function CompareTimes(a: Time, b: Time): int {
    if a.hour != b.hour then a.hour - b.hour
    else if a.min != b.min then a.min - b.min
    else a.sec - b.sec
  }

  function CompareDateTimes(a: DateTime, b: DateTime): int {
    if CompareDates(a.date, b.date) != 0 then CompareDates(a.date, b.date)
    else CompareTimes(a.time, b.time)
  }

  lemma EarlierDate(a: Date, b: Date)
    requires OnCalendar(a) && OnCalendar(b) && CompareDates(a, b) < 0
    ensures DayNumber(a) < DayNumber(b)
  {
    if a.year < b.year {
      YearsAreOrdered(a.year, b.year);
      if a.month < 12 {
        MonthsAreOrdered(a.year, a.month, 12);
      }
      if b.month > 1 {
        MonthsAreOrdered(b.year, 1, b.month);
      }
    } else if a.month < b.month {
      MonthsAreOrdered(a.year, a.month, b.month);
    }
  }

  /** Comparison orders date-times exactly as their absolute second counts. */
  lemma CompareIsChronological(a: DateTime, b: DateTime)
    requires OnClock(a) && OnClock(b)
    ensures CompareDateTimes(a, b) < 0 <==> Instant(a) < Instant(b)
    ensures CompareDateTimes(a, b) == 0 <==> Instant(a) == Instant(b)
    ensures CompareDateTimes(a, b) == 0 <==> a == b
  {
    if CompareDates(a.date, b.date) < 0 {
      EarlierDate(a.date, b.date);
    } else if CompareDates(a.date, b.date) > 0 {
      EarlierDate(b.date, a.date);
    }
  }

  // ---------------------------------------------------------------- the inverse count

  function Tomorrow(d: Date): Date {
    if d.day < DaysInMonth(d.year, d.month) then d.(day := d.day + 1)
    else var (y, m) := NextMonth(d.year, d.month); Date(y, m, 1)
  }

  function Yesterday(d: Date): Date {
    if d.day > 1 then d.(day := d.day - 1)
    else var p := PreviousMonth(d); p.(day := DaysInMonth(p.year, p.month))
  }

  lemma TomorrowIsNext(d: Date)
    requires OnCalendar(d)
    ensures OnCalendar(Tomorrow(d)) && DayNumber(Tomorrow(d)) == DayNumber(d) + 1
  {
    MonthLength(d.year, d.month);
  }

  lemma YesterdayIsPrevious(d: Date)
    requires OnCalendar(d)
    ensures OnCalendar(Yesterday(d)) && DayNumber(Yesterday(d)) == DayNumber(d) - 1
  {
    var p := PreviousMonth(d);
    MonthLength(p.year, p.month);
  }

  /** The date a day count belongs to. */
  function DateOn(day: int): Date
    decreases if day >= 0 then day else -day
  {
    if day == 0 then Date(0, 1, 1) else if day > 0 then Tomorrow(DateOn(day - 1)) else Yesterday(DateOn(day + 1))
  }

  lemma {:induction false} EveryDayHasADate(day: int)
    ensures OnCalendar(DateOn(day)) && DayNumber(DateOn(day)) == day
    decreases if day >= 0 then day else -day
  {
    if day > 0 {
      EveryDayHasADate(day - 1);
      TomorrowIsNext(DateOn(day - 1));
    } else if day < 0 {
      EveryDayHasADate(day + 1);
      YesterdayIsPrevious(DateOn(day + 1));
    }
  }

  /** The calendar is exactly the dates that some day count belongs to. */
  lemma CalendarIsCounted(d: Date)
    ensures OnCalendar(d) <==> exists day :: DateOn(day) == d
  {
    if OnCalendar(d) {
      var day := DayNumber(d);
      EveryDayHasADate(day);
      var e := DateOn(day);
      if CompareDates(d, e) < 0 {
        EarlierDate(d, e);
      } else if CompareDates(d, e) > 0 {
        EarlierDate(e, d);
      }
      assert DateOn(day) == d;
    } else {
      forall day ensures DateOn(day) != d {
        EveryDayHasADate(day);
      }
    }
  }

  /** A valid date is a calendar date of the years 0 to 2100; a valid time is one that a second of
      the day is shown as. */
  lemma ValidMoments(d: Date, t: Time)
    ensures DateValid(d) <==> OnCalendar(d) && 0 <= d.year && d.year < 2101
    ensures TimeValid(t) <==>
      exists n :: 0 <= n < 86400 && t == Time(n / 3600, n / 60 % 60, n % 60)
  {
    if TimeValid(t) {
      var n := SecondOfDay(t);
      assert n / 60 == 60 * t.hour + t.min;
      assert n / 3600 == t.hour && n / 60 % 60 == t.min && n % 60 == t.sec;
    }
  }

  /** The fixed lengths of the total: years of 365 days, months of 30. */
  lemma SecondsOfDuration(d: Duration)
    requires DurationValid(d)
    ensures
      var ms := 1000 * ToSeconds(d)
        - 86400000 * (365 * d.years + 30 * d.months + d.days)
        - 3600000 * d.hours - 60000 * d.minutes - 1000 * d.seconds;
      ms % 1000 == 0 && (d.milliseconds >= 0 ==> ms <= d.milliseconds < ms + 1000)
      && (d.milliseconds <= 0 ==> ms - 1000 < d.milliseconds <= ms)
  {
  }

  /** Valid durations are those without fields of opposite sign. */
  lemma ValidDurations(d: Duration)
    ensures
      var fields := [d.years, d.months, d.days, d.hours, d.minutes, d.seconds, d.milliseconds];
      DurationValid(d) <==> forall i, j | 0 <= i < 7 && 0 <= j < 7 :: !(fields[i] < 0 < fields[j])
  {
    var fields := [d.years, d.months, d.days, d.hours, d.minutes, d.seconds, d.milliseconds];
    assert fields[0] == d.years && fields[1] == d.months && fields[2] == d.days && fields[3] == d.hours
        && fields[4] == d.minutes && fields[5] == d.seconds && fields[6] == d.milliseconds;
    if !DurationIsPositive(d) && !DurationIsZero(d) {
      assert exists i | 0 <= i < 7 :: fields[i] < 0;
    }
    if !DurationIsNegative(d) && !DurationIsZero(d) {
      assert exists j | 0 <= j < 7 :: fields[j] > 0;
    }
  }

  /** The date-time an absolute count belongs to. */
  function DateTimeAt(instant: int): DateTime {
    var second := instant % 86400;
    DateTime(DateOn(instant / 86400), Time(second / 3600, second / 60 % 60, second % 60))
  }

  /** Every absolute count belongs to a calendar date-time, and by `CompareIsChronological` to one
      only. */
  lemma EveryInstantIsShown(instant: int)
    ensures OnClock(DateTimeAt(instant)) && Instant(DateTimeAt(instant)) == instant
  {
    EveryDayHasADate(instant / 86400);
  }

  // ---------------------------------------------------------------- adding a duration

  /** The part of a duration the clock arithmetic adds: days and below, whole seconds. */
  function ClockSeconds(d: Duration): int {
    86400 * d.days + 3600 * d.hours + 60 * d.minutes + d.seconds
  }

  /** Total seconds by the fixed approximations of 365-day years and 30-day months; the
      division of the milliseconds truncates toward zero. */
  function ToSeconds(d: Duration): int {
    if !DurationValid(d) then 0
    else
      31536000 * d.years + 2592000 * d.months + ClockSeconds(d)
      + if d.milliseconds >= 0 then d.milliseconds / 1000 else -((-d.milliseconds) / 1000)
  }

  function MonthIndex(d: Date): int {
    12 * d.year + d.month
  }

  lemma SameMonth(a: Date, b: Date)
    requires 1 <= a.month <= 12 && 1 <= b.month <= 12 && MonthIndex(a) == MonthIndex(b)
    ensures a.year == b.year && a.month == b.month
  {
  }

  /** What adding `d` makes of `before`: the calendar date-time exactly the clock seconds away,
      then moved by whole months with its day number kept. Years and milliseconds do not
      enter. */
  ghost predicate Advanced(before: DateTime, d: Duration, after: DateTime)
    requires 1 <= before.date.month <= 12
  {
    exists mid: DateTime :: Shows(mid, Instant(before) + ClockSeconds(d)) && MovedByMonths(mid, d.months, after)
  }

  /** The calendar date-time with the given absolute count. */
  predicate Shows(dt: DateTime, instant: int) {
    OnClock(dt) && Instant(dt) == instant
  }

  predicate MovedByMonths(mid: DateTime, months: int, after: DateTime) {
    && after.time == mid.time && after.date.day == mid.date.day
    && 1 <= after.date.month <= 12 && MonthIndex(after.date) == MonthIndex(mid.date) + months
  }

  lemma SumIs(before: DateTime, d: Duration, mid: DateTime, after: DateTime)
    requires 1 <= before.date.month <= 12
    requires Shows(mid, Instant(before) + ClockSeconds(d)) && MovedByMonths(mid, d.months, after)
    ensures Advanced(before, d, after)
  {
  }

  /** The outcome is determined by this. */
  lemma AdvancedIsUnique(before: DateTime, d: Duration, x: DateTime, y: DateTime)
    requires 1 <= before.date.month <= 12 && Advanced(before, d, x) && Advanced(before, d, y)
    ensures x == y
  {
    var n := Instant(before) + ClockSeconds(d);
    var a: DateTime :| Shows(a, n) && MovedByMonths(a, d.months, x);
    var b: DateTime :| Shows(b, n) && MovedByMonths(b, d.months, y);
    OneDateTimePerInstant(a, b);
    SameMonth(x.date, y.date);
  }

  lemma MonthsOnly(before: DateTime, d: Duration, after: DateTime)
    requires OnClock(before) && ClockSeconds(d) == 0 && MovedByMonths(before, d.months, after)
    ensures Advanced(before, d, after)
  {
    assert Shows(before, Instant(before) + ClockSeconds(d));
  }

  /** Whole months keep the day number, so the sum may name a day its month does not have: a
      month after 31 January is 31 February. */
  lemma MonthsCanLeaveCalendar(before: DateTime, d: Duration, after: DateTime)
    requires OnClock(before) && before.date.month == 1 && before.date.day == 31
    requires ClockSeconds(d) == 0 && d.months == 1
    requires after.date == Date(before.date.year, 2, 31) && after.time == before.time
    ensures Advanced(before, d, after) && !OnCalendar(after.date)
  {
    MonthsOnly(before, d, after);
  }

  /** The month `months` after that of `d`, as year and month. */
  function MonthAfter(d: Date, months: int): (int, int) {
    var k := MonthIndex(d) + months - 1;
    (k / 12, k % 12 + 1)
  }

  lemma MovesToMonthAfter(mid: DateTime, months: int, after: DateTime)
    requires MovedByMonths(mid, months, after)
    ensures (after.date.year, after.date.month) == MonthAfter(mid.date, months)
  {
    var k := MonthIndex(mid.date) + months - 1;
    assert 12 * after.date.year + (after.date.month - 1) == k;
  }

  /** Which sums stay on the calendar, told from the arguments: those where the month `d.months`
      on has the day that lies the clock seconds away. */
  lemma SumStaysOnCalendar(before: DateTime, d: Duration, after: DateTime)
    requires 1 <= before.date.month <= 12 && Advanced(before, d, after)
    ensures
      var mid := DateTimeAt(Instant(before) + ClockSeconds(d));
      var (year, month) := MonthAfter(mid.date, d.months);
      OnClock(after) <==> mid.date.day <= DaysInMonth(year, month)
  {
    var n := Instant(before) + ClockSeconds(d);
    var mid: DateTime :| Shows(mid, n) && MovedByMonths(mid, d.months, after);
    EveryInstantIsShown(n);
    CompareIsChronological(mid, DateTimeAt(n));
    MovesToMonthAfter(mid, d.months, after);
  }

  lemma NoMonthsNoMove(mid: DateTime, after: DateTime)
    requires 1 <= mid.date.month <= 12 && MovedByMonths(mid, 0, after)
    ensures after == mid
  {
    SameMonth(after.date, mid.date);
  }

  lemma WholeSeconds(d: Duration)
    requires DurationValid(d) && d.months == 0
    ensures ToSeconds(d) == ClockSeconds(d) <==> d.years == 0 && -1000 < d.milliseconds < 1000
  {
  }

  lemma AdvancedWithoutMonths(before: DateTime, d: Duration, after: DateTime)
    requires 1 <= before.date.month <= 12 && Advanced(before, d, after) && d.months == 0
    ensures Shows(after, Instant(before) + ClockSeconds(d))
  {
    var n := Instant(before) + ClockSeconds(d);
    var mid: DateTime :| Shows(mid, n) && MovedByMonths(mid, d.months, after);
    NoMonthsNoMove(mid, after);
  }

  /** A month-free sum is on the calendar, and the absolute count moves by the duration's seconds
      exactly when the duration has no years and no whole second in its milliseconds. */
  lemma AdvancedMovesBySeconds(before: DateTime, d: Duration, after: DateTime)
    requires 1 <= before.date.month <= 12 && DurationValid(d) && d.months == 0 && Advanced(before, d, after)
    ensures OnClock(after)
    ensures Instant(after) == Instant(before) + ToSeconds(d) <==> d.years == 0 && -1000 < d.milliseconds < 1000
  {
    AdvancedWithoutMonths(before, d, after);
    WholeSeconds(d);
  }

  lemma OneDateTimePerInstant(a: DateTime, b: DateTime)
    requires OnClock(a) && Shows(b, Instant(a))
    ensures a == b
  {
    CompareIsChronological(a, b);
  }

  /** Adding such a duration and then its opposite returns to the start. */
  lemma InvertedDurationUndoes(a: DateTime, d: Duration, b: DateTime, c: DateTime)
    requires OnClock(a) && d.months == 0
    requires Advanced(a, d, b) && 1 <= b.date.month <= 12 && Advanced(b, InvertSign(d), c)
    ensures c == a
  {
    AdvancedWithoutMonths(a, d, b);
    AdvancedWithoutMonths(b, InvertSign(d), c);
    assert ClockSeconds(InvertSign(d)) == -ClockSeconds(d);
    OneDateTimePerInstant(a, c);
  }

  /** C's remainder, which has the sign of the dividend. */
  function TruncatedMod(a: int, m: int): int
    requires m > 0
  {
    if a >= 0 then a % m else -((-a) % m)
  }

  /** Carries what does not fit into the next field, in 32 bits. */
  method Normalize(field: int, next: int, max: int) returns (field': int, next': int)
    requires max > 0 && Negatable(field) && Int32(next) && Int32(next + field / max)
    ensures 0 <= field' < max && field == max * (next' - next) + field'
  {
    field', next' := field, next;
    var rem := TruncatedMod(field, max);
    if field >= max {
      next' := next + field / max;
      field' := rem;
    } else if field < 0 {
      if rem == 0 {
        next' := next - (-field) / max;
        field' := 0;
      } else {
        next' := next - (1 + (-field) / max);
        field' := max + rem;
      }
    }
  }

  lemma CarriesAddUp(before: DateTime, d: Duration, sec: int, min1: int, min: int, hour1: int, hour: int, day: int)
    requires before.time.sec + d.seconds == 60 * (min1 - before.time.min) + sec
    requires min1 + d.minutes == 60 * (hour1 - before.time.hour) + min
    requires hour1 + d.hours == 24 * (day - before.date.day) + hour
    ensures 86400 * (day + d.days - before.date.day) + SecondOfDay(Time(hour, min, sec))
         == SecondOfDay(before.time) + ClockSeconds(d)
  {
  }

  /** The sums the code forms stay clear of the 32-bit limits. */
  predicate NoOverflow(dt: DateTime, d: Duration) {
    var sec := dt.time.sec + d.seconds;
    var min := dt.time.min + sec / 60 + d.minutes;
    var hour := dt.time.hour + min / 60 + d.hours;
    var day := dt.date.day + hour / 24 + d.days;
    Negatable(sec) && Negatable(min) && Negatable(hour) && Negatable(day)
    && Negatable(d.months) && Negatable(12 + d.months)
  }

  /** A date-time structure updated in place. */
  class DateTimeBuffer {
    var date: Date
    var time: Time

    function View(): DateTime
      reads this
    {
      DateTime(date, time)
    }

    constructor (dt: DateTime)
      ensures View() == dt
    {
      date, time := dt.date, dt.time;
    }

    method NormalizeMonths()
      requires Int32(date.month) && Negatable(date.month - 1)
      requires Int32(date.year) && Int32(date.year + (date.month - 1) / 12)
      modifies this`date
      ensures 1 <= date.month <= 12 && MonthIndex(date) == old(MonthIndex(date)) && date.day == old(date.day)
    {
      var month, year := Normalize(date.month - 1, date.year, 12);
      date := Date(year, month + 1, date.day);
    }

    /** Walks month by month until the day fits; the year moves by at most one for 28 days. */
    method NormalizeDays()
      requires 1 <= date.month <= 12 && -10000 <= date.year <= 10000 && Int32(date.day) && Int32(date.day - 1)
      modifies this`date
      ensures OnCalendar(date) && DayNumber(date) == old(DayNumber(date))
      ensures -100_000_000 < date.year < 100_000_000
    {
      ghost var target, year, first := DayNumber(date), date.year, date.day - 1;
      date := date.(day := date.day - 1);
      var daysInMonth := DaysInMonth(date.year, date.month);
      if date.day > 0 {
        while date.day >= daysInMonth
          invariant 1 <= date.month <= 12 && 0 <= date.day && daysInMonth == DaysInMonth(date.year, date.month)
          invariant MonthStart(date.year, date.month) + date.day == target
          invariant year <= date.year && 28 * (date.year - year) + date.day <= first
          decreases date.day
        {
          MonthLength(date.year, date.month);
          ghost var following := NextMonth(date.year, date.month);
          date := date.(day := date.day - daysInMonth, month := date.month + 1);
          NormalizeMonths();
          SameMonth(date, Date(following.0, following.1, 0));
          daysInMonth := DaysInMonth(date.year, date.month);
        }
      } else {
        while date.day < 0
          invariant 1 <= date.month <= 12
          invariant date.day < DaysInMonth(date.year, date.month)
          invariant MonthStart(date.year, date.month) + date.day == target
          invariant date.year <= year && 28 * (year - date.year) + first <= date.day
          decreases -date.day
        {
          ghost var current := date;
          date := date.(month := date.month - 1);
          NormalizeMonths();
          SameMonth(date, PreviousMonth(current));
          MonthLength(date.year, date.month);
          daysInMonth := DaysInMonth(date.year, date.month);
          date := date.(day := date.day + daysInMonth);
        }
      }
      date := date.(day := date.day + 1);
    }

    /** Seconds, minutes, hours and days, carried into the day field. */
    method AddClock(d: Duration)
      requires OnClock(View()) && NoOverflow(View(), d)
      modifies this
      ensures TimeValid(time) && date == old(date).(day := date.day) && Negatable(date.day)
      ensures Instant(View()) == old(Instant(View())) + ClockSeconds(d)
    {
      ghost var before := View();
      var sec, min1 := Normalize(time.sec + d.seconds, time.min, 60);
      assert Int32(min1);
      var min, hour1 := Normalize(min1 + d.minutes, time.hour, 60);
      assert Int32(hour1);
      var hour, day := Normalize(hour1 + d.hours, date.day, 24);
      assert Int32(day);
      CarriesAddUp(before, d, sec, min1, min, hour1, hour, day);
      time := Time(hour, min, sec);
      date := date.(day := day + d.days);
    }

    /** Refuses invalid arguments; otherwise the sum described by `Advanced`. */
    method AddDuration(d: Duration) returns (ok: bool)
      requires DateTimeValid(View()) && DurationValid(d) ==> NoOverflow(View(), d)
      modifies this
      ensures ok <==> DateTimeValid(old(View())) && DurationValid(d)
      ensures !ok ==> View() == old(View())
      ensures ok ==> Advanced(old(View()), d, View())
    {
      if !DateTimeValid(View()) || !DurationValid(d) {
        return false;
      }
      AddClock(d);
      NormalizeDays();
      ghost var mid := View();
      assert Shows(mid, old(Instant(View())) + ClockSeconds(d));
      assert Int32(date.month + d.months);
      date := date.(month := date.month + d.months);
      NormalizeMonths();
      SumIs(old(View()), d, mid, View());
      return true;
    }
  }
}
