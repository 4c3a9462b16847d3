/** Printing and parsing of dates, times, date-times and absolute-or-relative times. */
module MomentText {
  import opened Chrono
  import opened Decimal
  import opened DurationText

  /** `%04d-%02d-%02d` */
  function DateText(d: Date): string
    requires DateValid(d)
  {
    Padded(d.year, 4) + ("-" + (Padded(d.month, 2) + ("-" + Padded(d.day, 2))))
  }

  /** `%02d:%02d:%02dZ` */
  function TimeText(t: Time): string
    requires TimeValid(t)
  {
    Padded(t.hour, 2) + (":" + (Padded(t.min, 2) + (":" + (Padded(t.sec, 2) + "Z"))))
  }

  function DateToString(d: Date): Parse<string> {
    if DateValid(d) then Parsed(DateText(d)) else Rejected
  }

  function TimeToString(t: Time): Parse<string> {
    if TimeValid(t) then Parsed(TimeText(t)) else Rejected
  }

  function DateTimeToString(dt: DateTime): Parse<string> {
    if DateTimeValid(dt) then Parsed(DateText(dt.date) + ("T" + TimeText(dt.time))) else Rejected
  }

  function MomentToString(m: AbsoluteOrRelative): Parse<string> {
    match m
    case Relative(d) => DurationText.ToString(d)
    case Absolute(dt) => DateTimeToString(dt)
  }

  /** A number and the separator behind it. */
  function NumberBefore(s: string, separator: char): (r: Number)
    ensures r.Number? ==> |r.rest| < |s|
  {
    match Strtol(s)
    case NoNumber => NoNumber
    case Number(n, rest) => if At(rest) == separator && rest != "" then Number(n, rest[1..]) else NoNumber
  }

  function ParseDate(s: string): Parse<Date> {
    var year := NumberBefore(s, '-');
    if year.NoNumber? then Rejected
    else
      var month := NumberBefore(year.rest, '-');
      if month.NoNumber? then Rejected
      else
        var day := Strtol(month.rest);
        if day.NoNumber? || day.rest != "" then Rejected
        else
          var d := Date(year.value, month.value, day.value);
          if DateValid(d) then Parsed(d) else Rejected
  }

  function AfterFraction(s: string): string {
    if At(s) == '.' then s[1 + |DigitPrefix(s[1..])|..] else s
  }

  /** Fractional seconds are skipped; anything may follow a 'Z'. */
  function ParseTime(s: string): Parse<Time> {
    var hour := NumberBefore(s, ':');
    if hour.NoNumber? then Rejected
    else
      var min := NumberBefore(hour.rest, ':');
      if min.NoNumber? then Rejected
      else
        var sec := Strtol(min.rest);
        if sec.NoNumber? then Rejected
        else
          var tail := AfterFraction(sec.rest);
          var t := Time(hour.value, min.value, sec.value);
          if (tail == "" || tail[0] == 'Z') && TimeValid(t) then Parsed(t) else Rejected
  }

  function IndexOf(s: string, c: char): (i: nat)
    ensures i <= |s| && (i < |s| ==> s[i] == c)
    ensures forall j | 0 <= j < i :: s[j] != c
  {
    if s == "" || s[0] == c then 0 else 1 + IndexOf(s[1..], c)
  }

  const DATE_BUF_SIZE := |"YYYY-MM-DD"| + 1

  function Join(date: Parse<Date>, time: Parse<Time>): Parse<DateTime> {
    if date.Parsed? && time.Parsed? then Parsed(DateTime(date.value, time.value)) else Rejected
  }

  /** The texts before and after the first 'T'; the first has to fit the parser's buffer. */
  function SplitDateTime(s: string): Parse<(string, string)> {
    var t := IndexOf(s, 'T');
    if t == |s| || t >= DATE_BUF_SIZE then Rejected else Parsed((s[..t], s[t + 1..]))
  }

  function ParseDateTime(s: string): Parse<DateTime> {
    match SplitDateTime(s)
    case Rejected => Rejected
    case Parsed((date, time)) => Join(ParseDate(date), ParseTime(time))
  }

  /** The duration form is tried first. */
  function ParseMoment(s: string): Parse<AbsoluteOrRelative> {
    match ParseDuration(s)
    case Parsed(d) => Parsed(Relative(d))
    case Rejected =>
      match ParseDateTime(s)
      case Parsed(dt) => Parsed(Absolute(dt))
      case Rejected => Rejected
  }

  // ---------------------------------------------------------------- round trips

  lemma PaddedReads(n: nat, width: nat, rest: string)
    requires n <= 2100 && (rest == "" || !IsDigit(rest[0]))
    ensures Strtol(Padded(n, width) + rest) == Number(n, rest)
  {
    PaddedDenotes(n, width);
    StrtolReads(Padded(n, width), rest);
  }

  lemma PaddedReadsBefore(n: nat, width: nat, c: char, rest: string)
    requires n <= 2100 && !IsDigit(c)
    ensures NumberBefore(Padded(n, width) + ([c] + rest), c) == Number(n, rest)
  {
    PaddedReads(n, width, [c] + rest);
    assert ([c] + rest)[1..] == rest;
  }

  lemma DateRoundTrip(d: Date)
    requires DateValid(d)
    ensures ParseDate(DateText(d)) == Parsed(d)
  {
    var day := Padded(d.day, 2);
    PaddedReadsBefore(d.year, 4, '-', Padded(d.month, 2) + ("-" + day));
    PaddedReadsBefore(d.month, 2, '-', day);
    PaddedReads(d.day, 2, "");
    assert day + "" == day;
  }

  lemma TimeRoundTrip(t: Time)
    requires TimeValid(t)
    ensures ParseTime(TimeText(t)) == Parsed(t)
  {
    var sec := Padded(t.sec, 2) + "Z";
    PaddedReadsBefore(t.hour, 2, ':', Padded(t.min, 2) + (":" + sec));
    PaddedReadsBefore(t.min, 2, ':', sec);
    PaddedReads(t.sec, 2, "Z");
  }

  lemma DigitsBefore(d: string, c: char, rest: string)
    requires d != "" && AllDigits(d) && !IsDigit(c)
    ensures NumberBefore(d + ([c] + rest), c) == Number(Clamp(ValueOf(0, d)), rest)
  {
    StrtolReads(d, [c] + rest);
    assert ([c] + rest)[1..] == rest;
  }

  lemma DateOfParts(s: string, afterYear: string, day: string, year: int, month: int, n: int)
    requires NumberBefore(s, '-') == Number(year, afterYear) && NumberBefore(afterYear, '-') == Number(month, day)
    requires Strtol(day) == Number(n, "")
    ensures ParseDate(s) == if DateValid(Date(year, month, n)) then Parsed(Date(year, month, n)) else Rejected
  {
  }

  /** Digits of any length between hyphens are a date exactly when they make a valid one. */
  lemma DateReads(year: string, month: string, day: string)
    requires year != "" && AllDigits(year) && month != "" && AllDigits(month) && day != "" && AllDigits(day)
    ensures
      var d := Date(Clamp(ValueOf(0, year)), Clamp(ValueOf(0, month)), Clamp(ValueOf(0, day)));
      ParseDate(year + ("-" + (month + ("-" + day)))) == if DateValid(d) then Parsed(d) else Rejected
  {
    var afterYear := month + ("-" + day);
    DigitsBefore(year, '-', afterYear);
    DigitsBefore(month, '-', day);
    StrtolReads(day, "");
    assert day + "" == day;
    DateOfParts(year + ("-" + afterYear), afterYear, day,
                Clamp(ValueOf(0, year)), Clamp(ValueOf(0, month)), Clamp(ValueOf(0, day)));
  }

  lemma TimeOfParts(s: string, afterHour: string, afterMin: string, end: string, hour: int, min: int, sec: int)
    requires NumberBefore(s, ':') == Number(hour, afterHour) && NumberBefore(afterHour, ':') == Number(min, afterMin)
    requires Strtol(afterMin) == Number(sec, end)
    ensures
      var t, tail := Time(hour, min, sec), AfterFraction(end);
      ParseTime(s) == if TimeValid(t) && (tail == "" || tail[0] == 'Z') then Parsed(t) else Rejected
  {
  }

  lemma FractionIsSkipped(hasFraction: bool, fraction: string, tail: string)
    requires AllDigits(fraction) && (tail == "" || !IsDigit(tail[0])) && (!hasFraction ==> At(tail) != '.')
    ensures AfterFraction(if hasFraction then "." + (fraction + tail) else tail) == tail
  {
    if hasFraction {
      var s := "." + (fraction + tail);
      assert s[1..] == fraction + tail;
      DigitPrefixStops(fraction, tail);
      assert s[1 + |fraction|..] == tail;
    }
  }

  /** Digits between colons, then nothing or a 'Z' and anything, with any fraction of a second in
      between, are a time exactly when they make a valid one; anything else behind them is
      refused. */
  lemma TimeReads(hour: string, min: string, sec: string, hasFraction: bool, fraction: string, tail: string)
    requires hour != "" && AllDigits(hour) && min != "" && AllDigits(min) && sec != "" && AllDigits(sec)
    requires AllDigits(fraction) && (tail == "" || !IsDigit(tail[0])) && (!hasFraction ==> At(tail) != '.')
    ensures
      var t := Time(Clamp(ValueOf(0, hour)), Clamp(ValueOf(0, min)), Clamp(ValueOf(0, sec)));
      var end := if hasFraction then "." + (fraction + tail) else tail;
      ParseTime(hour + (":" + (min + (":" + (sec + end)))))
      == if TimeValid(t) && (tail == "" || tail[0] == 'Z') then Parsed(t) else Rejected
  {
    var end := if hasFraction then "." + (fraction + tail) else tail;
    var afterMin := sec + end;
    var afterHour := min + (":" + afterMin);
    DigitsBefore(hour, ':', afterHour);
    DigitsBefore(min, ':', afterMin);
    StrtolReads(sec, end);
    FractionIsSkipped(hasFraction, fraction, tail);
    TimeOfParts(hour + (":" + afterHour), afterHour, afterMin, end,
                Clamp(ValueOf(0, hour)), Clamp(ValueOf(0, min)), Clamp(ValueOf(0, sec)));
  }

  /** The printed date has no 'T' and fits the parser's date buffer. */
  lemma DateTextFits(d: Date)
    requires DateValid(d)
    ensures |DateText(d)| < DATE_BUF_SIZE
    ensures forall i | 0 <= i < |DateText(d)| :: DateText(d)[i] != 'T'
  {
    SmallWidth(d.year, 4);
    SmallWidth(d.month, 2);
    SmallWidth(d.day, 2);
  }

  lemma PartsOf(a: string, x: string, b: string, y: string, c: string)
    requires |x| == 1 && |y| == 1
    ensures
      var s, n, m := a + (x + (b + (y + c))), |a|, |a| + 1 + |b|;
      && |s| == m + 1 + |c| && s[n] == x[0] && s[m] == y[0]
      && s[..n] == a && s[n + 1..m] == b && s[m + 1..] == c
  {
    var s, n, m := a + (x + (b + (y + c))), |a|, |a| + 1 + |b|;
    assert s[n + 1..] == b + (y + c);
    assert s[n + 1..m] == s[n + 1..][..|b|];
    assert s[m + 1..] == s[n + 1..][|b| + 1..];
  }

  /** The printed date has ten characters: four digits, two, two, with hyphens between them. */
  lemma DateFormat(d: Date)
    requires DateValid(d)
    ensures
      var s := DateText(d);
      && |s| == 10 && s[4] == '-' && s[7] == '-'
      && s[..4] == Padded(d.year, 4) && s[5..7] == Padded(d.month, 2) && s[8..] == Padded(d.day, 2)
  {
    SmallWidth(d.year, 4);
    SmallWidth(d.month, 2);
    SmallWidth(d.day, 2);
    PartsOf(Padded(d.year, 4), "-", Padded(d.month, 2), "-", Padded(d.day, 2));
  }

  /** The printed time has nine: two digits each, colons between them, and a 'Z'. */
  lemma TimeFormat(t: Time)
    requires TimeValid(t)
    ensures
      var s := TimeText(t);
      && |s| == 9 && s[2] == ':' && s[5] == ':'
      && s[..2] == Padded(t.hour, 2) && s[3..5] == Padded(t.min, 2) && s[6..] == Padded(t.sec, 2) + "Z"
  {
    SmallWidth(t.hour, 2);
    SmallWidth(t.min, 2);
    SmallWidth(t.sec, 2);
    PartsOf(Padded(t.hour, 2), ":", Padded(t.min, 2), ":", Padded(t.sec, 2) + "Z");
  }

  /** The date-time is one, a 'T' and the other; invalid ones have no text. */
  lemma DateTimeFormat(dt: DateTime)
    ensures DateTimeToString(dt).Parsed? <==> DateValid(dt.date) && TimeValid(dt.time)
    ensures DateToString(dt.date).Parsed? <==> DateValid(dt.date)
    ensures TimeToString(dt.time).Parsed? <==> TimeValid(dt.time)
    ensures DateTimeToString(dt).Parsed? ==>
      var s := DateTimeToString(dt).value;
      |s| == 20 && s[..10] == DateText(dt.date) && s[10] == 'T' && s[11..] == TimeText(dt.time)
  {
    if DateTimeValid(dt) {
      DateFormat(dt.date);
      TimeFormat(dt.time);
    }
  }

  lemma SmallWidth(n: nat, width: nat)
    requires (width == 2 && n < 100) || (width == 4 && n < 10000)
    ensures |Padded(n, width)| == width
  {
    if n >= 10 {
      assert Digits(n) == Digits(n / 10) + [DigitChar(n % 10)];
      if n >= 100 {
        assert Digits(n / 10) == Digits(n / 100) + [DigitChar(n / 10 % 10)];
        if n >= 1000 {
          assert Digits(n / 100) == Digits(n / 1000) + [DigitChar(n / 100 % 10)];
        }
      }
    }
  }

  /** The text is split at its first 'T'; more than ten characters before it are refused. */
  lemma SplitsAtT(date: string, time: string)
    requires forall i | 0 <= i < |date| :: date[i] != 'T'
    ensures SplitDateTime(date + ("T" + time)) == if |date| <= 10 then Parsed((date, time)) else Rejected
  {
    var s := date + ("T" + time);
    assert s[|date|] == 'T';
    assert forall i | 0 <= i < |date| :: s[i] == date[i];
    assert IndexOf(s, 'T') == |date|;
    assert s[..|date|] == date && s[|date| + 1..] == time;
  }

  lemma NoTNoDateTime(s: string)
    requires forall i | 0 <= i < |s| :: s[i] != 'T'
    ensures ParseDateTime(s) == Rejected
  {
  }

  lemma JoinedReads(s: string, date: string, time: string, dt: DateTime)
    requires SplitDateTime(s) == Parsed((date, time))
    requires ParseDate(date) == Parsed(dt.date) && ParseTime(time) == Parsed(dt.time)
    ensures ParseDateTime(s) == Parsed(dt)
  {
  }

  /** Every valid date-time survives print and parse. */
  lemma DateTimeRoundTrip(dt: DateTime)
    requires DateTimeValid(dt)
    ensures ParseDateTime(DateTimeToString(dt).value) == Parsed(dt)
  {
    DateTextFits(dt.date);
    DateRoundTrip(dt.date);
    TimeRoundTrip(dt.time);
    SplitsAtT(DateText(dt.date), TimeText(dt.time));
    JoinedReads(DateTimeToString(dt).value, DateText(dt.date), TimeText(dt.time), dt);
  }

  /** A duration text, readable or not, is never taken for a date-time. */
  lemma DurationTextIsNoDateTime(s: string)
    requires At(s) == 'P' || (At(s) == '-' && |s| > 1 && s[1] == 'P')
    ensures ParseDateTime(s) == Rejected
  {
    var t := IndexOf(s, 'T');
    if t < |s| && t < DATE_BUF_SIZE {
      var date := s[..t];
      assert date[0] == s[0];
      if s[0] == '-' {
        assert t >= 1 && (t > 1 ==> date[1..][0] == 'P');
      }
      assert Strtol(date).NoNumber?;
    }
  }

  /** No text is both a duration and a date-time, so the order of trying them does not matter. */
  lemma NeverBoth(s: string)
    requires ParseDuration(s).Parsed?
    ensures ParseDateTime(s) == Rejected
  {
    var t := IndexOf(s, 'T');
    if t < |s| && t < DATE_BUF_SIZE {
      var date := s[..t];
      assert date[0] == s[0];
      if s[0] != 'P' {
        assert s[1..][0] == 'P' && t >= 1 && (t > 1 ==> date[1..][0] == 'P');
      }
      assert Strtol(date).NoNumber?;
    }
  }

  /** An absolute-or-relative time that prints comes back with the same tag and value, except
      for a relative one whose milliseconds do not print readably: that one is rejected. */
  lemma MomentRoundTrip(m: AbsoluteOrRelative)
    requires MomentToString(m).Parsed? && (m.Relative? ==> DurationNegatable(m.duration))
    ensures ParseMoment(MomentToString(m).value)
         == if m.Relative? && !PrintsReadably(m.duration) then Rejected else Parsed(m)
  {
    var s := MomentToString(m).value;
    match m
    case Relative(d) =>
      DurationRoundTrip(d);
      assert At(s) == 'P' || (At(s) == '-' && |s| > 1 && s[1] == 'P');
      DurationTextIsNoDateTime(s);
    case Absolute(dt) =>
      DateTimeRoundTrip(dt);
      assert s[0] == Padded(dt.date.year, 4)[0];
      assert ParseDuration(s) == Rejected;
  }
}
