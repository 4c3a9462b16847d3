/** Printing and parsing of durations, after section 4.4.3.2 of ISO 8601:2004 with the leading
    sign of section 3.2.6 of XML Schema Part 2. */
module DurationText {
  import opened Chrono
  import opened Decimal

  function Abs(n: int): nat {
    if n < 0 then -n else n
  }

  /** A component: nothing when zero, otherwise its magnitude and designator. */
  function Piece(n: int, key: char): string {
    if n == 0 then "" else Digits(Abs(n)) + [key]
  }

  /** Seconds, with a fraction when there are milliseconds. Whole seconds of zero are left out
      even then. */
  function SecondsPiece(seconds: int, milliseconds: int): string {
    if milliseconds == 0 then Piece(seconds, 'S')
    else (if seconds == 0 then "" else Digits(Abs(seconds))) + ("." + Padded(Abs(milliseconds), 3) + "S")
  }

  predicate HasTime(d: Duration) {
    d.hours != 0 || d.minutes != 0 || d.seconds != 0 || d.milliseconds != 0
  }

  function TimePart(d: Duration): string {
    if HasTime(d) then "T" + (Piece(d.hours, 'H') + (Piece(d.minutes, 'M') + SecondsPiece(d.seconds, d.milliseconds)))
    else ""
  }

  function Body(d: Duration): string {
    Piece(d.years, 'Y') + (Piece(d.months, 'M') + (Piece(d.days, 'D') + TimePart(d)))
  }

  function SignPart(d: Duration): string {
    if DurationIsNegative(d) then "-" else ""
  }

  /** The printed form; an invalid duration has none. */
  function ToString(d: Duration): Parse<string> {
    if !DurationValid(d) then Rejected
    else if DurationIsZero(d) then Parsed("PT0S")
    else Parsed(SignPart(d) + ("P" + Body(d)))
  }

  /** The size computed ahead of printing, terminator included. */
  function StringLength(d: Duration): nat {
    if DurationIsZero(d) then |"PT0S"| + 1
    else
      2 + (if DurationIsNegative(d) then 1 else 0)
      + |Piece(d.years, 'Y')| + |Piece(d.months, 'M')| + |Piece(d.days, 'D')|
      + if !HasTime(d) then 0
        else
          1 + |Piece(d.hours, 'H')| + |Piece(d.minutes, 'M')|
          + if d.milliseconds == 0 then |Piece(d.seconds, 'S')|
            else (if d.seconds == 0 then 0 else |Digits(Abs(d.seconds))|) + |"." + Padded(Abs(d.milliseconds), 3) + "S"|
  }

  lemma LengthIsExact(d: Duration)
    requires DurationValid(d)
    ensures StringLength(d) == |ToString(d).value| + 1
  {
  }

  /** `snprintf` at an offset with room for everything and the terminator. */
  method Print(buf: array<char>, offset: nat, s: string) returns (next: nat)
    requires offset + |s| < buf.Length
    modifies buf
    ensures next == offset + |s|
    ensures buf[..next] == old(buf[..offset]) + s && buf[next] == '\0'
  {
    var i := 0;
    while i < |s|
      invariant 0 <= i <= |s|
      invariant buf[..offset + i] == old(buf[..offset]) + s[..i]
    {
      buf[offset + i] := s[i];
      i := i + 1;
    }
    next := offset + |s|;
    buf[next] := '\0';
  }

  method PrintThree(buf: array<char>, offset: nat, x: string, y: string, z: string) returns (next: nat)
    requires offset + |x| + |y| + |z| < buf.Length
    modifies buf
    ensures next == offset + |x| + |y| + |z|
    ensures buf[..next] == old(buf[..offset]) + (x + (y + z)) && buf[next] == '\0'
  {
    next := Print(buf, offset, x);
    next := Print(buf, next, y);
    next := Print(buf, next, z);
  }

  lemma Regroup(a: string, x: string, y: string, z: string, t: string)
    ensures a + "P" + (x + (y + z)) + t == a + ("P" + (x + (y + (z + t))))
  {
  }

  /** Printing into a buffer of the precomputed size never runs out of room. */
  method PrintToBuffer(d: Duration) returns (buf: array?<char>)
    ensures buf == null <==> !DurationValid(d)
    ensures buf != null ==>
      var text := ToString(d).value;
      |text| < buf.Length && buf[..|text|] == text && buf[|text|] == '\0'
  {
    if !DurationValid(d) {
      return null;
    }
    LengthIsExact(d);
    buf := new char[StringLength(d) + 1](_ => '\0');
    if DurationIsZero(d) {
      var _ := Print(buf, 0, "PT0S");
      return;
    }
    var sign, time := SignPart(d), if HasTime(d) then "T" else "";
    var years, months, days := Piece(d.years, 'Y'), Piece(d.months, 'M'), Piece(d.days, 'D');
    var hours, minutes, seconds := Piece(d.hours, 'H'), Piece(d.minutes, 'M'), SecondsPiece(d.seconds, d.milliseconds);
    var _ := PrintParts(buf, sign, years, months, days, HasTime(d), hours, minutes, seconds);
  }

  method PrintParts(buf: array<char>, sign: string, years: string, months: string, days: string,
                    hasTime: bool, hours: string, minutes: string, seconds: string) returns (at: nat)
    requires
      var time := if hasTime then 1 + |hours| + |minutes| + |seconds| else 0;
      |sign| + 1 + |years| + |months| + |days| + time < buf.Length
    modifies buf
    ensures at < buf.Length && buf[at] == '\0'
    ensures
      var time := if hasTime then "T" + (hours + (minutes + seconds)) else "";
      buf[..at] == sign + ("P" + (years + (months + (days + time))))
  {
    at := Print(buf, 0, sign);
    at := Print(buf, at, "P");
    at := PrintThree(buf, at, years, months, days);
    ghost var date := sign + "P" + (years + (months + days));
    assert buf[..at] == date;
    if hasTime {
      at := Print(buf, at, "T");
      at := PrintThree(buf, at, hours, minutes, seconds);
      ghost var rest := hours + (minutes + seconds);
      assert buf[..at] == date + "T" + rest;
      assert date + "T" + rest == date + ("T" + rest);
      Regroup(sign, years, months, days, "T" + rest);
    } else {
      Regroup(sign, years, months, days, "");
    }
  }

  // ---------------------------------------------------------------- parsing

  function SetValue(d: Duration, key: char, isTime: bool, value: int): Parse<Duration> {
    if isTime then
      match key
      case 'H' => Parsed(d.(hours := value))
      case 'M' => Parsed(d.(minutes := value))
      case 'S' => Parsed(d.(seconds := value))
      case _ => Rejected
    else
      match key
      case 'Y' => Parsed(d.(years := value))
      case 'M' => Parsed(d.(months := value))
      case 'D' => Parsed(d.(days := value))
      case _ => Rejected
  }

  function At(s: string): char {
    if s == "" then '\0' else s[0]
  }

  /** Up to three digits after the point, the first worth `factor`, and what follows them. */
  function Fraction(s: string, factor: nat): (r: (int, string))
    ensures |r.1| <= |s|
    decreases factor
  {
    if factor == 0 || !IsDigit(At(s)) then (0, s)
    else
      var (more, rest) := Fraction(s[1..], factor / 10);
      (DigitValue(s[0]) * factor + more, rest)
  }

  /** What follows 'P', component after component. A fraction is read as milliseconds and must
      end in 'S', in the date part as well. */
  function ParseBody(s: string, isTime: bool, d: Duration): Parse<Duration>
    decreases |s|
  {
    if s == "" then Parsed(d)
    else if s[0] == 'T' then
      if isTime then Rejected else ParseBody(s[1..], true, d)
    else
      match Strtol(s)
      case NoNumber => Rejected
      case Number(value, rest) =>
        if At(rest) == '.' then
          var (ms, tail) := Fraction(rest[1..], 100);
          if At(tail) != 'S' then Rejected
          else ParseBody(tail[1..], isTime, d.(seconds := value, milliseconds := ms))
        else
          match SetValue(d, At(rest), isTime, value)
          case Rejected => Rejected
          case Parsed(d') => ParseBody(if rest == "" then "" else rest[1..], isTime, d')
  }

  function ParseDuration(s: string): Parse<Duration> {
    var signed := At(s) == '-' || At(s) == '+';
    var t := if signed then s[1..] else s;
    if At(t) != 'P' then Rejected
    else
      match ParseBody(t[1..], false, ZERO_DURATION)
      case Rejected => Rejected
      case Parsed(d) => Parsed(if At(s) == '-' then InvertSign(d) else d)
  }

  /** The parser's loop over the text. */
  method Parse(s: string) returns (r: Parse<Duration>)
    ensures r == ParseDuration(s)
  {
    var d, isTime, p := ZERO_DURATION, false, s;
    if At(s) == '-' || At(s) == '+' {
      p := p[1..];
    }
    if At(p) != 'P' {
      return Rejected;
    }
    p := p[1..];
    ghost var start := p;
    while p != ""
      invariant ParseBody(p, isTime, d) == ParseBody(start, false, ZERO_DURATION)
      decreases |p|
    {
      if p[0] == 'T' {
        if isTime {
          return Rejected;
        }
        isTime, p := true, p[1..];
      } else {
        var number := Strtol(p);
        if number.NoNumber? {
          return Rejected;
        }
        if At(number.rest) == '.' {
          var fraction := Fraction(number.rest[1..], 100);
          if At(fraction.1) != 'S' {
            return Rejected;
          }
          d, p := d.(seconds := number.value, milliseconds := fraction.0), fraction.1[1..];
        } else {
          var set_ := SetValue(d, At(number.rest), isTime, number.value);
          if set_.Rejected? {
            return Rejected;
          }
          d, p := set_.value, number.rest[1..];
        }
      }
    }
    return Parsed(if At(s) == '-' then InvertSign(d) else d);
  }

  // ---------------------------------------------------------------- round trip

  lemma PieceParses(n: int, key: char, rest: string, isTime: bool, d: Duration)
    requires Negatable(n) && SetValue(d, key, isTime, Abs(n)).Parsed?
    ensures ParseBody(Piece(n, key) + rest, isTime, d)
         == ParseBody(rest, isTime, if n == 0 then d else SetValue(d, key, isTime, Abs(n)).value)
  {
    if n == 0 {
      assert Piece(n, key) + rest == rest;
    } else {
      var digits, tail := Digits(Abs(n)), [key] + rest;
      assert Piece(n, key) + rest == digits + tail;
      StrtolReads(digits, tail);
      DigitsDenote(Abs(n));
      assert (digits + tail)[0] == digits[0];
      assert tail[1..] == rest;
    }
  }

  lemma ThreeDigits(p: string)
    requires |p| == 3 && AllDigits(p)
    ensures ValueOf(0, p) == DigitValue(p[0]) * 100 + DigitValue(p[1]) * 10 + DigitValue(p[2])
  {
    assert p[1..][1..] == p[2..] && p[2..][1..] == "";
    assert ValueOf(0, p) == ValueOf(DigitValue(p[0]), p[1..]);
    assert ValueOf(DigitValue(p[0]), p[1..]) == ValueOf(DigitValue(p[0]) * 10 + DigitValue(p[1]), p[2..]);
    assert ValueOf(DigitValue(p[0]) * 10 + DigitValue(p[1]), p[2..])
        == ValueOf((DigitValue(p[0]) * 10 + DigitValue(p[1])) * 10 + DigitValue(p[2]), "");
  }

  lemma FractionTakesThree(p: string, rest: string)
    requires |p| >= 3 && AllDigits(p)
    ensures Fraction(p + rest, 100)
         == (DigitValue(p[0]) * 100 + (DigitValue(p[1]) * 10 + DigitValue(p[2])), p[3..] + rest)
  {
    var s := p + rest;
    assert s[1..][1..] == s[2..] && s[2..][1..] == s[3..] == p[3..] + rest;
    assert Fraction(s[3..], 0) == (0, s[3..]);
    assert Fraction(s[2..], 1) == (DigitValue(p[2]), s[3..]);
    assert Fraction(s[1..], 10) == (DigitValue(p[1]) * 10 + DigitValue(p[2]), s[3..]);
  }

  lemma FractionReads(ms: nat)
    ensures
      var (value, tail) := Fraction(Padded(ms, 3) + "S", 100);
      if ms < 1000 then value == ms && tail == "S" else At(tail) != 'S'
  {
    var p := Padded(ms, 3);
    DigitsFitThree(ms);
    PaddedDenotes(ms, 3);
    FractionTakesThree(p, "S");
    if ms < 1000 {
      ThreeDigits(p);
      assert p[3..] == "";
    } else {
      assert (p[3..] + "S")[0] == p[3];
    }
  }

  lemma ThirdDigit(c: char, rest: string)
    ensures Fraction([c] + rest, 1) == if IsDigit(c) then (DigitValue(c), rest) else (0, [c] + rest)
  {
    assert ([c] + rest)[1..] == rest;
  }

  lemma SecondDigit(b: char, rest: string)
    requires IsDigit(b)
    ensures Fraction([b] + rest, 10) == (10 * DigitValue(b) + Fraction(rest, 1).0, Fraction(rest, 1).1)
  {
    assert ([b] + rest)[1..] == rest;
  }

  lemma FirstDigit(a: char, rest: string)
    requires IsDigit(a)
    ensures Fraction([a] + rest, 100) == (100 * DigitValue(a) + Fraction(rest, 10).0, Fraction(rest, 10).1)
  {
    assert ([a] + rest)[1..] == rest;
  }

  /** One, two or three digits behind the point are tenths, hundredths and thousandths of a second. */
  lemma TenthsAreRead(a: char, rest: string)
    requires IsDigit(a) && !IsDigit(At(rest))
    ensures Fraction([a] + rest, 100) == (100 * DigitValue(a), rest)
  {
    FirstDigit(a, rest);
  }

  lemma HundredthsAreRead(a: char, b: char, rest: string)
    requires IsDigit(a) && IsDigit(b) && !IsDigit(At(rest))
    ensures Fraction([a] + ([b] + rest), 100) == (100 * DigitValue(a) + 10 * DigitValue(b), rest)
  {
    FirstDigit(a, [b] + rest);
    SecondDigit(b, rest);
  }

  lemma ThousandthsAreRead(a: char, b: char, c: char, rest: string)
    requires IsDigit(a) && IsDigit(b) && IsDigit(c)
    ensures
      Fraction([a] + ([b] + ([c] + rest)), 100)
      == (100 * DigitValue(a) + 10 * DigitValue(b) + DigitValue(c), rest)
  {
    FirstDigit(a, [b] + ([c] + rest));
    SecondDigit(b, [c] + rest);
    ThirdDigit(c, rest);
  }

  /** A leading plus is skipped, a leading minus negates every field. */
  lemma SignedTexts(t: string)
    requires t != "" && t[0] == 'P'
    ensures ParseDuration("+" + t) == ParseDuration(t)
    ensures ParseDuration("-" + t) ==
      match ParseDuration(t)
      case Rejected => Rejected
      case Parsed(d) =>
        Parsed(Duration(-d.years, -d.months, -d.days, -d.hours, -d.minutes, -d.seconds, -d.milliseconds))
  {
    assert ("+" + t)[1..] == t && ("-" + t)[1..] == t;
  }

  /** The seconds are the only part that can fail. */
  predicate PrintsReadably(d: Duration) {
    d.milliseconds == 0 || (d.seconds != 0 && Abs(d.milliseconds) < 1000)
  }

  lemma PointParses(digits: string, frac: string, acc: Duration)
    requires digits != "" && AllDigits(digits)
    ensures
      var (ms, tail) := Fraction(frac, 100);
      ParseBody(digits + ("." + frac), true, acc)
      == if At(tail) != 'S' then Rejected
         else ParseBody(tail[1..], true, acc.(seconds := Clamp(ValueOf(0, digits)), milliseconds := ms))
  {
    var rest := "." + frac;
    StrtolReads(digits, rest);
    assert rest[1..] == frac && (digits + rest)[0] == digits[0];
  }

  lemma FractionalSecondsParse(seconds: nat, ms: nat, acc: Duration)
    requires Negatable(seconds)
    ensures
      var text := (if seconds == 0 then "" else Digits(seconds)) + ("." + Padded(ms, 3) + "S");
      ParseBody(text, true, acc)
      == if seconds != 0 && ms < 1000 then Parsed(acc.(seconds := seconds, milliseconds := ms)) else Rejected
  {
    var frac := Padded(ms, 3) + "S";
    assert "." + Padded(ms, 3) + "S" == "." + frac;
    if seconds == 0 {
      var text := "." + frac;
      assert "" + text == text && text[0] == '.';
      StrtolNeedsDigits("", "", text);
      assert Strtol(text) == NoNumber;
    } else {
      PointParses(Digits(seconds), frac, acc);
      DigitsDenote(seconds);
      FractionReads(ms);
      assert "S"[1..] == "";
    }
  }

  lemma SecondsParse(d: Duration, acc: Duration)
    requires Negatable(d.seconds)
    ensures
      var r := ParseBody(SecondsPiece(d.seconds, d.milliseconds), true, acc);
      if d.milliseconds == 0 then r == Parsed(if d.seconds == 0 then acc else acc.(seconds := Abs(d.seconds)))
      else if PrintsReadably(d) then r == Parsed(acc.(seconds := Abs(d.seconds), milliseconds := Abs(d.milliseconds)))
      else r == Rejected
  {
    if d.milliseconds == 0 {
      assert Piece(d.seconds, 'S') + "" == Piece(d.seconds, 'S');
      PieceParses(d.seconds, 'S', "", true, acc);
    } else {
      FractionalSecondsParse(Abs(d.seconds), Abs(d.milliseconds), acc);
    }
  }

  function Magnitude(d: Duration): Duration {
    Duration(
      Abs(d.years), Abs(d.months), Abs(d.days),
      Abs(d.hours), Abs(d.minutes), Abs(d.seconds), Abs(d.milliseconds))
  }

  lemma BodyParses(d: Duration)
    requires DurationNegatable(d)
    ensures ParseBody(Body(d), false, ZERO_DURATION) == if PrintsReadably(d) then Parsed(Magnitude(d)) else Rejected
  {
    var a0 := ZERO_DURATION;
    var a1 := a0.(years := Abs(d.years));
    var a2 := a1.(months := Abs(d.months));
    var a3 := a2.(days := Abs(d.days));
    PieceParses(d.years, 'Y', Piece(d.months, 'M') + (Piece(d.days, 'D') + TimePart(d)), false, a0);
    PieceParses(d.months, 'M', Piece(d.days, 'D') + TimePart(d), false, a1);
    PieceParses(d.days, 'D', TimePart(d), false, a2);
    assert ParseBody(Body(d), false, a0) == ParseBody(TimePart(d), false, a3);
    if HasTime(d) {
      var seconds := SecondsPiece(d.seconds, d.milliseconds);
      var t := Piece(d.hours, 'H') + (Piece(d.minutes, 'M') + seconds);
      assert TimePart(d)[1..] == t;
      var a4 := a3.(hours := Abs(d.hours));
      var a5 := a4.(minutes := Abs(d.minutes));
      PieceParses(d.hours, 'H', Piece(d.minutes, 'M') + seconds, true, a3);
      PieceParses(d.minutes, 'M', seconds, true, a4);
      SecondsParse(d, a5);
    }
  }

  lemma ZeroParses()
    ensures ParseDuration("PT0S") == Parsed(ZERO_DURATION)
  {
    assert "PT0S"[1..] == "T0S" && "T0S"[1..] == "0S" && "0S" == Digits(0) + "S";
    StrtolReads(Digits(0), "S");
    DigitsDenote(0);
    assert "S"[1..] == "";
    assert ParseBody("0S", true, ZERO_DURATION) == Parsed(ZERO_DURATION);
  }

  lemma SignedBody(negative: bool, body: string)
    ensures ParseDuration((if negative then "-" else "") + ("P" + body))
         == match ParseBody(body, false, ZERO_DURATION)
            case Rejected => Rejected
            case Parsed(d) => Parsed(if negative then InvertSign(d) else d)
  {
    var t := "P" + body;
    assert t[1..] == body && ("-" + t)[1..] == t && "" + t == t;
  }

  lemma MagnitudeAndSign(d: Duration)
    requires DurationValid(d)
    ensures d == if DurationIsNegative(d) then InvertSign(Magnitude(d)) else Magnitude(d)
  {
  }

  lemma SignedBodyParses(d: Duration, body: string)
    requires DurationValid(d)
    requires ParseBody(body, false, ZERO_DURATION) == if PrintsReadably(d) then Parsed(Magnitude(d)) else Rejected
    ensures ParseDuration(SignPart(d) + ("P" + body)) == if PrintsReadably(d) then Parsed(d) else Rejected
  {
    SignedBody(DurationIsNegative(d), body);
    MagnitudeAndSign(d);
  }

  /** A valid duration survives print and parse exactly when its milliseconds, if any, are
      fewer than a thousand and come with a non-zero count of seconds; otherwise the parser
      rejects what the printer wrote. */
  lemma DurationRoundTrip(d: Duration)
    requires DurationValid(d) && DurationNegatable(d)
    ensures ParseDuration(ToString(d).value) == if PrintsReadably(d) then Parsed(d) else Rejected
  {
    if DurationIsZero(d) {
      ZeroParses();
    } else {
      BodyParses(d);
      SignedBodyParses(d, Body(d));
    }
  }
}
