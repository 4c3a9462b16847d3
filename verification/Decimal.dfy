/** Decimal text: what `%d` prints and what `strtol` reads back. Strings stand for the bytes
    before the terminating NUL and contain none themselves. */
module Decimal {

  predicate IsDigit(c: char) {
    '0' <= c <= '9'
  }

  predicate IsSpace(c: char) {
    c == ' ' || '\t' <= c <= '\r'
  }

  function DigitChar(d: int): (c: char)
    requires 0 <= d < 10
    ensures IsDigit(c) && DigitValue(c) == d
  {
    ('0' as int + d) as char
  }

  function DigitValue(c: char): (d: int)
    requires IsDigit(c)
    ensures 0 <= d < 10
  {
    c as int - '0' as int
  }

  predicate AllDigits(s: string) {
    forall i | 0 <= i < |s| :: IsDigit(s[i])
  }

  /** Digits without leading zeros. */
  function Digits(n: nat): (s: string)
    ensures s != "" && AllDigits(s)
  {
    if n < 10 then [DigitChar(n)] else Digits(n / 10) + [DigitChar(n % 10)]
  }

  /** Digits padded with zeros to at least the given width. */
  function Padded(n: nat, width: nat): (s: string)
    ensures s != "" && AllDigits(s) && |s| >= width
    ensures |s| == if |Digits(n)| > width then |Digits(n)| else width
  {
    var d := Digits(n);
    if |d| >= width then d else Zeros(width - |d|) + d
  }

  function Zeros(n: nat): (s: string)
    ensures |s| == n && forall i | 0 <= i < n :: s[i] == '0'
  {
    seq(n, _ => '0')
  }

  /** The number a digit string denotes, continuing from `acc`. */
  function ValueOf(acc: int, s: string): int
    requires AllDigits(s)
    decreases |s|
  {
    if s == "" then acc else ValueOf(acc * 10 + DigitValue(s[0]), s[1..])
  }

  /** The longest digit prefix. */
  function DigitPrefix(s: string): (p: string)
    ensures AllDigits(p) && p <= s
    ensures |p| == |s| || !IsDigit(s[|p|])
  {
    if s == "" || !IsDigit(s[0]) then "" else [s[0]] + DigitPrefix(s[1..])
  }

  function SkipSpaces(s: string): (r: string)
    ensures |r| <= |s|
  {
    if s != "" && IsSpace(s[0]) then SkipSpaces(s[1..]) else s
  }

  const LONG_MAX: int := 0x7fff_ffff

  function Clamp(n: int): int {
    if n > LONG_MAX then LONG_MAX else if n < -LONG_MAX - 1 then -LONG_MAX - 1 else n
  }

  datatype Number = Number(value: int, rest: string) | NoNumber

  /** A sign or none, then digits. */
  function ReadSigned(t: string): (r: Number)
    ensures r.Number? ==> |r.rest| < |t|
  {
    var signed := t != "" && (t[0] == '-' || t[0] == '+');
    var body := if signed then t[1..] else t;
    var p := DigitPrefix(body);
    if p == "" then NoNumber
    else
      var n := ValueOf(0, p);
      Number(Clamp(if signed && t[0] == '-' then -n else n), body[|p|..])
  }

  /** `strtol` in base 10 with a 32-bit `long`: spaces, a sign, digits; out-of-range values
      saturate. `rest` is where the end pointer is left. */
  function Strtol(s: string): (r: Number)
    ensures r.Number? ==> |r.rest| < |s|
  {
    ReadSigned(SkipSpaces(s))
  }

  // ---------------------------------------------------------------- reading back

  lemma {:induction false} ValueOfAppend(acc: int, s: string, t: string)
    requires AllDigits(s) && AllDigits(t)
    ensures AllDigits(s + t) && ValueOf(acc, s + t) == ValueOf(ValueOf(acc, s), t)
    decreases |s|
  {
    if s == "" {
      assert s + t == t;
    } else {
      ValueOfAppend(acc * 10 + DigitValue(s[0]), s[1..], t);
      assert (s + t)[1..] == s[1..] + t;
    }
  }

  lemma {:induction false} DigitsDenote(n: nat)
    ensures ValueOf(0, Digits(n)) == n
  {
    if n < 10 {
      var one := Digits(n);
      assert one[1..] == "";
    } else {
      DigitsDenote(n / 10);
      var last := [DigitChar(n % 10)];
      ValueOfAppend(0, Digits(n / 10), last);
      assert last[1..] == "";
    }
  }

  lemma {:induction false} PaddedDenotes(n: nat, width: nat)
    ensures ValueOf(0, Padded(n, width)) == n
  {
    var d := Digits(n);
    DigitsDenote(n);
    if |d| < width {
      ZerosDenoteNothing(width - |d|);
      ValueOfAppend(0, Zeros(width - |d|), d);
    }
  }

  lemma {:induction false} ZerosDenoteNothing(n: nat)
    ensures AllDigits(Zeros(n)) && ValueOf(0, Zeros(n)) == 0
  {
    if n > 0 {
      ZerosDenoteNothing(n - 1);
      assert Zeros(n)[1..] == Zeros(n - 1);
    }
  }

  /** A digit string followed by something else is read back whole, and reading stops there. */
  lemma {:induction false} DigitPrefixStops(d: string, rest: string)
    requires AllDigits(d) && (rest == "" || !IsDigit(rest[0]))
    ensures DigitPrefix(d + rest) == d
    decreases |d|
  {
    if d == "" {
      assert d + rest == rest;
    } else {
      DigitPrefixStops(d[1..], rest);
      assert (d + rest)[1..] == d[1..] + rest;
    }
  }

  lemma StrtolReads(d: string, rest: string)
    requires d != "" && AllDigits(d) && (rest == "" || !IsDigit(rest[0]))
    ensures Strtol(d + rest) == Number(Clamp(ValueOf(0, d)), rest)
  {
    var s := d + rest;
    assert IsDigit(s[0]) && !IsSpace(s[0]);
    DigitPrefixStops(d, rest);
    assert s[|d|..] == rest;
  }

  lemma {:induction false} NoLeadingZero(n: nat)
    ensures |Digits(n)| > 1 ==> Digits(n)[0] != '0'
  {
    if n >= 10 {
      NoLeadingZero(n / 10);
      if n / 10 < 10 {
        assert Digits(n)[0] == DigitChar(n / 10);
      } else {
        assert |Digits(n / 10)| > 1;
        assert Digits(n)[0] == Digits(n / 10)[0];
      }
    }
  }

  /** The six space characters of the C locale. */
  lemma Spaces(c: char)
    ensures IsSpace(c) <==> c as int in {9, 10, 11, 12, 13, 32}
  {
  }

  lemma {:induction false} SpacesAreSkipped(spaces: string, rest: string)
    requires (forall i | 0 <= i < |spaces| :: IsSpace(spaces[i])) && (rest == "" || !IsSpace(rest[0]))
    ensures SkipSpaces(spaces + rest) == rest
    decreases |spaces|
  {
    if spaces == "" {
      assert spaces + rest == rest;
    } else {
      assert (spaces + rest)[1..] == spaces[1..] + rest;
      SpacesAreSkipped(spaces[1..], rest);
    }
  }

  /** The nearest 32-bit number. */
  lemma ClampIsNearest(n: int)
    ensures Clamp(n) == if n >= 0x8000_0000 then 0x7fff_ffff else if n < -0x8000_0000 then -0x8000_0000 else n
  {
  }

  lemma ReadsUnsigned(d: string, rest: string, t: string)
    requires d != "" && AllDigits(d) && (rest == "" || !IsDigit(rest[0])) && t == d + rest
    ensures ReadSigned(t) == Number(Clamp(ValueOf(0, d)), rest)
  {
    assert t[0] == d[0];
    DigitPrefixStops(d, rest);
    assert t[|d|..] == rest;
  }

  lemma ReadsSigned(sign: char, d: string, rest: string, t: string)
    requires sign == '+' || sign == '-'
    requires d != "" && AllDigits(d) && (rest == "" || !IsDigit(rest[0])) && t == [sign] + (d + rest)
    ensures ReadSigned(t) == Number(Clamp(if sign == '-' then -ValueOf(0, d) else ValueOf(0, d)), rest)
  {
    assert t[0] == sign && t[1..] == d + rest;
    DigitPrefixStops(d, rest);
    assert (d + rest)[|d|..] == rest;
  }

  /** The whole of what is read: spaces, one sign or none, digits. */
  lemma StrtolReadsSigned(spaces: string, sign: string, d: string, rest: string)
    requires (forall i | 0 <= i < |spaces| :: IsSpace(spaces[i])) && (sign == "" || sign == "+" || sign == "-")
    requires d != "" && AllDigits(d) && (rest == "" || !IsDigit(rest[0]))
    ensures
      Strtol(spaces + (sign + (d + rest))) ==
      Number(Clamp(if sign == "-" then -ValueOf(0, d) else ValueOf(0, d)), rest)
  {
    var t := sign + (d + rest);
    assert t[0] == if sign == "" then d[0] else sign[0];
    SpacesAreSkipped(spaces, t);
    if sign == "" {
      ReadsUnsigned(d, rest, t);
    } else {
      assert sign == [sign[0]];
      ReadsSigned(sign[0], d, rest, t);
    }
  }

  /** Without a digit there, nothing is read. */
  lemma StrtolNeedsDigits(spaces: string, sign: string, rest: string)
    requires (forall i | 0 <= i < |spaces| :: IsSpace(spaces[i])) && (sign == "" || sign == "+" || sign == "-")
    requires rest == "" || !IsDigit(rest[0])
    requires sign == "" ==> rest == "" || (!IsSpace(rest[0]) && rest[0] != '+' && rest[0] != '-')
    ensures Strtol(spaces + (sign + rest)) == NoNumber
  {
    var t := sign + rest;
    assert sign != "" ==> t[0] == sign[0] && t[1..] == rest;
    assert sign == "" ==> t == rest;
    SpacesAreSkipped(spaces, t);
  }

  /** Three digits hold exactly the numbers below a thousand. */
  lemma DigitsFitThree(n: nat)
    ensures |Digits(n)| <= 3 <==> n < 1000
  {
    if n >= 10 {
      assert Digits(n) == Digits(n / 10) + [DigitChar(n % 10)];
      if n >= 100 {
        assert Digits(n / 10) == Digits(n / 100) + [DigitChar(n / 10 % 10)];
      }
    }
  }
}
