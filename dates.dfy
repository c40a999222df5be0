/**
 * Acceptance of a birthday string by `datetime.strptime(val, "%Y-%m-%d")`.
 *
 * CPython turns the format into the regular expression
 *   (?P<Y>\d\d\d\d)-(?P<m>1[0-2]|0[1-9]|[1-9])-(?P<d>3[01]|[12]\d|0[1-9]|[1-9]| [1-9])
 * matches it at the start of the string, raises if any text is left over,
 * and then builds a `date`, which raises for year 0 or a day past the end
 * of the month. The model follows those three steps: the first alternative
 * of each group that matches is the one taken, exactly as the regular
 * expression engine picks it.
 */
module Dates {
  import opened Wrappers

  /** A calendar date as strptime reads it off the string. */
  datatype Date = Date(year: int, month: int, day: int)

  /** An ASCII decimal digit (`\d` restricted to ASCII). */
  predicate IsDigit(c: char) {
    '0' <= c <= '9'
  }

  function DigitValue(c: char): (d: nat)
    requires IsDigit(c)
    ensures d < 10
  {
    c as int - '0' as int
  }

  predicate AllDigits(s: string) {
    forall i :: 0 <= i < |s| ==> IsDigit(s[i])
  }

  /** The decimal value of a string of digits. */
  function Number(s: string): (n: nat)
    requires AllDigits(s)
  {
    if s == [] then 0 else Number(s[..|s| - 1]) * 10 + DigitValue(s[|s| - 1])
  }

  /** Leap years of the proleptic Gregorian calendar that `date` uses. */
  predicate IsLeapYear(y: int) {
    y % 4 == 0 && (y % 100 != 0 || y % 400 == 0)
  }

  function DaysInMonth(y: int, m: int): (n: int)
    requires 1 <= m <= 12
    ensures 28 <= n <= 31
  {
    if m == 2 then (if IsLeapYear(y) then 29 else 28)
    else if m == 4 || m == 6 || m == 9 || m == 11 then 30
    else 31
  }

  /** The `%m` group: `1[0-2]|0[1-9]|[1-9]`, giving the month and the number of characters it took. */
  function MatchMonth(r: string): (m: Option<(int, nat)>)
    ensures m.Some? ==> 1 <= m.value.0 <= 12 && 1 <= m.value.1 <= 2 && m.value.1 <= |r|
  {
    if |r| >= 2 && r[0] == '1' && '0' <= r[1] <= '2' then Some((10 + DigitValue(r[1]), 2))
    else if |r| >= 2 && r[0] == '0' && '1' <= r[1] <= '9' then Some((DigitValue(r[1]), 2))
    else if |r| >= 1 && '1' <= r[0] <= '9' then Some((DigitValue(r[0]), 1))
    else None
  }

  /** The `%d` group: `3[01]|[12]\d|0[1-9]|[1-9]| [1-9]`, giving the day and the number of characters it took. */
  function MatchDay(t: string): (d: Option<(int, nat)>)
    ensures d.Some? ==> 1 <= d.value.0 <= 31 && 1 <= d.value.1 <= 2 && d.value.1 <= |t|
  {
    if |t| >= 2 && t[0] == '3' && '0' <= t[1] <= '1' then Some((30 + DigitValue(t[1]), 2))
    else if |t| >= 2 && '1' <= t[0] <= '2' && IsDigit(t[1]) then Some((10 * DigitValue(t[0]) + DigitValue(t[1]), 2))
    else if |t| >= 2 && t[0] == '0' && '1' <= t[1] <= '9' then Some((DigitValue(t[1]), 2))
    else if |t| >= 1 && '1' <= t[0] <= '9' then Some((DigitValue(t[0]), 1))
    else if |t| >= 2 && t[0] == ' ' && '1' <= t[1] <= '9' then Some((DigitValue(t[1]), 2))
    else None
  }

  /**
   * The date read from `s` by the pattern, or None when the pattern does not
   * match or leaves characters unconverted.
   */
  function ParseYmd(s: string): (r: Option<Date>)
    ensures r.Some? ==> 0 <= r.value.year <= 9999 && 1 <= r.value.month <= 12 && 1 <= r.value.day <= 31
  {
    if |s| < 5 || !AllDigits(s[..4]) || s[4] != '-' then None
    else
      var rest := s[5..];
      match MatchMonth(rest)
      case None => None
      case Some((m, w)) =>
        if w == |rest| || rest[w] != '-' then None
        else
          var tail := rest[w + 1..];
          match MatchDay(tail)
          case None => None
          case Some((d, v)) =>
            if v != |tail| then None
            else
              assert Number(s[..4]) <= 9999 by { NumberBound(s[..4]); }
              Some(Date(Number(s[..4]), m, d))
  }

  lemma {:induction false} NumberBound(s: string)
    requires AllDigits(s)
    ensures Number(s) < Pow10(|s|)
  {
    if s != [] {
      NumberBound(s[..|s| - 1]);
    }
  }

  function Pow10(n: nat): (p: nat)
    ensures p >= 1
  {
    if n == 0 then 1 else 10 * Pow10(n - 1)
  }

  /** The date exists: `date(year, month, day)` does not raise. */
  predicate IsValidDate(d: Date) {
    1 <= d.year <= 9999 && 1 <= d.month <= 12 && 1 <= d.day <= DaysInMonth(d.year, d.month)
  }

  /** `strptime(s, "%Y-%m-%d")` returns without raising. */
  predicate Accepts(s: string) {
    var p := ParseYmd(s);
    p.Some? && IsValidDate(p.value)
  }

  /** The canonical zero-padded `YYYY-MM-DD` text of a date. */
  function Format(d: Date): (s: string)
    requires d.year >= 0 && d.month >= 0 && d.day >= 0
  {
    Digits(d.year, 4) + "-" + Digits(d.month, 2) + "-" + Digits(d.day, 2)
  }

  /** The last `width` decimal digits of `n`, zero-padded. */
  function Digits(n: nat, width: nat): (s: string)
  {
    if width == 0 then [] else Digits(n / 10, width - 1) + [('0' as int + n % 10) as char]
  }

  lemma {:induction false} DigitsValue(n: nat, width: nat)
    requires n < Pow10(width)
    ensures |Digits(n, width)| == width && AllDigits(Digits(n, width))
    ensures Number(Digits(n, width)) == n
  {
    if width > 0 {
      DigitsValue(n / 10, width - 1);
      var s := Digits(n, width);
      assert s[..|s| - 1] == Digits(n / 10, width - 1);
    }
  }

  /** How ParseYmd reads a string assembled from a year, a month text and a day text. */
  lemma ParseAssembled(y: string, mt: string, dt: string, m: int, d: int)
    requires |y| == 4 && AllDigits(y)
    requires MatchMonth(mt + "-" + dt) == Some((m, |mt|))
    requires MatchDay(dt) == Some((d, |dt|))
    ensures ParseYmd(y + "-" + mt + "-" + dt) == Some(Date(Number(y), m, d))
  {
    var s := y + "-" + mt + "-" + dt;
    assert s[..4] == y;
    assert s[5..] == mt + "-" + dt;
    assert (mt + "-" + dt)[|mt| + 1..] == dt;
  }

  lemma TwoDigits(n: nat)
    requires n < 100
    ensures Digits(n, 2) == [('0' as int + n / 10) as char, ('0' as int + n % 10) as char]
  {
    assert Digits(n / 10, 1) == [('0' as int + n / 10) as char];
  }

  lemma MonthText(mo: int, rest: string)
    requires 1 <= mo <= 12
    ensures MatchMonth(Digits(mo, 2) + rest) == Some((mo, 2))
  {
    TwoDigits(mo);
  }

  lemma DayText(d: int)
    requires 1 <= d <= 31
    ensures MatchDay(Digits(d, 2)) == Some((d, 2))
  {
    TwoDigits(d);
  }

  /** Reading the canonical text of any date the pattern can express gives that date back. */
  lemma FormatRoundTrip(d: Date)
    requires 0 <= d.year <= 9999 && 1 <= d.month <= 12 && 1 <= d.day <= 31
    ensures ParseYmd(Format(d)) == Some(d)
  {
    DigitsValue(d.year, 4);
    DigitsValue(d.month, 2);
    DigitsValue(d.day, 2);
    MonthText(d.month, "-" + Digits(d.day, 2));
    DayText(d.day);
    ParseAssembled(Digits(d.year, 4), Digits(d.month, 2), Digits(d.day, 2), d.month, d.day);
  }

  /** A two-digit month text outside 1..12 is refused, or read as one digit with no `-` after it. */
  lemma MonthTextOutOfRange(mo: int, rest: string)
    requires 0 <= mo <= 99 && !(1 <= mo <= 12)
    ensures var m := MatchMonth(Digits(mo, 2) + rest); m.None? || m.value.1 == 1
  {
    TwoDigits(mo);
  }

  /** A two-digit day text outside 1..31 is refused, or read as one digit. */
  lemma DayTextOutOfRange(d: int)
    requires 0 <= d <= 99 && !(1 <= d <= 31)
    ensures var m := MatchDay(Digits(d, 2)); m.None? || m.value.1 == 1
  {
    TwoDigits(d);
  }

  /** The canonical text of a month outside 1..12 or a day outside 1..31 does not match the pattern. */
  lemma FormatOutOfRange(d: Date)
    requires 0 <= d.year <= 9999 && 0 <= d.month <= 99 && 0 <= d.day <= 99
    requires !(1 <= d.month <= 12 && 1 <= d.day <= 31)
    ensures ParseYmd(Format(d)) == None
  {
    DigitsValue(d.year, 4);
    DigitsValue(d.month, 2);
    DigitsValue(d.day, 2);
    TwoDigits(d.month);
    var y, mt, dt := Digits(d.year, 4), Digits(d.month, 2), Digits(d.day, 2);
    var s := Format(d);
    var rest := mt + "-" + dt;
    assert s[..4] == y && s[4] == '-';
    assert s[5..] == rest;
    assert rest[1] == mt[1] && IsDigit(mt[1]);
    if 1 <= d.month <= 12 {
      MonthText(d.month, "-" + dt);
      assert rest[3..] == dt;
      DayTextOutOfRange(d.day);
    } else {
      MonthTextOutOfRange(d.month, "-" + dt);
    }
  }

  /**
   * A string in canonical `YYYY-MM-DD` form, with any two-digit month and
   * day, is accepted exactly when it names a real calendar date.
   */
  lemma FormatAccepted(d: Date)
    requires 0 <= d.year <= 9999 && 0 <= d.month <= 99 && 0 <= d.day <= 99
    ensures Accepts(Format(d)) <==> IsValidDate(d)
  {
    if 1 <= d.month <= 12 && 1 <= d.day <= 31 {
      FormatRoundTrip(d);
    } else {
      FormatOutOfRange(d);
    }
  }

  /** The last day of February in a common year is accepted. */
  lemma CommonYearFebruaryExample()
    ensures Accepts("2023-02-28")
  {
    DigitsValue(2023, 4);
    assert Digits(2023, 4) == "2023";
    ParseAssembled("2023", "02", "28", 2, 28);
    assert "2023" + "-" + "02" + "-" + "28" == "2023-02-28";
  }

  /** The 29th of February is accepted in a leap year. */
  lemma LeapYearFebruaryExample()
    ensures Accepts("2024-02-29")
  {
    DigitsValue(2024, 4);
    assert Digits(2024, 4) == "2024";
    ParseAssembled("2024", "02", "29", 2, 29);
    assert "2024" + "-" + "02" + "-" + "29" == "2024-02-29";
  }

  /** A day past the end of February is refused although the pattern matches. */
  lemma PastFebruaryExamples()
    ensures !Accepts("2023-02-29") && !Accepts("2023-02-30")
  {
    DigitsValue(2023, 4);
    assert Digits(2023, 4) == "2023";
    ParseAssembled("2023", "02", "29", 2, 29);
    assert "2023" + "-" + "02" + "-" + "29" == "2023-02-29";
    ParseAssembled("2023", "02", "30", 2, 30);
    assert "2023" + "-" + "02" + "-" + "30" == "2023-02-30";
  }

  /** Strings the pattern or the calendar refuses. */
  lemma RejectedExamples()
    ensures !Accepts("not-a-date") && !Accepts("0000-01-01")
    ensures !Accepts("2023-13-01") && !Accepts("2023-01-32")
  {
    DigitsValue(0, 4);
    assert Digits(0, 4) == "0000";
    ParseAssembled("0000", "01", "01", 1, 1);
    assert "0000" + "-" + "01" + "-" + "01" == "0000-01-01";
    var s := "2023-01-32";
    assert s[5..] == "01-32";
    assert "01-32"[3..] == "32";
  }

  /** One-digit months and days, and a space-padded day, are accepted as CPython does. */
  lemma LenientExamples()
    ensures Accepts("2023-1-5") && Accepts("2023-01- 5")
  {
    DigitsValue(2023, 4);
    assert Digits(2023, 4) == "2023";
    ParseAssembled("2023", "1", "5", 1, 5);
    assert "2023" + "-" + "1" + "-" + "5" == "2023-1-5";
    ParseAssembled("2023", "01", " 5", 1, 5);
    assert "2023" + "-" + "01" + "-" + " 5" == "2023-01- 5";
  }
}
