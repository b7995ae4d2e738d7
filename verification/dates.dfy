/**
 Calendar dates as Python's `datetime` handles them here: reading a
 `YYYYMMDD` field with `datetime.strptime(field, '%Y%m%d')`, checking it is a
 real day of the proleptic Gregorian calendar in years 1 to 9999, rendering
 it with `strftime('%d/%m/%Y')`, and ordering dates chronologically.

 `strptime` turns the format into a regular expression whose `%Y` is four
 digits, whose `%m` tries "1[0-2]", "0[1-9]", "[1-9]" in that order and whose
 `%d` tries "3[01]", "[12]\d", "0[1-9]", "[1-9]", " [1-9]" in that order. It
 matches that expression at the start of the text (the engine backtracks into
 `%m` only when no `%d` alternative matches at all) and then rejects the text
 if any of it is left over after the match.
 */
module Dates {
  import opened Options
  import opened Digits

  datatype Date = Date(year: int, month: int, day: int)

  predicate IsLeapYear(y: int) {
    y % 4 == 0 && (y % 100 != 0 || y % 400 == 0)
  }

  function DaysInMonth(y: int, m: int): (n: int)
    requires 1 <= m <= 12
    ensures 28 <= n <= 31
    ensures n == 29 <==> m == 2 && IsLeapYear(y)
  {
    if m == 2 then (if IsLeapYear(y) then 29 else 28)
    else if m == 4 || m == 6 || m == 9 || m == 11 then 30
    else 31
  }

  predicate ValidDate(d: Date) {
    && 1 <= d.year <= 9999
    && 1 <= d.month <= 12
    && 1 <= d.day <= DaysInMonth(d.year, d.month)
  }

  /** A date `datetime.date` accepts. */
  type CalendarDate = d: Date | ValidDate(d) witness Date(1, 1, 1)

  /** `a` is not later than `b`: the order of `datetime` values with equal times. */
  predicate Le(a: Date, b: Date) {
    a.year < b.year || (a.year == b.year && (a.month < b.month || (a.month == b.month && a.day <= b.day)))
  }

  lemma LeTotal(a: Date, b: Date)
    ensures Le(a, b) || Le(b, a)
  {
  }

  lemma LeTransitive(a: Date, b: Date, c: Date)
    requires Le(a, b) && Le(b, c)
    ensures Le(a, c)
  {
  }

  lemma LeAntisymmetric(a: Date, b: Date)
    requires Le(a, b) && Le(b, a)
    ensures a == b
  {
  }

  // ----- strptime('%Y%m%d') -----

  /** The two-character `%m` alternatives "1[0-2]" and "0[1-9]" match at the start of `s`. */
  predicate MonthTwo(s: string) {
    |s| >= 2 && ((s[0] == '1' && '0' <= s[1] <= '2') || (s[0] == '0' && '1' <= s[1] <= '9'))
  }

  /** The one-character `%m` alternative "[1-9]" matches at the start of `s`. */
  predicate MonthOne(s: string) {
    |s| >= 1 && '1' <= s[0] <= '9'
  }

  /** Length of the first `%d` alternative that matches at the start of `s`. */
  function DayMatch(s: string): (r: Option<nat>)
    ensures r.Some? ==> r.value <= |s|
    ensures r == Some(2) ==> (IsDigit(s[0]) || s[0] == ' ') && IsDigit(s[1])
    ensures r == Some(1) ==> IsDigit(s[0])
    ensures r.Some? ==> r.value == 1 || r.value == 2
  {
    if |s| >= 2 && s[0] == '3' && (s[1] == '0' || s[1] == '1') then Some(2)
    else if |s| >= 2 && (s[0] == '1' || s[0] == '2') && IsDigit(s[1]) then Some(2)
    else if |s| >= 2 && s[0] == '0' && '1' <= s[1] <= '9' then Some(2)
    else if |s| >= 1 && '1' <= s[0] <= '9' then Some(1)
    else if |s| >= 2 && s[0] == ' ' && '1' <= s[1] <= '9' then Some(2)
    else None
  }

  /** Lengths of the `%m` and `%d` texts matched after the year. */
  function MatchMonthDay(s: string): (r: Option<(nat, nat)>)
    ensures r.Some? ==> r.value.0 + r.value.1 <= |s|
    ensures r.Some? && r.value.0 == 2 ==> MonthTwo(s) && DayMatch(s[2..]) == Some(r.value.1)
    ensures r.Some? && r.value.0 == 1 ==> MonthOne(s) && DayMatch(s[1..]) == Some(r.value.1)
    ensures r.Some? ==> r.value.0 == 1 || r.value.0 == 2
  {
    if MonthTwo(s) && DayMatch(s[2..]).Some? then Some((2, DayMatch(s[2..]).value))
    else if MonthOne(s) && DayMatch(s[1..]).Some? then Some((1, DayMatch(s[1..]).value))
    else None
  }

  /** A matched `%m` or `%d` text: one digit, two digits, or a space and a digit. */
  predicate IsFieldText(t: string) {
    (|t| == 1 && IsDigit(t[0])) || (|t| == 2 && (IsDigit(t[0]) || t[0] == ' ') && IsDigit(t[1]))
  }

  /** The number `int()` reads from a matched `%m` or `%d` text. */
  function FieldNumber(t: string): (n: nat)
    requires IsFieldText(t)
    ensures n < 100
  {
    if t[0] == ' ' then DigitValue(t[1])
    else Value(t)
  }

  /** `datetime.strptime(s, '%Y%m%d')`, or None where it raises ValueError. */
  function ParseDate(s: string): (r: Option<Date>)
    ensures r.Some? ==> ValidDate(r.value)
  {
    if |s| < 4 || !AllDigits(s[..4]) then None
    else
      var rest := s[4..];
      match MatchMonthDay(rest)
      case None => None
      case Some((lm, ld)) =>
        if 4 + lm + ld != |s| then None
        else
          var d := Date(Value(s[..4]), FieldNumber(rest[..lm]), FieldNumber(rest[lm..lm + ld]));
          if ValidDate(d) then Some(d) else None
  }

  // ----- strftime -----

  /** The eight-digit `YYYYMMDD` text of a date. */
  function DateDigits(d: Date): (s: string)
    requires ValidDate(d)
    ensures |s| == 8 && AllDigits(s)
  {
    Pad(d.year, 4) + Pad(d.month, 2) + Pad(d.day, 2)
  }

  /** `strftime('%d/%m/%Y')`: day, month and year, zero-padded, separated by slashes. */
  function RenderDate(d: Date): (s: string)
    requires ValidDate(d)
    ensures |s| == 10 && s[2] == '/' && s[5] == '/'
    ensures AllDigits(s[..2]) && AllDigits(s[3..5]) && AllDigits(s[6..])
    ensures Value(s[..2]) == d.day && Value(s[3..5]) == d.month && Value(s[6..]) == d.year
  {
    var dd, mm, yyyy := Pad(d.day, 2), Pad(d.month, 2), Pad(d.year, 4);
    ValuePad(d.day, 2);
    ValuePad(d.month, 2);
    ValuePad(d.year, 4);
    var s := dd + "/" + mm + "/" + yyyy;
    assert s[..2] == dd && s[3..5] == mm && s[6..] == yyyy;
    s
  }

  lemma Value2(t: string)
    requires |t| == 2 && AllDigits(t)
    ensures Value(t) == 10 * DigitValue(t[0]) + DigitValue(t[1])
  {
  }

  /**
   An eight-digit field is a date exactly when its YYYY, MM and DD digits
   name a real calendar day; the date is then those numbers and is rendered
   as DD/MM/YYYY with the field's own digits.
   */
  lemma EightDigitDate(s: string)
    requires |s| == 8 && AllDigits(s)
    ensures var d := Date(Value(s[..4]), Value(s[4..6]), Value(s[6..]));
      && (ParseDate(s).Some? <==> ValidDate(d))
      && (ParseDate(s).Some? ==> ParseDate(s).value == d && RenderDate(d) == s[6..] + "/" + s[4..6] + "/" + s[..4])
  {
    var rest := s[4..];
    var y, m, dd := Value(s[..4]), Value(s[4..6]), Value(s[6..]);
    var d := Date(y, m, dd);
    assert rest[..2] == s[4..6] && rest[2..] == s[6..];
    Value2(s[4..6]);
    Value2(s[6..]);
    if 1 <= m <= 12 && 1 <= dd <= 31 {
      assert MonthTwo(rest);
      assert DayMatch(rest[2..]) == Some(2);
      assert MatchMonthDay(rest) == Some((2, 2));
      assert rest[2..4] == s[6..];
      assert ParseDate(s) == if ValidDate(d) then Some(d) else None;
      if ValidDate(d) {
        PadValue(s[..4]);
        PadValue(s[4..6]);
        PadValue(s[6..]);
      }
    } else {
      assert !ValidDate(d);
    }
  }

  /** The `YYYYMMDD` digits of a valid date read back as that date. */
  lemma ParseDateDigits(d: Date)
    requires ValidDate(d)
    ensures ParseDate(DateDigits(d)) == Some(d)
  {
    var s := DateDigits(d);
    assert s[..4] == Pad(d.year, 4) && s[4..6] == Pad(d.month, 2) && s[6..] == Pad(d.day, 2);
    ValuePad(d.year, 4);
    ValuePad(d.month, 2);
    ValuePad(d.day, 2);
    EightDigitDate(s);
  }

  lemma Value2023()
    ensures AllDigits("2023") && Value("2023") == 2023
  {
    assert "2023"[..3] == "202" && "202"[..2] == "20" && "20"[..1] == "2" && "2"[..0] == "";
  }

  /** A seven-digit field still matches: the month takes two digits when a day can follow them. */
  lemma LenientSevenDigits()
    ensures ParseDate("2023115") == Some(Date(2023, 11, 5))
  {
    var s := "2023115";
    Value2023();
    assert s[..4] == "2023" && s[4..] == "115";
    assert "115"[2..] == "5" && "115"[..2] == "11" && "115"[2..3] == "5";
    Value2("11");
    assert MatchMonthDay("115") == Some((2, 1));
  }

  /** When no day follows a two-digit month, the engine falls back to a one-digit month. */
  lemma LenientMonthBacktrack()
    ensures ParseDate("2023110") == Some(Date(2023, 1, 10))
  {
    var s := "2023110";
    Value2023();
    assert s[..4] == "2023" && s[4..] == "110";
    assert "110"[2..] == "0" && "110"[1..] == "10" && "110"[..1] == "1" && "110"[1..3] == "10";
    Value2("10");
    assert DayMatch("0") == None;
    assert MatchMonthDay("110") == Some((1, 2));
  }

  /** Month 13 matches as month 1 and day 30, leaving a digit over. */
  lemma MonthThirteenRejected()
    ensures ParseDate("20231305") == None
  {
  }

  /** 29 February of a common year is not a date. */
  lemma CommonYearLeapDayRejected()
    ensures ParseDate("20230229") == None
  {
  }
}
