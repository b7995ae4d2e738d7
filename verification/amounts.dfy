/**
 The amount field: Python's `int(text)` in base 10 and the cents-to-currency
 division. `int` skips whitespace around the number, takes one optional
 sign, and reads decimal digits that may be grouped by single underscores
 between digits; anything else raises ValueError.
 */
module Amounts {
  import opened Options
  import opened Digits

  /** ASCII whitespace: tab, line feed, vertical tab, form feed, carriage return, space. */
  predicate IsSpace(c: char) {
    c == ' ' || 9 <= c as int <= 13
  }

  function TrimStart(s: string): (r: string)
    ensures |r| <= |s| && r == s[|s| - |r|..]
    ensures |r| > 0 ==> !IsSpace(r[0])
    ensures forall i :: 0 <= i < |s| - |r| ==> IsSpace(s[i])
  {
    if |s| > 0 && IsSpace(s[0]) then TrimStart(s[1..]) else s
  }

  function TrimEnd(s: string): (r: string)
    ensures |r| <= |s| && r == s[..|r|]
    ensures |r| > 0 ==> !IsSpace(r[|r| - 1])
    ensures forall i :: |r| <= i < |s| ==> IsSpace(s[i])
  {
    if |s| > 0 && IsSpace(s[|s| - 1]) then TrimEnd(s[..|s| - 1]) else s
  }

  /** Digits, with single underscores allowed only between two digits. */
  predicate DigitGroups(b: string) {
    && |b| > 0
    && IsDigit(b[0])
    && IsDigit(b[|b| - 1])
    && (forall i :: 0 <= i < |b| ==> IsDigit(b[i]) || b[i] == '_')
    && NoDoubleUnderscore(b)
  }

  /** No two underscores stand next to each other. */
  predicate NoDoubleUnderscore(b: string) {
    |b| < 2 || (!(b[0] == '_' && b[1] == '_') && NoDoubleUnderscore(b[1..]))
  }

  /** The digits of `b`, underscores dropped. */
  function DropUnderscores(b: string): (r: string)
    requires forall i :: 0 <= i < |b| ==> IsDigit(b[i]) || b[i] == '_'
    ensures AllDigits(r)
    ensures AllDigits(b) ==> r == b
  {
    if |b| == 0 then ""
    else (if b[0] == '_' then "" else [b[0]]) + DropUnderscores(b[1..])
  }

  /** The value of a digit-group text, or None. */
  function ParseGroups(b: string): Option<nat>
  {
    if DigitGroups(b) then Some(Value(DropUnderscores(b))) else None
  }

  /** Plain digits are digit groups without underscores. */
  lemma {:induction false} GroupsOfDigits(b: string)
    requires |b| > 0 && AllDigits(b)
    ensures ParseGroups(b) == Some(Value(b))
  {
    DigitsNoDoubleUnderscore(b);
  }

  lemma {:induction false} DigitsNoDoubleUnderscore(b: string)
    requires AllDigits(b)
    ensures NoDoubleUnderscore(b)
  {
    if |b| >= 2 {
      assert AllDigits(b[1..]) by {
        assert forall i :: 0 <= i < |b| - 1 ==> b[1..][i] == b[i + 1];
      }
      DigitsNoDoubleUnderscore(b[1..]);
    }
  }

  /** A whitespace-free number: an optional sign and digit groups. */
  function ParseSigned(t: string): (r: Option<int>)
    ensures r.Some? && (|t| == 0 || t[0] != '-') ==> r.value >= 0
  {
    if |t| > 0 && t[0] == '-' then Negate(ParseGroups(t[1..]))
    else if |t| > 0 && t[0] == '+' then Widen(ParseGroups(t[1..]))
    else Widen(ParseGroups(t))
  }

  function Widen(n: Option<nat>): (r: Option<int>)
    ensures r.Some? ==> r.value >= 0
  {
    match n
    case None => None
    case Some(v) => Some(v as int)
  }

  function Negate(n: Option<nat>): Option<int> {
    match n
    case None => None
    case Some(v) => Some(-(v as int))
  }

  /**
   `int(s)` on ASCII text, or None where it raises ValueError. There is no
   digit limit here: a file name is too short to reach the one in `int`.
   */
  function ParseInt(s: string): (r: Option<int>)
    ensures r.Some? && '-' !in s ==> r.value >= 0
  {
    TrimAddsNothing(s, '-');
    ParseSigned(TrimEnd(TrimStart(s)))
  }

  /** Trimming never introduces a character. */
  lemma TrimAddsNothing(s: string, c: char)
    ensures c in TrimEnd(TrimStart(s)) ==> c in s
  {
    var u := TrimStart(s);
    assert forall k :: 0 <= k < |u| ==> u[k] == s[|s| - |u| + k];
    var t := TrimEnd(u);
    assert forall k :: 0 <= k < |t| ==> t[k] == u[k];
  }

  /** Text that neither starts nor ends with whitespace is not trimmed. */
  lemma NothingToTrim(s: string)
    requires |s| > 0 && !IsSpace(s[0]) && !IsSpace(s[|s| - 1])
    ensures TrimEnd(TrimStart(s)) == s
  {
  }

  /** Digits alone read as their value. */
  lemma ParseDigits(digits: string)
    requires |digits| > 0 && AllDigits(digits)
    ensures ParseInt(digits) == Some(Value(digits))
  {
    NothingToTrim(digits);
    GroupsOfDigits(digits);
  }

  lemma SignedNegative(body: string, n: nat)
    requires ParseGroups(body) == Some(n)
    ensures ParseSigned("-" + body) == Some(-(n as int))
  {
  }

  /** A minus sign followed by digits reads as the negated value of the digits. */
  lemma ParseNegative(digits: string)
    requires |digits| > 0 && AllDigits(digits)
    ensures ParseInt("-" + digits) == Some(-(Value(digits) as int))
  {
    NegativeUntrimmed(digits);
    GroupsOfDigits(digits);
    SignedNegative(digits, Value(digits));
  }

  lemma NegativeUntrimmed(digits: string)
    requires |digits| > 0 && AllDigits(digits)
    ensures TrimEnd(TrimStart("-" + digits)) == "-" + digits
  {
    var s := "-" + digits;
    assert s[|s| - 1] == digits[|digits| - 1];
    NothingToTrim(s);
  }

  /** A decimal point is not part of an integer: "12.50" is rejected. */
  lemma DecimalPointRejected()
    ensures ParseInt("12.50") == None
  {
  }

  /** Underscores between digits group them: "1_000" reads as 1000. */
  lemma UnderscoreGrouping()
    ensures ParseInt("1_000") == Some(1000)
  {
    var s := "1_000";
    assert ParseGroups(s) == Some(1000) by {
      assert DigitGroups(s);
      assert s[1..] == "_000" && "_000"[1..] == "000";
      assert DropUnderscores(s) == "1000";
      assert "1000"[..3] == "100" && "100"[..2] == "10" && "10"[..1] == "1" && "1"[..0] == "";
    }
    calc {
      ParseInt(s);
      { NothingToTrim(s); }
      ParseSigned(s);
      Widen(ParseGroups(s));
    }
  }

  /** `str(n)`: a minus sign for negatives, then the shortest digits. */
  function FormatInt(n: int): string
  {
    if n < 0 then "-" + Decimal(-n) else Decimal(n)
  }

  /** Reading back the decimal text of an integer gives the integer. */
  lemma ParseFormatInt(n: int)
    ensures ParseInt(FormatInt(n)) == Some(n)
  {
    var magnitude: nat := if n < 0 then -n else n;
    var digits := Decimal(magnitude);
    ValueDecimal(magnitude);
    if n < 0 {
      ParseNegative(digits);
      calc {
        ParseInt(FormatInt(n));
        ParseInt("-" + digits);
        Some(n);
      }
    } else {
      ParseDigits(digits);
      calc {
        ParseInt(FormatInt(n));
        ParseInt(digits);
        Some(n);
      }
    }
  }

  /** The currency value `int(amount) / 100` of a count of cents, as an exact rational. */
  function Amount(cents: int): (a: real)
    ensures a * 100.0 == cents as real
    ensures cents >= 0 ==> a >= 0.0
  {
    cents as real / 100.0
  }
}
