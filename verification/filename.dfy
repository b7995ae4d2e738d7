/**
 The invoice file-name grammar

     YYYYMMDD-<vendor>-<subject>-<amount in cents>[ <invoice code>].<ext>

 read the way `parse_filename` reads it: drop the directory and the
 extension, split on spaces and take the last segment as the invoice code
 when there are several, then split what is left on hyphens into exactly
 date, vendor, subject and amount. Any failure is "no record".
 */
module Filename {
  import opened Options
  import opened Text
  import opened Paths
  import opened Digits
  import opened Dates
  import opened Amounts

  /**
   One parsed file name. `date` is the hidden sort key; the displayed date is
   rendered from it. `cents` is the amount as written in the name.
   */
  datatype Invoice = Invoice(date: CalendarDate, vendor: string, subject: string, cents: int, code: string)

  /** The file name without directory and extension. */
  function Stem(path: string): string {
    SplitExt(Basename(path)).0
  }

  /**
   The main part and the invoice code of a stem. With a space in the stem the
   code is the text after the last space and the main part everything before
   it; without one the code is empty.
   */
  function SplitCode(stem: string): (r: (string, string))
    ensures ' ' in stem ==> r.0 + " " + r.1 == stem && ' ' !in r.1
    ensures ' ' !in stem ==> r == (stem, "")
  {
    var parts := Split(stem, ' ');
    JoinSplit(stem, ' ');
    if |parts| > 1 then
      JoinSnoc(parts, ' ');
      (Join(parts[..|parts| - 1], ' '), parts[|parts| - 1])
    else
      (parts[0], "")
  }

  /** `parse_filename`: the record a file name encodes, or None. */
  function ParseFilename(path: string): (r: Option<Invoice>)
    ensures r.Some? ==> '-' !in r.value.vendor && '-' !in r.value.subject
    ensures r.Some? ==> r.value.cents >= 0
    ensures r.Some? ==> r.value.code == SplitCode(Stem(path)).1
    ensures Count(SplitCode(Stem(path)).0, '-') != 3 ==> r.None?
  {
    var (main, code) := SplitCode(Stem(path));
    var fields := Split(main, '-');
    if |fields| != 4 then None
    else ReadRecord(fields, code)
  }

  /** The record held by date, vendor, subject and amount texts, or None when the date or the amount is unreadable. */
  function ReadRecord(fields: seq<string>, code: string): (r: Option<Invoice>)
    requires |fields| == 4
    ensures r.None? <==> ParseDate(fields[0]).None? || ParseInt(fields[3]).None?
    ensures r.Some? ==>
      && ParseDate(fields[0]) == Some(r.value.date)
      && r.value.vendor == fields[1] && r.value.subject == fields[2]
      && ParseInt(fields[3]) == Some(r.value.cents)
      && r.value.code == code
  {
    match ParseDate(fields[0])
    case None => None
    case Some(date) =>
      match ParseInt(fields[3])
      case None => None
      case Some(cents) => Some(Invoice(date, fields[1], fields[2], cents, code))
  }

  /**
   A parsed record comes from a main part made of a date field, the vendor,
   the subject and an amount field joined by hyphens, with the date and the
   amount read from those fields.
   */
  lemma ParsedMainPart(path: string)
    requires ParseFilename(path).Some?
    ensures var inv := ParseFilename(path).value;
      var main := SplitCode(Stem(path)).0;
      exists dateText, amountText ::
        && main == dateText + "-" + inv.vendor + "-" + inv.subject + "-" + amountText
        && ParseDate(dateText) == Some(inv.date)
        && ParseInt(amountText) == Some(inv.cents)
  {
    var main := SplitCode(Stem(path)).0;
    var f := Split(main, '-');
    JoinSplit(main, '-');
    assert |f| == 4;
    var inv := ParseFilename(path).value;
    assert inv.vendor == f[1] && inv.subject == f[2];
    assert ParseDate(f[0]) == Some(inv.date) && ParseInt(f[3]) == Some(inv.cents);
    JoinFour(f, '-');
  }

  /** The name `parse_filename` expects for an invoice, with extension `ext`. */
  function FormatFilename(inv: Invoice, ext: string): string
  {
    StemOf(inv) + ext
  }

  /**
   The invoices the naming convention can carry: a non-negative amount, no hyphen in vendor or subject, no slash anywhere,
   no space in the code, and no space at all when there is no code.
   */
  predicate Nameable(inv: Invoice) {
    && inv.cents >= 0
    && '-' !in inv.vendor && '-' !in inv.subject
    && '/' !in inv.vendor && '/' !in inv.subject && '/' !in inv.code
    && ' ' !in inv.code
    && (inv.code == "" ==> ' ' !in inv.vendor && ' ' !in inv.subject)
  }

  /** Only the text after the last space can be the space-free tail. */
  lemma {:induction false} LastSpaceUnique(a: string, b: string, c: string, d: string)
    requires ' ' !in b && ' ' !in d
    requires a + " " + b == c + " " + d
    ensures a == c && b == d
  {
    var s := a + " " + b;
    LastIndexBefore(a, ' ', b);
    LastIndexBefore(c, ' ', d);
    assert a == s[..|a|] && c == s[..|c|];
    assert b == s[|a| + 1..] && d == s[|c| + 1..];
  }

  /** The hyphen-joined main part of a conventional name. */
  function MainPart(inv: Invoice): string
  {
    DateDigits(inv.date) + "-" + inv.vendor + "-" + inv.subject + "-" + FormatInt(inv.cents)
  }

  /** The stem of a conventional name: the main part, then a space and the code if there is one. */
  function StemOf(inv: Invoice): string
  {
    MainPart(inv) + (if inv.code == "" then "" else " " + inv.code)
  }

  /** A conventional stem has no slash and starts with a digit. */
  lemma StemShape(inv: Invoice)
    requires Nameable(inv)
    ensures '/' !in StemOf(inv) && HasNonDot(StemOf(inv))
  {
    var dateText, amountText := DateDigits(inv.date), FormatInt(inv.cents);
    assert AllDigits(amountText);
    var stem := StemOf(inv);
    assert '/' !in dateText && '/' !in amountText;
    assert '/' !in MainPart(inv);
    assert stem[0] == dateText[0];
  }

  lemma FormatStem(inv: Invoice, suffix: string)
    requires Nameable(inv)
    requires '.' !in suffix && '/' !in suffix
    ensures Stem(FormatFilename(inv, "." + suffix)) == StemOf(inv)
  {
    var stem := StemOf(inv);
    var path := FormatFilename(inv, "." + suffix);
    assert path == stem + "." + suffix;
    StemShape(inv);
    SplitExtOf(stem, suffix);
    assert '/' !in path;
  }

  lemma StemCode(inv: Invoice)
    requires Nameable(inv)
    ensures SplitCode(StemOf(inv)) == (MainPart(inv), inv.code)
  {
    var main, stem := MainPart(inv), StemOf(inv);
    if inv.code == "" {
      var dateText, amountText := DateDigits(inv.date), FormatInt(inv.cents);
      assert AllDigits(amountText);
      assert ' ' !in dateText && ' ' !in amountText;
      assert ' ' !in main;
      assert stem == main;
    } else {
      var r := SplitCode(stem);
      assert stem == main + " " + inv.code;
      assert ' ' in stem by {
        assert stem[|main|] == ' ';
      }
      LastSpaceUnique(r.0, r.1, main, inv.code);
    }
  }

  lemma MainFields(inv: Invoice)
    requires Nameable(inv)
    ensures Split(MainPart(inv), '-') == [DateDigits(inv.date), inv.vendor, inv.subject, FormatInt(inv.cents)]
  {
    var dateText, amountText := DateDigits(inv.date), FormatInt(inv.cents);
    assert AllDigits(amountText);
    assert '-' !in dateText && '-' !in amountText;
    var fields := [dateText, inv.vendor, inv.subject, amountText];
    JoinFour(fields, '-');
    assert forall i :: 0 <= i < 4 ==> '-' !in fields[i];
    SplitJoin(fields, '-');
  }

  /** Formatting an invoice the conventional way and parsing the name gives the invoice back. */
  lemma ParseFormatFilename(inv: Invoice, suffix: string)
    requires Nameable(inv)
    requires '.' !in suffix && '/' !in suffix
    ensures ParseFilename(FormatFilename(inv, "." + suffix)) == Some(inv)
  {
    var path := FormatFilename(inv, "." + suffix);
    FormatStem(inv, suffix);
    StemCode(inv);
    MainFields(inv);
    ParseDateDigits(inv.date);
    ParseFormatInt(inv.cents);
    ParseFields(path, MainPart(inv), DateDigits(inv.date), inv.vendor, inv.subject, FormatInt(inv.cents), inv.code, inv.date, inv.cents);
  }

  /** A name whose main part splits into four readable fields parses to the record they hold. */
  lemma ParseFields(path: string, main: string, dateText: string, vendor: string, subject: string,
                    amountText: string, code: string, date: CalendarDate, cents: int)
    requires SplitCode(Stem(path)) == (main, code)
    requires Split(main, '-') == [dateText, vendor, subject, amountText]
    requires ParseDate(dateText) == Some(date) && ParseInt(amountText) == Some(cents)
    ensures ParseFilename(path) == Some(Invoice(date, vendor, subject, cents, code))
  {
  }
}
