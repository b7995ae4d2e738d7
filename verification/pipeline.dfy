/**
 `convert_filenames_to_csv` without its I/O. The directory listing is an
 input (None when the folder does not exist), and the result is either the
 condition the program reports instead of writing, or the data rows of the
 CSV file it writes, in file order, after the fixed header.
 */
module Pipeline {
  import opened Options
  import opened Text
  import opened Paths
  import opened Digits
  import opened Dates
  import opened Amounts
  import opened Filename
  import opened Sorting
  import opened Collect

  /** The extensions looked for, compared after lower-casing. */
  const SupportedExtensions: seq<string> := [".pdf", ".jpg", ".jpeg"]

  /**
   A directory entry the program tries to parse: its extension, lower-cased,
   is one of the supported ones. `CandidateByExtension` says which names
   these are.
   */
  predicate IsCandidate(name: string)
    ensures IsCandidate(name) ==> 4 <= |SplitExt(name).1| <= 5 && SplitExt(name).1[0] == '.'
  {
    Lower(SplitExt(name).1) in SupportedExtensions
  }

  /** The candidate entries, in listing order. */
  function Candidates(names: seq<string>): (r: seq<string>)
    ensures forall i :: 0 <= i < |r| ==> IsCandidate(r[i])
    ensures forall i :: 0 <= i < |names| && IsCandidate(names[i]) ==> names[i] in r
    ensures r == [] <==> forall i :: 0 <= i < |names| ==> !IsCandidate(names[i])
  {
    Filter(IsCandidate, names)
  }

  /** The successful parses of `names`, in order; failures are dropped. */
  function ParseAll(names: seq<string>): (r: seq<Invoice>)
    ensures r == [] <==> forall i :: 0 <= i < |names| ==> ParseFilename(names[i]).None?
  {
    FilterMap(ParseFilename, names)
  }

  /** One CSV data row: the columns Date, Vendor, Subject, Amount and Invoice Code, in order. */
  datatype Row = Row(date: string, vendor: string, subject: string, amount: real, code: string)

  /** The row written for a record: every column but the sort key. */
  function ToRow(inv: Invoice): (r: Row)
    ensures |r.date| == 10 && r.date[2] == '/' && r.date[5] == '/'
    ensures AllDigits(r.date[..2]) && AllDigits(r.date[3..5]) && AllDigits(r.date[6..])
    ensures Value(r.date[..2]) == inv.date.day && Value(r.date[3..5]) == inv.date.month && Value(r.date[6..]) == inv.date.year
    ensures r.vendor == inv.vendor && r.subject == inv.subject && r.code == inv.code
    ensures r.amount * 100.0 == inv.cents as real
  {
    Row(RenderDate(inv.date), inv.vendor, inv.subject, Amount(inv.cents), inv.code)
  }

  /** `rows` are the rows of `recs`, one each, in the same order. */
  predicate RowsOf(rows: seq<Row>, recs: seq<Invoice>)
  {
    |rows| == |recs| && forall i :: 0 <= i < |recs| ==> rows[i] == ToRow(recs[i])
  }

  datatype Outcome =
    | FolderMissing
    | NoSupportedFiles
    | NoValidFiles
    | Written(rows: seq<Row>)

  /** The run of the program on a folder whose listing is `listing`. */
  function Convert(listing: Option<seq<string>>): (out: Outcome)
    ensures out.FolderMissing? <==> listing.None?
    ensures out.NoSupportedFiles? <==>
      listing.Some? && forall i :: 0 <= i < |listing.value| ==> !IsCandidate(listing.value[i])
    ensures out.NoValidFiles? <==>
      && listing.Some?
      && (exists i :: 0 <= i < |listing.value| && IsCandidate(listing.value[i]))
      && (forall i :: 0 <= i < |listing.value| && IsCandidate(listing.value[i]) ==> ParseFilename(listing.value[i]).None?)
    ensures out.Written? ==>
      && listing.Some?
      && var recs := SortByDate(ParseAll(Candidates(listing.value)));
      && |recs| > 0
      && RowsOf(out.rows, recs)
  {
    match listing
    case None => FolderMissing
    case Some(names) =>
      var files := Candidates(names);
      if files == [] then NoSupportedFiles
      else
        var sorted := SortByDate(ParseAll(files));
        NothingParsed(names);
        if sorted == [] then NoValidFiles
        else Written(Project(sorted))
  }

  /** The rows of `recs`, one each, in order. */
  function Project(recs: seq<Invoice>): (rows: seq<Row>)
    ensures RowsOf(rows, recs)
  {
    seq(|recs|, i requires 0 <= i < |recs| => ToRow(recs[i]))
  }

  /** The sorted records are empty exactly when no candidate parses. */
  lemma NothingParsed(names: seq<string>)
    ensures SortByDate(ParseAll(Candidates(names))) == [] <==>
      forall i :: 0 <= i < |names| && IsCandidate(names[i]) ==> ParseFilename(names[i]).None?
  {
    var parsed := ParseAll(Candidates(names));
    var sorted := SortByDate(parsed);
    assert |sorted| == |multiset(sorted)| == |multiset(parsed)| == |parsed|;
    FilterMapOfFilterEmpty(ParseFilename, IsCandidate, names);
  }

  /** A name that does not parse drops out and changes nothing else. */
  lemma ParseAllSkipsFailure(a: seq<string>, name: string, b: seq<string>)
    requires ParseFilename(name).None?
    ensures ParseAll(a + [name] + b) == ParseAll(a + b)
  {
    FilterMapSkipsFailure(ParseFilename, a, name, b);
  }

  /** A name that parses contributes its record at its own place, after the records of earlier names. */
  lemma ParseAllKeepsSuccess(a: seq<string>, name: string, b: seq<string>)
    requires ParseFilename(name).Some?
    ensures ParseAll(a + [name] + b) == ParseAll(a) + [ParseFilename(name).value] + ParseAll(b)
  {
    FilterMapKeepsSuccess(ParseFilename, a, name, b);
  }

  /**
   Which directory entries are candidates. An entry name has no slash; it is
   a candidate exactly when some dot in it follows a character other than a
   dot, and the text after its last dot, lower-cased, is pdf, jpg or jpeg.
   So a name without a dot, and a name such as ".pdf" whose dots all lead
   it, is never a candidate.
   */
  lemma CandidateByExtension(name: string)
    requires '/' !in name
    ensures IsCandidate(name) <==>
      && DotAfterNonDot(name)
      && Lower(name[LastIndex(name, '.') + 1..]) in ["pdf", "jpg", "jpeg"]
  {
    if DotAfterNonDot(name) {
      CandidateAfterLastDot(name);
    } else {
      NoExtension(name);
      assert Lower(SplitExt(name).1) == [];
    }
  }

  /** For a name with a dot after a non-dot, the text after the last dot alone decides. */
  lemma CandidateAfterLastDot(name: string)
    requires '/' !in name && DotAfterNonDot(name)
    ensures IsCandidate(name) <==> Lower(name[LastIndex(name, '.') + 1..]) in ["pdf", "jpg", "jpeg"]
  {
    ExtensionAfterLastDot(name);
    CandidateWithSuffix(name, name[LastIndex(name, '.') + 1..]);
  }

  /** A name whose extension is a dot and `suffix` is a candidate exactly when `suffix` is supported. */
  lemma CandidateWithSuffix(name: string, suffix: string)
    requires SplitExt(name).1 == "." + suffix
    ensures IsCandidate(name) <==> Lower(suffix) in ["pdf", "jpg", "jpeg"]
  {
    LowerDot(suffix);
    SupportedSuffix(Lower(suffix));
  }

  /** ".pdf" is a hidden file with no extension, not a PDF. */
  lemma HiddenFileNotCandidate()
    ensures !IsCandidate(".pdf")
  {
    ExtensionOfName(".pdf");
    assert !DotAfterNonDot(".pdf");
  }

  /** A root that is not all dots, a dot and a dot-free suffix: the suffix decides. */
  lemma CandidateBySuffix(root: string, suffix: string)
    requires '/' !in root && HasNonDot(root)
    requires '.' !in suffix && '/' !in suffix
    ensures IsCandidate(root + "." + suffix) <==> Lower(suffix) in ["pdf", "jpg", "jpeg"]
  {
    SplitExtOf(root, suffix);
    CandidateWithSuffix(root + "." + suffix, suffix);
  }

  lemma LowerDot(s: string)
    ensures Lower("." + s) == "." + Lower(s)
  {
  }

  lemma SupportedSuffix(s: string)
    ensures "." + s in SupportedExtensions <==> s in ["pdf", "jpg", "jpeg"]
  {
    assert ".pdf" == "." + "pdf" && ".jpg" == "." + "jpg" && ".jpeg" == "." + "jpeg";
    if "." + s in SupportedExtensions {
      assert s == ("." + s)[1..];
    }
  }

  /** A listed candidate that parses contributes its record at its listing position. */
  lemma ListedRecordKept(a: seq<string>, name: string, b: seq<string>)
    requires IsCandidate(name) && ParseFilename(name).Some?
    ensures ParseAll(Candidates(a + [name] + b)) ==
      ParseAll(Candidates(a)) + [ParseFilename(name).value] + ParseAll(Candidates(b))
  {
    FilterKeeps(IsCandidate, a, name, b);
    FilterMapKeepsSuccess(ParseFilename, Candidates(a), name, Candidates(b));
  }

  /** A listed name that is not a candidate, or does not parse, contributes nothing. */
  lemma ListedRecordSkipped(a: seq<string>, name: string, b: seq<string>)
    requires !IsCandidate(name) || ParseFilename(name).None?
    ensures ParseAll(Candidates(a + [name] + b)) == ParseAll(Candidates(a + b))
  {
    if !IsCandidate(name) {
      FilterSkips(IsCandidate, a, name, b);
    } else {
      FilterKeeps(IsCandidate, a, name, b);
      FilterMapSkipsFailure(ParseFilename, Candidates(a), name, Candidates(b));
      FilterAppend(IsCandidate, a, b);
    }
  }

  /** Moving the brackets of a five-part concatenation. */
  lemma Regroup<T>(a: seq<T>, x: T, m: seq<T>, y: T, b: seq<T>)
    ensures a + [x] + m + [y] + b == a + [x] + (m + [y] + b)
  {
  }

  /**
   Two listed candidates with records of the same date are written in
   listing order, among the records of that date from the rest of the
   listing.
   */
  lemma SameDateInListingOrder(a: seq<string>, n1: string, m: seq<string>, n2: string, b: seq<string>,
                               r1: Invoice, r2: Invoice)
    requires IsCandidate(n1) && ParseFilename(n1) == Some(r1)
    requires IsCandidate(n2) && ParseFilename(n2) == Some(r2)
    requires r1.date == r2.date
    ensures var d := r1.date;
      OnDate(SortByDate(ParseAll(Candidates(a + [n1] + m + [n2] + b))), d) ==
        OnDate(ParseAll(Candidates(a)), d) + [r1] + OnDate(ParseAll(Candidates(m)), d)
        + [r2] + OnDate(ParseAll(Candidates(b)), d)
  {
    var d := r1.date;
    var rest := m + [n2] + b;
    Regroup(a, n1, m, n2, b);
    var parsed := ParseAll(Candidates(a + [n1] + rest));
    var pa, pm, pb := ParseAll(Candidates(a)), ParseAll(Candidates(m)), ParseAll(Candidates(b));
    ListedRecordKept(a, n1, rest);
    ListedRecordKept(m, n2, b);
    assert parsed == pa + [r1] + (pm + [r2] + pb);
    SortStable(parsed, d);
    calc {
      OnDate(SortByDate(parsed), d);
      OnDate(pa + [r1] + (pm + [r2] + pb), d);
      { OnDateKeeps(pa, r1, pm + [r2] + pb, d); }
      OnDate(pa, d) + [r1] + OnDate(pm + [r2] + pb, d);
      { OnDateKeeps(pm, r2, pb, d); }
      OnDate(pa, d) + [r1] + (OnDate(pm, d) + [r2] + OnDate(pb, d));
      { Regroup(OnDate(pa, d), r1, OnDate(pm, d), r2, OnDate(pb, d)); }
      OnDate(pa, d) + [r1] + OnDate(pm, d) + [r2] + OnDate(pb, d);
    }
  }

  /**
   The written rows are those of the one date-sorted arrangement of the
   parsed records that keeps records of the same date in listing order.
   */
  lemma ConvertWritesStableSort(names: seq<string>)
    requires Convert(Some(names)).Written?
    ensures var parsed := ParseAll(Candidates(names));
      exists recs: seq<Invoice> ::
        && Sorted(recs)
        && (forall d :: OnDate(recs, d) == OnDate(parsed, d))
        && multiset(recs) == multiset(parsed)
          && RowsOf(Convert(Some(names)).rows, recs)
  {
    var parsed := ParseAll(Candidates(names));
    var recs := SortByDate(parsed);
    forall d
      ensures OnDate(recs, d) == OnDate(parsed, d)
    {
      SortStable(parsed, d);
    }
  }

  /** A conventional name with a supported extension, in any letter case, is a candidate. */
  lemma FormattedIsCandidate(inv: Invoice, suffix: string)
    requires Nameable(inv)
    requires '.' !in suffix && '/' !in suffix && Lower(suffix) in ["pdf", "jpg", "jpeg"]
    ensures IsCandidate(FormatFilename(inv, "." + suffix))
  {
    var stem := StemOf(inv);
    assert FormatFilename(inv, "." + suffix) == stem + "." + suffix;
    StemShape(inv);
    CandidateBySuffix(stem, suffix);
  }

  /**
   Two candidates that parse to records of different dates come out earlier
   date first, whichever order the folder lists them in. Names built by
   `FormatFilename` with a supported extension meet the requirements
   (`FormattedIsCandidate`, `Filename.ParseFormatFilename`).
   */
  lemma EarlierDateFirst(nameA: string, nameB: string, a: Invoice, b: Invoice)
    requires IsCandidate(nameA) && IsCandidate(nameB)
    requires ParseFilename(nameA) == Some(a) && ParseFilename(nameB) == Some(b)
    requires Le(a.date, b.date) && a.date != b.date
    ensures Convert(Some([nameA, nameB])) == Written(Project([a, b]))
    ensures Convert(Some([nameB, nameA])) == Written(Project([a, b]))
  {
    SortPair(a, b);
    TwoNames(nameA, nameB, a, b);
    TwoNames(nameB, nameA, b, a);
  }

  /** A listing of two candidates that both parse writes the rows of their two records, date-sorted. */
  lemma TwoNames(n1: string, n2: string, r1: Invoice, r2: Invoice)
    requires IsCandidate(n1) && IsCandidate(n2)
    requires ParseFilename(n1) == Some(r1) && ParseFilename(n2) == Some(r2)
    ensures Convert(Some([n1, n2])) == Written(Project(SortByDate([r1, r2])))
  {
    FilterPair(IsCandidate, n1, n2);
    FilterMapPair(ParseFilename, n1, n2);
    assert ParseAll(Candidates([n1, n2])) == [r1, r2];
  }
}
