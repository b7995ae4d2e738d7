# invoices-to-csv in Dafny

This project models `invoices-to-csv.py`, a script that reads a folder of
invoice documents and writes one CSV row per file whose name follows the
convention

    YYYYMMDD-<vendor>-<subject>-<amount in cents>[ <invoice code>].pdf|.jpg|.jpeg

The model covers two functions. `parse_filename` becomes
`Filename.ParseFilename`, which returns an `Option<Invoice>`. The pure part
of `convert_filenames_to_csv` becomes `Pipeline.Convert`. It takes the
folder listing as an input, where `None` stands for a missing folder. It
returns either the condition the script reports instead of writing, or the
data rows it writes under the header `Date,Vendor,Subject,Amount,Invoice Code`.

Modules follow the program's steps:

- `Text`: Python's `str.split` and `str.join` for a one-character
  separator, and ASCII `lower`.
- `Digits`: digit strings, their values, and zero-padded and shortest
  renderings.
- `Paths`: POSIX `os.path.basename` and `os.path.splitext`. `splitext`
  includes its rule that leading dots of a name are not an extension.
- `Dates`: `datetime.strptime(text, '%Y%m%d')` as the regular-expression
  match Python performs.
  - `%m` tries `1[0-2]`, `0[1-9]`, `[1-9]`.
  - `%d` tries `3[01]`, `[12]\d`, `0[1-9]`, `[1-9]`, ` [1-9]`.
  - The matcher backtracks into `%m` only when no `%d` alternative fits.
  - Any text left over after the match is rejected.
  - This is followed by calendar validation, `strftime('%d/%m/%Y')`, and
    chronological order.
- `Amounts`: `int(text)` on ASCII text and the division by 100.
  - `int` strips surrounding whitespace.
  - It takes one optional sign.
  - Underscores are allowed between digits.
- `Filename`: `parse_filename` and the inverse naming convention.
- `Sorting`: `sorted(..., key=_SortDate)` as a stable insertion sort.
- `Collect`: the two list comprehensions, filtering and dropping failed
  parses.
- `Pipeline`: `convert_filenames_to_csv`.

The script parses `os.path.join(folder, entry)` (line 69). A directory
entry never contains a slash, so the basename of the joined path is the
entry itself (`Paths.BasenameJoin`), and the model parses the entry name.

The model includes the extension filter at line 62, so only entries with a
supported extension are parsed (`Pipeline.Candidates`). `os.path.splitext`
treats the leading dots of a name as part of the name, so ".pdf" has no
extension and is never a candidate (`Pipeline.HiddenFileNotCandidate`).

Some inputs pass the parser that its comments do not suggest:

- The docstring at line 10 names the field only "date", and the comment
  at line 34 describes it as YYYY-MM-DD. The format `'%Y%m%d'` at line 35
  reads as eight digits, but `strptime` also accepts shorter fields. For
  example "2023115" is 5 November 2023 (`Dates.LenientSevenDigits`).
- The amount at line 42 goes through `int`, which accepts surrounding
  whitespace, a leading `+` and underscores between digits
  (`Amounts.UnderscoreGrouping`). `int` also accepts a minus sign, but the
  amount is a field of `main_parts.split('-')` at line 32 and never
  contains one, so every parsed amount is non-negative
  (`Filename.ParseFilename`).

## Model

| member | source | states |
|---|---|---|
| Text.Split | invoices-to-csv.py:22 | `str.split` on one character gives one more part than there are separators, and no part contains the separator |
| Text.JoinSplit | invoices-to-csv.py:22-26 | joining the parts of a split with the separator gives the original text back, so main part + " " + code rebuilds the stem |
| Text.SplitJoin | invoices-to-csv.py:32 | splitting a join of separator-free parts gives exactly those parts back |
| Text.SplitAround | invoices-to-csv.py:32 | splitting text that contains a separator is splitting each side and concatenating the parts |
| Text.Lower | invoices-to-csv.py:62 | lower-casing keeps the length and maps exactly 'A'..'Z' to 'a'..'z' |
| Digits.ValuePad | invoices-to-csv.py:35 | a zero-padded rendering reads back as the number it renders |
| Digits.PadValue | invoices-to-csv.py:35 | padding a digit string's value to the string's length gives the string back |
| Digits.ValueDecimal | invoices-to-csv.py:42 | the shortest decimal rendering of a number reads back as that number |
| Paths.Basename | invoices-to-csv.py:15 | the basename is a slash-free suffix of the path; it is the whole path when the path has no slash, and otherwise exactly what follows the last slash |
| Paths.BasenameJoin | invoices-to-csv.py:15-69 | the basename of a folder joined with a slash-free entry is the entry |
| Paths.SplitExt | invoices-to-csv.py:17 | root and extension concatenate to the path, and the extension is empty or one dot followed by no dot or slash |
| Paths.ExtensionOfName | invoices-to-csv.py:17-62 | a slash-free name has an empty extension exactly when no dot follows a non-dot character; otherwise the extension starts at the last dot |
| Paths.ExtensionAfterLastDot | invoices-to-csv.py:62 | for a slash-free name with a dot after a non-dot, the extension is the last dot and what follows it |
| Paths.SplitExtOf | invoices-to-csv.py:17 | a slash-free root that is not all dots, a dot and a dot- and slash-free suffix split exactly at that dot |
| Dates.DaysInMonth | invoices-to-csv.py:35 | months have 28 to 31 days, with 29 exactly for February of a leap year |
| Dates.ParseDate | invoices-to-csv.py:35 | `strptime` succeeds only with a real calendar day in years 1 to 9999 |
| Dates.RenderDate | invoices-to-csv.py:35 | the displayed date is ten characters DD/MM/YYYY, with slashes at positions 2 and 5, whose digit groups read as the day, month and year |
| Dates.EightDigitDate | invoices-to-csv.py:35 | an eight-digit field parses if and only if its YYYY, MM, DD numbers form a valid date; it then parses to that date, which is displayed as DD/MM/YYYY using the field's own digits |
| Dates.ParseDateDigits | invoices-to-csv.py:35-39 | the YYYYMMDD digits of any valid date parse back to that date |
| Dates.LenientSevenDigits | invoices-to-csv.py:35 | "2023115" is accepted as 5 November 2023 |
| Dates.LenientMonthBacktrack | invoices-to-csv.py:35 | "2023110" is accepted as 10 January 2023, since no day follows month "11" |
| Dates.MonthThirteenRejected | invoices-to-csv.py:35 | "20231305" is rejected |
| Dates.CommonYearLeapDayRejected | invoices-to-csv.py:35 | "20230229" is rejected |
| Amounts.TrimStart | invoices-to-csv.py:42 | `int` drops exactly the leading whitespace |
| Amounts.TrimEnd | invoices-to-csv.py:42 | `int` drops exactly the trailing whitespace |
| Amounts.GroupsOfDigits | invoices-to-csv.py:42 | a non-empty run of plain digits is valid digit-group text and reads as its decimal value |
| Amounts.ParseDigits | invoices-to-csv.py:42 | an unsigned digit amount reads as its value in cents |
| Amounts.ParseInt | invoices-to-csv.py:42 | text without a minus sign never reads as a negative number; `Amounts.ParseFormatInt` is its inverse |
| Amounts.ParseNegative | invoices-to-csv.py:42 | `int` accepts a minus sign before digits and negates the value, but `parse_filename` never passes it one |
| Amounts.DecimalPointRejected | invoices-to-csv.py:42-49 | an amount with a decimal point ("12.50") is a parse failure |
| Amounts.UnderscoreGrouping | invoices-to-csv.py:42 | "1_000" reads as 1000 |
| Amounts.ParseFormatInt | invoices-to-csv.py:42 | `int(str(n)) == n` for every integer n, digit limit aside (see Amounts.ParseInt under Left out) |
| Amounts.Amount | invoices-to-csv.py:42 | the amount times 100 is the number of cents, and it is non-negative for non-negative cents |
| Collect.Filter | invoices-to-csv.py:62 | the filtered list holds only passing elements and every passing element; it is empty exactly when none passes |
| Collect.FilterKeeps | invoices-to-csv.py:62 | a passing element stays in its place, between what the elements before and after it leave |
| Collect.FilterSkips | invoices-to-csv.py:62 | a failing element drops out and changes nothing else |
| Collect.FilterMap | invoices-to-csv.py:69-72 | the successes are empty exactly when every conversion fails, and there are no more of them than inputs |
| Collect.FilterMapSkipsFailure | invoices-to-csv.py:72 | a failed conversion drops out without changing anything else |
| Collect.FilterMapKeepsSuccess | invoices-to-csv.py:69-72 | a successful conversion contributes its result in its own position |
| Filename.SplitCode | invoices-to-csv.py:22-29 | with a space in the stem, main part + " " + code is the stem and the code has no space; without a space, the code is empty and the main part is the stem |
| Filename.ParseFilename | invoices-to-csv.py:7-49 | a parsed record has a hyphen-free vendor and subject, a non-negative amount and the code from the last space; a main part with other than three hyphens is a failure |
| Filename.ReadRecord | invoices-to-csv.py:32-44 | four fields give a record exactly when the date and the amount both read; the record holds the date and amount read, the vendor and subject fields and the code |
| Filename.ParsedMainPart | invoices-to-csv.py:32-42 | a parsed record's main part is date text - vendor - subject - amount text, with the date and cents read from those texts |
| Filename.ParseFormatFilename | invoices-to-csv.py:7-44 | naming any representable invoice by the convention, with any dot-free extension, and parsing the name gives the invoice back |
| Sorting.SortByDate | invoices-to-csv.py:74 | the sorted records are a permutation of the input, in non-decreasing date order |
| Sorting.OnDateKeeps | invoices-to-csv.py:74 | a record of a date sits in that date's run between the runs of the records before and after it |
| Sorting.SortStable | invoices-to-csv.py:74 | for every date, the sort keeps that date's records in input order |
| Sorting.SortUnique | invoices-to-csv.py:74 | every date-sorted arrangement that keeps each date's records in input order equals the sort |
| Sorting.SortPair | invoices-to-csv.py:74 | two records of different dates come out earlier first, whichever order they come in |
| Pipeline.Candidates | invoices-to-csv.py:61-62 | candidates are exactly the entries with a supported extension; there are none exactly when no entry has one |
| Pipeline.IsCandidate | invoices-to-csv.py:61-62 | a candidate's extension is a dot and three or four more characters |
| Pipeline.CandidateByExtension | invoices-to-csv.py:17-62 | a slash-free name is a candidate if and only if some dot follows a non-dot character and the text after the last dot, lower-cased, is pdf, jpg or jpeg |
| Pipeline.CandidateAfterLastDot | invoices-to-csv.py:62 | for a name with a dot after a non-dot, the text after the last dot alone decides |
| Pipeline.HiddenFileNotCandidate | invoices-to-csv.py:62 | ".pdf" is not a candidate, because its only dot leads the name |
| Pipeline.CandidateBySuffix | invoices-to-csv.py:62 | a root that is not all dots, a dot and a dot-free suffix is a candidate exactly when the suffix is supported |
| Pipeline.FormattedIsCandidate | invoices-to-csv.py:62 | a conventional name with a supported extension in any letter case is a candidate |
| Pipeline.ParseAll | invoices-to-csv.py:69-72 | the parsed records are empty exactly when no name parses |
| Pipeline.ParseAllSkipsFailure | invoices-to-csv.py:69-72 | an unparseable name is dropped and changes nothing else |
| Pipeline.ParseAllKeepsSuccess | invoices-to-csv.py:69-72 | a parseable name contributes its record in listing position |
| Pipeline.ListedRecordKept | invoices-to-csv.py:62-72 | a listed candidate that parses contributes its record between the records of the entries listed before and after it |
| Pipeline.ListedRecordSkipped | invoices-to-csv.py:62-72 | a listed entry that is not a candidate, or does not parse, contributes nothing and changes nothing else |
| Pipeline.ToRow | invoices-to-csv.py:37-86 | a row has the DD/MM/YYYY date of the record, its vendor, subject and code, and an amount that is its cents divided by 100; the sort key is not a column |
| Pipeline.Project | invoices-to-csv.py:84-86 | there is one row per record, in order, and each is that record's row |
| Pipeline.Convert | invoices-to-csv.py:51-90 | missing folder, no supported files, no parseable candidates and written rows are each characterised exactly; when written, there is at least one row and the rows are the sorted parsed records, in order |
| Pipeline.NothingParsed | invoices-to-csv.py:69-90 | nothing is written exactly when every candidate fails to parse |
| Pipeline.ConvertWritesStableSort | invoices-to-csv.py:74-86 | the written rows come from a date-sorted permutation of the parsed records that keeps each date's records in the order the parsed records have |
| Pipeline.SameDateInListingOrder | invoices-to-csv.py:62-74 | two listed candidates with records of one date come out in listing order, among that date's records from the entries listed before, between and after them |
| Pipeline.TwoNames | invoices-to-csv.py:62-86 | two parseable candidates are written as the rows of their records, sorted |
| Pipeline.EarlierDateFirst | invoices-to-csv.py:74-86 | two parseable candidates with different dates produce the same rows, earlier date first, in either listing order |

## Left out

- Command-line handling (`main`, lines 92-113): argument parsing and the default output path `invoicedata.csv` are I/O glue.
- Printed diagnostics (lines 48, 57, 65, 88, 90): the model returns the condition as an `Outcome` and does not produce text.
- File system access. The directory listing is an input, and its order is whatever the platform returns. Writing the CSV file is also left out.
- CSV serialisation: quoting and the `\r\n` line terminator of `csv.DictWriter`. Rows are records with the header's five columns.
- Pipeline.ToRow: the amount is the exact rational cents/100, not a binary float or its `str()` rendering.
- Dates.RenderDate: `%Y` is rendered with four digits. C libraries that do not zero-pad years below 1000 would print fewer.
- Amounts.ParseInt: only ASCII digits and ASCII whitespace are modelled. Python's `int` also accepts other Unicode decimal digits and Unicode spaces.
- Amounts.ParseInt: there is no digit limit. Since CPython 3.11, `int` raises ValueError on text of more than 4300 digits by default. A directory entry cannot reach that limit, because a file name is at most 255 bytes (NAME_MAX).
- Dates.ParseDate: only ASCII digits are modelled. Python's `\d` in `strptime` also matches other Unicode decimal digits.
- Text.Lower: only ASCII letters are lower-cased. That is exact for the membership test, because no other character lower-cases to a letter of "pdf", "jpg" or "jpeg" or to a dot.
- Paths.SplitExt: only POSIX paths are modelled. Windows drive letters and backslash separators are not.
