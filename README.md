# Plex Reporter index page, modelled in Dafny

Plex Reporter writes one dated HTML report per day into a directory, named
`<prefix>-YYYY-MM-DD.htm`, and may end each report's last line with a tag
`plex-clients:<N>:` giving the number of clients seen. The index page
(`html/index.php`) lists those reports. It checks that the report directory
exists and can be listed, then walks the listing in `scandir` order. It skips
entries that are not regular files or that start with a dot, and skips names
outside the naming convention. For each report it counts it, finds its date,
reads the client tag from its last line and appends a line with the link, the
date label and the client label. When no report was counted, the page says so.

The model has six modules:

- `Wrappers` (text.dfy): the Option type.
- `Text` (text.dfy): ASCII case folding, which is what the `i` flag of a PCRE
  pattern without the UTF-8 flag does, and PHP's `explode`/`implode` with a
  one-character separator.
- `Pattern` (pattern.dfy): the fixed-width patterns the page uses, as token
  sequences. A match can be anchored at both ends (`/^...$/`) or be the
  leftmost match (`preg_match`).
- `Classifier` (classifier.dfy): the hidden-file test, the naming convention
  and the date search.
- `ClientTag` (clienttag.dfy): the client-count tag in a report's last line.
- `ReportIndex` (reportindex.dfy): the loop over the listing, as a method
  proved against the function `IndexRecords`, and the page's outcome. The
  outcome is a directory error, a listing error, "no reports", or the records.

Inputs that the page takes from the system are parameters:

- `is_dir` and `scandir` become a `Scan` value: not a directory, a failed
  listing, or the names in the configured sort order.
- `is_file` becomes a flag on each entry.
- The output of `tail -n 1` becomes an optional last line on each entry.
- The Windows test becomes the `dotail` flag.
- The date formatting becomes a function `dateLabel` in the configuration.
- The settings (`$reportdir`, `$reportpfx`, `$sortorder`) are read-only
  configuration. The sort order only affects the order of the listing it is
  given.

Behaviour of the page that is easy to misread:

- The naming check at lines 59-60 carries the `i` flag, so case is ignored
  over the whole name: the prefix as well as the `.htm` extension.
- The date segment is checked digit class by digit class, not as a calendar
  date. The month's first digit must be 0-1 and the day's first digit 0-3, so
  `plex-2024-19-39.htm` is accepted while `plex-2024-13-40.htm` is rejected
  (`Classifier.LooseDateAccepted`, `Classifier.NonReportNamesRejected`).
- The date search at line 68 is not anchored. The date found is guaranteed to
  be the segment after `<prefix>-` when the prefix has no digits
  (`Classifier.DateFollowsPrefix`); a prefix with digits can move it
  (`Classifier.DigitPrefixShiftsDate`).
- The comment at line 58 says `.htm(l)`, but the pattern rejects `.html`.
- `scandir` returning an empty array counts as a failed listing, because an
  empty array is false in PHP.
- The two directory errors stop the script with `exit` before the page is
  printed. They are terminal states here and carry no message.
- Whatever date-shaped text was found goes to the date formatting as it is;
  the page does not check that it names a real day.

## Model

| member | source | states |
|---|---|---|
| Text.Lower | html/index.php:59-60 | case folding for the `i` flag: an upper-case letter becomes the lower-case letter at the same place in the alphabet, every other character is left alone, and the result is never upper case |
| Text.LowerAgrees | html/index.php:59-60 | two characters compare equal under the `i` flag iff they are equal or one is the upper-case form of the other |
| Text.Explode | html/index.php:85 | `explode` gives at least one piece and no piece contains the separator |
| Text.JoinExplode | html/index.php:85 | joining the pieces of `explode` with the separator gives back the input |
| Text.ExplodeJoin | html/index.php:85 | splitting a join of separator-free pieces gives back those pieces |
| Pattern.Search | html/index.php:68 | the unanchored match is the leftmost position where the pattern matches; no match means no position matches |
| Classifier.DatePatternAt | html/index.php:68 | the date pattern matches at a position exactly when a date-shaped substring (`[1-2]ddd-[0-1]d-[0-3]d`) starts there |
| Classifier.ReportNameShape | html/index.php:59-60 | a name passes the naming check (`IsReportName`, the anchored pattern) iff it is prefix (any case), `-`, a date-shaped segment, `.htm` (any case), and nothing more |
| Classifier.ConventionAccepts | html/index.php:59-60 | every case variant of prefix plus `-` plus a date-shaped segment plus a case variant of `.htm` is accepted |
| Classifier.LooseDateAccepted | html/index.php:59-60 | month 19 and day 39 pass, and upper-case prefix and extension pass |
| Classifier.NonReportNamesRejected | html/index.php:59-60 | year 3024, day 40, a `.html` extension and `readme.txt` are rejected |
| Classifier.ExtractDate | html/index.php:68 | the date found is date-shaped and is the leftmost date-shaped substring; none is found exactly when the name holds no date |
| Classifier.ReportNameHasDate | html/index.php:59-75 | a name that passes the naming check always contains a date, so the Unknown fallback is not reached |
| Classifier.DateFollowsPrefix | html/index.php:59-68 | with a digit-free prefix the date found is the ten characters after `<prefix>-` |
| Classifier.DigitPrefixShiftsDate | html/index.php:59-68 | with prefix `x2024-01` the accepted name `x2024-01-2024-01-01.htm` yields date `2024-01-20` |
| ClientTag.DigitRun | html/index.php:82 | the digit run starting at a position is all digits and is followed by a non-digit or the end |
| ClientTag.TagMatchIsGreedy | html/index.php:82 | `plex-clients:[0-9]+:` matches at a position with n digits iff n is the whole digit run there and a `:` follows, so the greedy predicate `TagAt` holds exactly where the pattern matches |
| ClientTag.FindTag | html/index.php:82 | the tag found is the leftmost tag; none found means there is no tag |
| ClientTag.ExplodeTag | html/index.php:85-86 | splitting a tag on `:` gives three pieces and piece 1 is its digits |
| ClientTag.ClientLabel | html/index.php:78-98 | the label is Unknown iff tail is disabled, the last line is missing, or it holds no tag; otherwise it is the leftmost tag's digits followed by ` client(s)` |
| ClientTag.LeadingTagLabel | html/index.php:78-86 | a last line starting with `plex-clients:<N>:` gives `<N> client(s)`, whatever follows |
| ClientTag.UntaggedLabels | html/index.php:78-98 | without tail, or with an empty or missing last line, the label is Unknown |
| ReportIndex.Process | html/index.php:49-103 | an entry yields a record iff it is a regular file, not hidden (`IsDotFile`, the `/^\./` test of line 55), and passes the naming check; the record links to `reportdir/name` |
| ReportIndex.AcceptedIndices | html/index.php:49-65 | the counted positions are increasing, each passes the three filters, and every position that passes them is counted |
| ReportIndex.RecordsFollowListing | html/index.php:49-104 | the records of the listing (`IndexRecords`) are one per counted entry, and record i is the record of the i-th counted entry in listing order |
| ReportIndex.SkippedEntryAddsNothing | html/index.php:50-62 | an entry that fails a filter adds no record and no count |
| ReportIndex.AcceptedEntryRecord | html/index.php:64-103 | a counted entry's record has the label of the date in its name and the client label of its last line, never the Unknown/Unknown fallback |
| ReportIndex.DotPrefixListsNothing | html/index.php:54-62 | with the prefix read as literal text, a prefix that starts with a dot lets no entry be listed, since every name it admits is hidden (see "## Left out" for the page's unescaped prefix) |
| ReportIndex.CollectRecords | html/index.php:49-104 | the loop's records are those of the listing, in order, and its counter equals their number |
| ReportIndex.BuildIndex | html/index.php:35-109 | a missing or unlistable directory ends the run before any entry; otherwise the counter is the number of accepted entries, the page is "no reports" iff none is accepted, and otherwise it lists the records in listing order |

## Left out

- Filesystem access (`is_dir`, `scandir`, `is_file`): I/O. They are inputs to the model.
- `shell_exec("tail -n 1 ...")` and the `PHP_OS` test: an external process and the platform. They are inputs to the model.
- `date("M jS, Y", strtotime(...))`: PHP's date library. The date label is an uninterpreted function of the date string.
- `html/plex_settings.php` and its `require_once`: plain configuration values. They are read-only inputs.
- The HTML template, `echo`, and the exact markup and indentation strings: presentation only. The output is a sequence of records.
- The order given by `scandir($reportdir, $sortorder)`: the listing arrives already ordered, and the model proves that this order is kept.
- Classifier.IsReportName: the prefix is taken as literal text. The source splices it into the pattern unescaped, so regex metacharacters in a prefix are not modelled.
- Classifier.IsReportName: PCRE's `$` also matches before a trailing newline. The model requires an exact whole-name match.
- Text.Lower: case folding is ASCII only, as in the C locale. Names are sequences of characters, not bytes.
- ReportIndex.DotPrefixListsNothing: holds only under the literal-prefix reading of `IsReportName`. The page does not escape the prefix, so a leading `.` matches any character: with prefix `.plex` the page lists `xplex-2024-01-01.htm`.
