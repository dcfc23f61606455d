/** The index page's single pass over the report directory: check that the
    directory exists and can be listed, walk the listing in the order
    `scandir` gave it, keep the regular, non-hidden files that follow the
    naming convention, and emit one record per kept file (its link, the label
    of its date and its client count). When nothing is kept, the page says
    that no reports were found. */
module ReportIndex {
  import opened Wrappers
  import opened Text
  import opened Classifier
  import opened ClientTag

  /** One name of the listing, with what `is_file` says of it and what
      `tail -n 1` printed for it (None when nothing could be read). */
  datatype Entry = Entry(name: string, isFile: bool, lastLine: Option<string>)

  /** The settings the page runs with. `dotail` is false on Windows;
      `dateLabel` is the date formatting (`date("M jS, Y", strtotime(d))`),
      left uninterpreted. */
  datatype Config = Config(reportdir: string, prefix: string, dotail: bool, dateLabel: string -> string)

  /** What looking at the report directory gives: not a directory, a listing
      that could not be read, or the names in the configured sort order. */
  datatype Scan = NotADirectory | ScanFailed | Listed(entries: seq<Entry>)

  /** One line of the index: the link, the date label, the client label. */
  datatype Record = Record(link: string, date: string, clients: string)

  /** The two error states stop the page before any entry is looked at. */
  datatype Page = DirectoryMissing | ListingUnreadable | NoReports | Reports(records: seq<Record>)

  /** The three filters of the loop: a regular file, not hidden, and named
      after the convention. */
  predicate Accepted(c: Config, e: Entry) {
    e.isFile && !IsDotFile(e.name) && IsReportName(c.prefix, e.name)
  }

  function Link(c: Config, e: Entry): string {
    c.reportdir + "/" + e.name
  }

  /** What one entry contributes to the index. */
  function Process(c: Config, e: Entry): (r: Option<Record>)
    ensures r.Some? <==> Accepted(c, e)
    ensures r.Some? ==> r.value.link == c.reportdir + "/" + e.name
  {
    if !Accepted(c, e) then None
    else
      match ExtractDate(e.name)
      case None => Some(Record(Link(c, e), Unknown, Unknown))
      case Some(date) => Some(Record(Link(c, e), c.dateLabel(date), ClientLabel(c.dotail, e.lastLine)))
  }

  function Emitted(r: Option<Record>): seq<Record> {
    match r
    case None => []
    case Some(x) => [x]
  }

  /** The records of a listing, in listing order. */
  function IndexRecords(c: Config, es: seq<Entry>): seq<Record>
    decreases |es|
  {
    if es == [] then []
    else IndexRecords(c, es[..|es| - 1]) + Emitted(Process(c, es[|es| - 1]))
  }

  /** The positions of the accepted entries: increasing, each accepted, and
      none missing. */
  function AcceptedIndices(c: Config, es: seq<Entry>): (idx: seq<nat>)
    ensures forall i :: 0 <= i < |idx| ==> idx[i] < |es| && Accepted(c, es[idx[i]])
    ensures forall i, j :: 0 <= i < j < |idx| ==> idx[i] < idx[j]
    ensures forall k :: 0 <= k < |es| && Accepted(c, es[k]) ==> k in idx
    decreases |es|
  {
    if es == [] then []
    else
      var last := |es| - 1;
      var before := AcceptedIndices(c, es[..last]);
      assert forall i :: 0 <= i < |before| ==> es[..last][before[i]] == es[before[i]];
      assert forall k :: 0 <= k < last ==> es[..last][k] == es[k];
      before + (if Accepted(c, es[last]) then [last] else [])
  }

  /** The records are exactly the accepted entries' records, one each, in
      listing order: record i comes from the i-th accepted entry. */
  lemma {:induction false} RecordsFollowListing(c: Config, es: seq<Entry>)
    ensures |IndexRecords(c, es)| == |AcceptedIndices(c, es)|
    ensures forall i :: 0 <= i < |AcceptedIndices(c, es)| ==>
              Process(c, es[AcceptedIndices(c, es)[i]]) == Some(IndexRecords(c, es)[i])
    decreases |es|
  {
    if es != [] {
      var last := |es| - 1;
      var init := es[..last];
      RecordsFollowListing(c, init);
      var idx, idx' := AcceptedIndices(c, es), AcceptedIndices(c, init);
      var rec, rec' := IndexRecords(c, es), IndexRecords(c, init);
      forall i | 0 <= i < |idx|
        ensures Process(c, es[idx[i]]) == Some(rec[i])
      {
        if i < |idx'| {
          assert idx[i] == idx'[i] && rec[i] == rec'[i];
          assert init[idx'[i]] == es[idx'[i]];
        }
      }
    }
  }

  /** Adding an entry that fails a filter adds no record and no count. */
  lemma SkippedEntryAddsNothing(c: Config, es: seq<Entry>, e: Entry)
    requires !e.isFile || IsDotFile(e.name) || !IsReportName(c.prefix, e.name)
    ensures IndexRecords(c, es + [e]) == IndexRecords(c, es)
    ensures AcceptedIndices(c, es + [e]) == AcceptedIndices(c, es)
  {
    assert (es + [e])[..|es|] == es;
  }

  /** An accepted entry never gets the Unknown/Unknown fallback record: its
      date label is that of the date in its name and its client label comes
      from its last line. With a digit-free prefix that date is the segment
      right after `<prefix>-`. */
  lemma AcceptedEntryRecord(c: Config, e: Entry)
    requires Accepted(c, e)
    ensures ExtractDate(e.name).Some?
    ensures Process(c, e) ==
            Some(Record(Link(c, e), c.dateLabel(ExtractDate(e.name).value), ClientLabel(c.dotail, e.lastLine)))
    ensures HasNoDigits(c.prefix) ==>
            Process(c, e) ==
            Some(Record(Link(c, e), c.dateLabel(e.name[|c.prefix| + 1..|c.prefix| + 11]),
                        ClientLabel(c.dotail, e.lastLine)))
  {
    ReportNameHasDate(c.prefix, e.name);
    if HasNoDigits(c.prefix) {
      DateFollowsPrefix(c.prefix, e.name);
    }
  }

  /** With the prefix read as literal text, a prefix that begins with a dot
      can never list anything: every name it admits is a hidden file. (The
      page itself does not escape the prefix, where `.` matches any
      character.) */
  lemma DotPrefixListsNothing(c: Config, e: Entry)
    requires |c.prefix| > 0 && c.prefix[0] == '.'
    ensures !Accepted(c, e)
  {
    ReportNameShape(c.prefix, e.name);
    if IsReportName(c.prefix, e.name) {
      assert e.name[..|c.prefix|][0] == e.name[0];
      assert Lower(e.name[0]) == '.';
    }
  }

  /** One more entry of the listing adds what that entry contributes. */
  lemma IndexRecordsStep(c: Config, es: seq<Entry>, i: nat)
    requires i < |es|
    ensures IndexRecords(c, es[..i + 1]) == IndexRecords(c, es[..i]) + Emitted(Process(c, es[i]))
  {
    assert es[..i + 1][..i] == es[..i];
  }

  /** The loop over the listing (lines 49-104 of the page): filter each entry,
      count it and append its record. */
  method CollectRecords(c: Config, entries: seq<Entry>) returns (records: seq<Record>, logfiles: nat)
    ensures records == IndexRecords(c, entries)
    ensures logfiles == |records|
  {
    records := [];
    logfiles := 0;
    for i := 0 to |entries|
      invariant records == IndexRecords(c, entries[..i])
      invariant logfiles == |records|
    {
      var entry := entries[i];
      IndexRecordsStep(c, entries, i);
      if !entry.isFile {
        continue;
      }
      if IsDotFile(entry.name) {
        continue;
      }
      if !IsReportName(c.prefix, entry.name) {
        continue;
      }
      logfiles := logfiles + 1;
      var logdate := ExtractDate(entry.name);
      var link := c.reportdir + "/" + entry.name;
      if logdate.None? {
        records := records + [Record(link, Unknown, Unknown)];
        continue;
      }
      var numClients := ClientLabel(c.dotail, entry.lastLine);
      records := records + [Record(link, c.dateLabel(logdate.value), numClients)];
    }
    assert entries[..|entries|] == entries;
  }

  /** The page for one request. `logfiles` is the page's counter of report
      files. The directory checks come first and end the run; otherwise every
      entry is filtered in listing order and the page lists the records, or
      says that there are none. */
  method BuildIndex(c: Config, scan: Scan) returns (page: Page, logfiles: nat)
    ensures scan.NotADirectory? ==> page == DirectoryMissing && logfiles == 0
    ensures scan.ScanFailed? || scan == Listed([]) ==> page == ListingUnreadable && logfiles == 0
    ensures scan.Listed? && scan.entries != [] ==>
              && logfiles == |AcceptedIndices(c, scan.entries)|
              && (page == NoReports <==> forall k :: 0 <= k < |scan.entries| ==> !Accepted(c, scan.entries[k]))
              && (page != NoReports ==> page == Reports(IndexRecords(c, scan.entries)))
  {
    if scan.NotADirectory? {
      return DirectoryMissing, 0;
    }
    // An empty array from scandir is falsy, like a failed one.
    if scan.ScanFailed? || scan.entries == [] {
      return ListingUnreadable, 0;
    }
    var records;
    records, logfiles := CollectRecords(c, scan.entries);
    RecordsFollowListing(c, scan.entries);
    if logfiles == 0 {
      page := NoReports;
    } else {
      assert Accepted(c, scan.entries[AcceptedIndices(c, scan.entries)[0]]);
      page := Reports(records);
    }
  }
}
