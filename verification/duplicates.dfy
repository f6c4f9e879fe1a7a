/**
 * The column-B duplicate checker: for one sheet, the values of its second
 * column that occur more than once; for a folder, the per-file reports in
 * path order and the summary counters.
 */
module Duplicates {
  import opened Wrappers
  import opened Sequences
  import opened Ordering
  import opened Sheets

  /** The middle of the returned triple: an error message or the repeated values. */
  datatype Info = Message(text: string) | Values(values: seq<Cell>)

  /** `(has_duplicates, duplicate_info, total_rows)`; `has_duplicates` is `None` on an error. */
  datatype Report = Report(hasDuplicates: Option<bool>, info: Info, totalRows: nat)

  /**
   * Column B of the sheet as `pd.read_excel` delivers it (the first
   * spreadsheet row has become the column labels and is not a row here).
   */
  function ColumnB(t: Table): seq<Cell>
  {
    ColumnCells(t, 1)
  }

  /** `clean.duplicated(keep=False)`: marks every occurrence of a value that occurs again. */
  function Repeated(clean: seq<Cell>): Cell -> bool
  {
    c => multiset(clean)[c] >= 2
  }

  /** Lines 12-47: the report for one file. */
  function CheckColumnB(read: ReadOutcome): (r: Report)
    ensures r.hasDuplicates.None? <==> r.info.Message?
    ensures r.hasDuplicates.None? ==> r.totalRows == 0
    ensures read.Unreadable? ==> r == Report(None, Message("Error reading file: " + read.reason), 0)
    ensures read.Sheet? && read.table.width < 2 ==> r == Report(None, Message("File has less than 2 columns"), 0)
    ensures r.info.Values? ==> r.hasDuplicates == Some(|r.info.values| > 0) && NoDuplicates(r.info.values)
  {
    match read
    case Unreadable(reason) => Report(None, Message("Error reading file: " + reason), 0)
    case Sheet(t) =>
      if t.width < 2 then Report(None, Message("File has less than 2 columns"), 0)
      else
        var clean := Filter(ColumnB(t), IsPresent);
        var duplicates := Filter(clean, Repeated(clean));
        if |duplicates| > 0 then
          assert duplicates[0] in Dedup(duplicates);
          Report(Some(true), Values(Dedup(duplicates)), |clean|)
        else Report(Some(false), Values([]), |clean|)
  }

  /** Dropping the missing cells leaves as many cells as are present. */
  lemma {:induction false} PresentCount(col: seq<Cell>)
    ensures |Filter(col, IsPresent)| + multiset(col)[Missing] == |col|
    decreases |col|
  {
    if |col| > 0 {
      var col' := col[..|col| - 1];
      PresentCount(col');
      assert col == col' + [col[|col| - 1]];
    }
  }

  /**
   * On a readable sheet with a column B: `total_rows` counts the present
   * cells of column B; a value is reported exactly when it is present and
   * occurs at least twice (a missing cell never is), each value once.
   */
  lemma ColumnBReport(t: Table)
    requires t.width >= 2
    ensures var r := CheckColumnB(Sheet(t)); var col := ColumnB(t);
      && r.info.Values?
      && r.totalRows + multiset(col)[Missing] == |col|
      && (forall i :: 0 <= i < |r.info.values| ==> IsPresent(r.info.values[i]) && multiset(col)[r.info.values[i]] >= 2)
      && (forall i :: 0 <= i < |col| && IsPresent(col[i]) && multiset(col)[col[i]] >= 2 ==> col[i] in r.info.values)
      && Missing !in r.info.values
  {
    var col := ColumnB(t);
    var clean := Filter(col, IsPresent);
    var duplicates := Filter(clean, Repeated(clean));
    var values := CheckColumnB(Sheet(t)).info.values;
    PresentCount(col);
    assert forall x :: x in values <==> x in duplicates by {
      assert values == Dedup(duplicates) || (values == [] && duplicates == []);
    }
    forall x ensures x in values <==> IsPresent(x) && multiset(col)[x] >= 2 {
      RepeatedValue(col, x);
    }
  }

  /** A value survives both filters exactly when it is present and occurs at least twice in the column. */
  lemma RepeatedValue(col: seq<Cell>, x: Cell)
    ensures var clean := Filter(col, IsPresent);
      x in Filter(clean, Repeated(clean)) <==> IsPresent(x) && multiset(col)[x] >= 2
  {
    var clean := Filter(col, IsPresent);
    FilterMembers(col, IsPresent);
    FilterMembers(clean, Repeated(clean));
    FilterCount(col, IsPresent, x);
    if IsPresent(x) && multiset(col)[x] >= 2 {
      assert x in multiset(clean);
      var i :| 0 <= i < |clean| && clean[i] == x;
    }
  }

  /** The repeated values are listed in the order in which they first appear in column B. */
  lemma ColumnBFirstAppearanceOrder(t: Table, i: nat, j: nat)
    requires t.width >= 2
    requires i < j < |CheckColumnB(Sheet(t)).info.values|
    ensures var vs := CheckColumnB(Sheet(t)).info.values;
      vs[i] in ColumnB(t) && vs[j] in ColumnB(t) && FirstIndex(ColumnB(t), vs[i]) < FirstIndex(ColumnB(t), vs[j])
  {
    var col := ColumnB(t);
    var clean := Filter(col, IsPresent);
    var duplicates := Filter(clean, Repeated(clean));
    var vs := CheckColumnB(Sheet(t)).info.values;
    assert vs == Dedup(duplicates);
    DedupFirstOccurrenceOrder(duplicates, i, j);
    FilterMembers(clean, Repeated(clean));
    FilterMembers(col, IsPresent);
    assert vs[i] in duplicates && vs[j] in duplicates;
    FilterKeepsFirstOccurrenceOrder(clean, Repeated(clean), vs[i], vs[j]);
    FilterKeepsFirstOccurrenceOrder(col, IsPresent, vs[i], vs[j]);
  }

  // ---------------------------------------------------------------------
  // The folder loop (lines 72-98)
  // ---------------------------------------------------------------------

  /** A spreadsheet found in the folder: its path and what reading it gives. */
  datatype Entry = Entry(path: string, content: ReadOutcome)

  function PathKey(e: Entry): string
  {
    e.path
  }

  /** Files whose report says "duplicates found". */
  function CountWithDuplicates(rs: seq<Report>): nat
  {
    if |rs| == 0 then 0
    else CountWithDuplicates(rs[..|rs| - 1]) + (if rs[|rs| - 1].hasDuplicates == Some(true) then 1 else 0)
  }

  /** One more report adds one to the count exactly when it found duplicates. */
  lemma CountWithDuplicatesAppend(rs: seq<Report>, r: Report)
    ensures CountWithDuplicates(rs + [r]) == CountWithDuplicates(rs) + if r.hasDuplicates == Some(true) then 1 else 0
  {
    assert (rs + [r])[..|rs|] == rs;
  }

  /** Files whose report says "no duplicates found". */
  function CountWithout(rs: seq<Report>): nat
  {
    if |rs| == 0 then 0
    else CountWithout(rs[..|rs| - 1]) + (if rs[|rs| - 1].hasDuplicates == Some(false) then 1 else 0)
  }

  /** Files whose report is an error. */
  function CountErrors(rs: seq<Report>): nat
  {
    if |rs| == 0 then 0
    else CountErrors(rs[..|rs| - 1]) + (if rs[|rs| - 1].hasDuplicates.None? then 1 else 0)
  }

  /**
   * Every report falls in exactly one of the three groups, so the summary's
   * "files without duplicates" (checked minus duplicated) counts the clean
   * files and the files that could not be checked together.
   */
  lemma {:induction false} SummaryPartition(rs: seq<Report>)
    ensures CountWithDuplicates(rs) + CountWithout(rs) + CountErrors(rs) == |rs|
    decreases |rs|
  {
    if |rs| > 0 {
      SummaryPartition(rs[..|rs| - 1]);
      match rs[|rs| - 1].hasDuplicates
      case None =>
      case Some(found) =>
    }
  }

  /** The report of each file, in order. */
  function ReportsOf(es: seq<Entry>): (r: seq<Report>)
    ensures |r| == |es|
    ensures forall j :: 0 <= j < |es| ==> r[j] == CheckColumnB(es[j].content)
  {
    if |es| == 0 then [] else ReportsOf(es[..|es| - 1]) + [CheckColumnB(es[|es| - 1].content)]
  }

  /** The path of each file, in order. */
  function PathsOf(es: seq<Entry>): (r: seq<string>)
    ensures |r| == |es|
    ensures forall j :: 0 <= j < |es| ==> r[j] == es[j].path
  {
    if |es| == 0 then [] else PathsOf(es[..|es| - 1]) + [es[|es| - 1].path]
  }

  /** Taking one more file extends both lists by that file's path and report. */
  lemma PrefixStep(es: seq<Entry>, i: nat)
    requires i < |es|
    ensures PathsOf(es[..i + 1]) == PathsOf(es[..i]) + [es[i].path]
    ensures ReportsOf(es[..i + 1]) == ReportsOf(es[..i]) + [CheckColumnB(es[i].content)]
  {
    assert es[..i + 1][..i] == es[..i];
  }

  /**
   * Lines 72-98: checks the files in sorted path order, recording each
   * report, and counts the files checked and the files with duplicates.
   * Unreadable or too narrow files are counted as checked but never as
   * having duplicates.
   */
  method CheckFolder(entries: seq<Entry>)
    returns (visited: seq<string>, reports: seq<Report>, totalFilesChecked: nat, filesWithDuplicates: nat)
    ensures |visited| == |reports| == |entries|
    ensures forall i :: 0 <= i < |entries| ==>
      visited[i] == SortBy(entries, PathKey)[i].path && reports[i] == CheckColumnB(SortBy(entries, PathKey)[i].content)
    ensures totalFilesChecked == |entries|
    ensures filesWithDuplicates == CountWithDuplicates(reports) <= totalFilesChecked
    ensures totalFilesChecked - filesWithDuplicates == CountWithout(reports) + CountErrors(reports)
  {
    filesWithDuplicates := 0;
    totalFilesChecked := 0;
    var files := SortBy(entries, PathKey);
    visited, reports := [], [];
    for i := 0 to |files|
      invariant totalFilesChecked == i
      invariant visited == PathsOf(files[..i]) && reports == ReportsOf(files[..i])
      invariant filesWithDuplicates == CountWithDuplicates(reports)
    {
      var report := CheckColumnB(files[i].content);
      if report.hasDuplicates.None? {
        // the error message is printed
      } else if report.hasDuplicates.value {
        filesWithDuplicates := filesWithDuplicates + 1;
      }
      CountWithDuplicatesAppend(reports, report);
      PrefixStep(files, i);
      visited, reports := visited + [files[i].path], reports + [report];
      totalFilesChecked := totalFilesChecked + 1;
    }
    assert files[..|files|] == files;
    SummaryPartition(reports);
  }
}
