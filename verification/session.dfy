/**
 * The non-interface logic of the merger's `main`: the default positions of
 * the two column selectors and the list of candidate field names offered for
 * selection.
 */
module Session {
  import opened Wrappers
  import opened Sequences
  import opened Sheets
  import opened Merger

  // ---------------------------------------------------------------------
  // Default column indices (lines 119-150)
  // ---------------------------------------------------------------------

  /** `list(range(n))`: the options of both column selectors. */
  function ColumnOptions(n: nat): seq<int>
  {
    seq(n, i requires 0 <= i < n => i)
  }

  lemma ColumnOptionsMembers(n: nat)
    ensures forall x :: x in ColumnOptions(n) <==> 0 <= x < n
  {
    forall x | 0 <= x < n ensures x in ColumnOptions(n) {
      assert ColumnOptions(n)[x] == x;
    }
  }

  /** A saved index that names one of the `n` columns. */
  predicate Names(saved: Option<int>, n: nat)
  {
    saved.Some? && 0 <= saved.value < n
  }

  /**
   * Lines 122-125: the header selector starts at the saved header index when
   * it names a column, else at the first column.
   */
  function DefaultHeaderIndex(saved: Option<int>, numColumns: nat): (r: nat)
    ensures numColumns > 0 ==> r < numColumns
    ensures Names(saved, numColumns) ==> r == saved.value
    ensures !Names(saved, numColumns) ==> r == 0
  {
    var options := ColumnOptions(numColumns);
    ColumnOptionsMembers(numColumns);
    if saved.Some? && saved.value in options then FirstIndex(options, saved.value) else 0
  }

  /**
   * Lines 137-142: the value selector's start as computed: the saved value
   * index when it names a column, else the column after the header column,
   * or the header column itself when it is the last one.
   */
  function DefaultValueIndex(saved: Option<int>, headerIdx: nat, numColumns: nat): (r: nat)
    requires headerIdx < numColumns
    ensures r < numColumns
    ensures Names(saved, numColumns) ==> r == saved.value
    ensures !Names(saved, numColumns) && headerIdx + 1 < numColumns ==> r == headerIdx + 1
    ensures !Names(saved, numColumns) && headerIdx + 1 == numColumns ==> r == headerIdx
  {
    var options := ColumnOptions(numColumns);
    ColumnOptionsMembers(numColumns);
    if saved.Some? && saved.value in options then FirstIndex(options, saved.value)
    else
      var defaultIdx := if headerIdx + 1 < numColumns then headerIdx + 1 else headerIdx;
      assert options[defaultIdx] == defaultIdx;
      FirstIndex(options, defaultIdx)
  }

  /**
   * Line 148 as written: the index the value selector is actually given,
   * `min(data_header_idx + 1, len(options) - 1)`; the saved value index
   * plays no part in it.
   */
  function ValueWidgetIndex(headerIdx: nat, numColumns: nat): (r: nat)
    requires headerIdx < numColumns
    ensures r < numColumns
    ensures headerIdx + 1 < numColumns ==> r == headerIdx + 1
    ensures headerIdx + 1 == numColumns ==> r == headerIdx
  {
    var last := |ColumnOptions(numColumns)| - 1;
    if headerIdx + 1 < last then headerIdx + 1 else last
  }

  /**
   * The discrepancy: with three columns, the header in column 0 and a loaded
   * configuration whose value column is 0, the computed default restores 0
   * but the selector starts at 1.
   */
  lemma ValueWidgetIgnoresSavedIndex()
    ensures DefaultValueIndex(Some(0), 0, 3) == 0
    ensures ValueWidgetIndex(0, 3) == 1
  {
  }

  /** Without a usable saved index the two agree, so only restoring a configuration is affected. */
  lemma ValueWidgetAgreesWithoutSavedIndex(saved: Option<int>, headerIdx: nat, numColumns: nat)
    requires headerIdx < numColumns && !Names(saved, numColumns)
    ensures ValueWidgetIndex(headerIdx, numColumns) == DefaultValueIndex(saved, headerIdx, numColumns)
  {
  }

  /**
   * The initial column choice with the evidently intended defaults: a loaded
   * configuration's two indices are restored when they name columns.
   */
  function InitialColumns(savedHeader: Option<int>, savedValue: Option<int>, numColumns: nat): (r: (nat, nat))
    requires numColumns > 0
    ensures r.0 < numColumns && r.1 < numColumns
    ensures Names(savedHeader, numColumns) ==> r.0 == savedHeader.value
    ensures Names(savedValue, numColumns) ==> r.1 == savedValue.value
    ensures !Names(savedValue, numColumns) && r.0 + 1 < numColumns ==> r.1 == r.0 + 1
  {
    var h := DefaultHeaderIndex(savedHeader, numColumns);
    (h, DefaultValueIndex(savedValue, h, numColumns))
  }

  // ---------------------------------------------------------------------
  // Candidate field names (lines 153-164)
  // ---------------------------------------------------------------------

  /** Line 160: the header column without missing cells, each cell as text. */
  function HeaderCandidates(t: Table, h: nat): seq<string>
  {
    var present := Filter(ColumnCells(t, h), IsPresent);
    seq(|present|, i requires 0 <= i < |present| => CellText(present[i]))
  }

  /** A candidate comes from a present cell of the header column, and every such cell gives one. */
  lemma HeaderCandidatesOf(t: Table, h: nat, x: string)
    ensures x in HeaderCandidates(t, h) <==>
      exists j :: 0 <= j < |t.rows| && IsPresent(CellAt(t.rows[j], h)) && CellText(CellAt(t.rows[j], h)) == x
  {
    var col := ColumnCells(t, h);
    var present := Filter(col, IsPresent);
    FilterMembers(col, IsPresent);
    if x in HeaderCandidates(t, h) {
      var i :| 0 <= i < |present| && CellText(present[i]) == x;
      var j :| 0 <= j < |col| && col[j] == present[i];
      assert CellAt(t.rows[j], h) == col[j];
    }
    if exists j :: 0 <= j < |t.rows| && IsPresent(CellAt(t.rows[j], h)) && CellText(CellAt(t.rows[j], h)) == x {
      var j :| 0 <= j < |t.rows| && IsPresent(CellAt(t.rows[j], h)) && CellText(CellAt(t.rows[j], h)) == x;
      assert col[j] in present;
      var i :| 0 <= i < |present| && present[i] == col[j];
      assert HeaderCandidates(t, h)[i] == x;
    }
  }

  predicate AllReadable(fs: seq<SourceFile>)
  {
    forall i :: 0 <= i < |fs| ==> fs[i].content.Sheet?
  }

  /** Line 161: the candidates of every file, file after file. */
  function AllCandidates(fs: seq<SourceFile>, h: nat): seq<string>
    requires AllReadable(fs)
  {
    if |fs| == 0 then [] else AllCandidates(fs[..|fs| - 1], h) + HeaderCandidates(fs[|fs| - 1].content.table, h)
  }

  /** `x` is the text of a present header cell of some file. */
  ghost predicate IsHeaderText(fs: seq<SourceFile>, h: nat, x: string)
    requires AllReadable(fs)
  {
    exists i, j :: 0 <= i < |fs| && 0 <= j < |fs[i].content.table.rows|
      && IsPresent(CellAt(fs[i].content.table.rows[j], h)) && CellText(CellAt(fs[i].content.table.rows[j], h)) == x
  }

  /** The offered names are exactly the texts of the present header cells of all files. */
  lemma {:induction false} AllCandidatesOf(fs: seq<SourceFile>, h: nat, x: string)
    requires AllReadable(fs)
    ensures x in AllCandidates(fs, h) <==> IsHeaderText(fs, h, x)
    decreases |fs|
  {
    if |fs| > 0 {
      var n := |fs|;
      var fs' := fs[..n - 1];
      var t := fs[n - 1].content.table;
      AllCandidatesOf(fs', h, x);
      HeaderCandidatesOf(t, h, x);
      if IsHeaderText(fs, h, x) {
        var i, j :| 0 <= i < n && 0 <= j < |fs[i].content.table.rows|
          && IsPresent(CellAt(fs[i].content.table.rows[j], h)) && CellText(CellAt(fs[i].content.table.rows[j], h)) == x;
        if i < n - 1 {
          assert fs'[i] == fs[i];
        }
      }
      if IsHeaderText(fs', h, x) {
        var i, j :| 0 <= i < n - 1 && 0 <= j < |fs'[i].content.table.rows|
          && IsPresent(CellAt(fs'[i].content.table.rows[j], h)) && CellText(CellAt(fs'[i].content.table.rows[j], h)) == x;
        assert fs[i] == fs'[i];
      }
    }
  }

  /** Line 164 on the example of the field-name list: `[A, B, A, C]` becomes `[A, B, C]`. */
  lemma DedupExample()
    ensures Dedup(["A", "B", "A", "C"]) == ["A", "B", "C"]
  {
    assert ["A", "B", "A", "C"][..3] == ["A", "B", "A"];
    assert ["A", "B", "A"][..2] == ["A", "B"];
    assert ["A", "B"][..1] == ["A"];
    assert ["A"][..0] == [];
  }

  /**
   * Lines 153-164: collects the header-column texts of every file in upload
   * order, stopping at the first file that cannot be read or is too narrow,
   * and removes repeats keeping first occurrences.
   */
  method CollectHeaders(files: seq<SourceFile>, h: nat, v: nat) returns (r: Result<seq<string>, MergeError>)
    ensures r.Failure? <==> exists i :: 0 <= i < |files| && Problem(files[i], h, v).Some?
    ensures r.Failure? ==> exists i :: (0 <= i < |files| && Problem(files[i], h, v) == Some(r.error)
      && forall j :: 0 <= j < i ==> Problem(files[j], h, v).None?)
    ensures r.Success? ==> AllReadable(files) && r.value == Dedup(AllCandidates(files, h))
  {
    var allHeaders: seq<string> := [];
    var i := 0;
    while i < |files|
      invariant 0 <= i <= |files|
      invariant forall j :: 0 <= j < i ==> Problem(files[j], h, v).None?
      invariant AllReadable(files[..i]) && allHeaders == AllCandidates(files[..i], h)
    {
      var file := files[i];
      if file.content.Unreadable? {
        return Failure(ReadFailed(file.name, file.content.reason));
      }
      if file.content.table.width <= Max(h, v) {
        return Failure(TooFewColumns(file.name));
      }
      allHeaders := allHeaders + HeaderCandidates(file.content.table, h);
      assert files[..i + 1][..i] == files[..i];
      i := i + 1;
    }
    assert files[..i] == files;
    r := Success(Dedup(allHeaders));
  }
}
