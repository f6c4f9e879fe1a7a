# xlsx-merger-adamko in Dafny

A model of the spreadsheet merger's core and proofs about it. The merger
takes a batch of uploaded spreadsheets. In each file it chooses two columns by
position: one holds field names, the other holds values. The merger writes
one row per file: the file name, then the value of each requested field name.
Modelled alongside it:

- ordering the files, either by file name or by the last word of the name;
- collecting the candidate field names from every file, and the default
  column choices;
- the fixed data-quality schema and its collect-all validator;
- the separate column-B duplicate checker.

Modules, one per file:

- `Wrappers` (`wrappers.dfy`): `Option` and `Result`.
- `Sequences` (`sequences.dfy`): first match, filtering (pandas `dropna` and
  boolean masks) and order-preserving removal of repeats
  (`dict.fromkeys`, `Series.unique`).
- `Ordering` (`ordering.dfy`): Python's stable `list.sort` with a string
  key. It is a stable insertion sort on sequences. An in-place version on
  arrays is proved equal to it.
- `Sheets` (`sheets.dfy`): cells, tables and read outcomes as `pd.read_excel`
  delivers them, and `astype(str)` of one cell.
- `Merger` (`merger.dfy`): `merge_files`. It sorts the uploaded list in place
  (an `array`), then merges. The merge is proved equal to a functional
  specification, `MergeArranged`.
- `Session` (`session.dfy`): the non-interface logic of `main`. This covers
  the default indices of the two column selectors and the de-duplicated list
  of candidate field names.
- `Duplicates` (`duplicates.dfy`): `check_duplicates_in_column_b` and the
  counting loop of `check_folder_for_duplicates`.
- `DataQuality` (`data_quality.dfy`): the `schema` table and `validate_data`.
  The result is an either type holding the frame or every failure case.

The code differs from a plain description of the system in a few places.
The model follows the code in each:

- `validate_data` returns the frame it was given; it does not coerce values.
- Files that cannot be read are not caught inside `merge_files`: the
  exception ends the merge.
- The value selector ignores a restored configuration (see Findings).

## Model

| member | source | states |
|---|---|---|
| Merger.MergeFiles | src/app.py:27-59 | After the call the list is in the chosen order and the result is the merge of that order. When a sort key cannot be computed, the list is unchanged and the error is returned. |
| Merger.OrderFiles | src/app.py:30-33 | The in-place sort leaves the array equal to `Arrange` of its old contents. On a key error it leaves the array untouched and reports that error. |
| Merger.LastWord | src/app.py:31 | `name.split()[-1]`: none exactly when the name is all whitespace. Otherwise a maximal non-space run that is followed only by whitespace. |
| Merger.LastWordUnique | src/app.py:31 | Any last word, as the contract of `LastWord` characterises it, is the one `LastWord` returns. |
| Merger.LastWordAfterSpace | src/app.py:31 | When everything after a whitespace character is one word, `split()[-1]` is that word. |
| Merger.ArrangePermutes | src/app.py:30-33 | Ordering only permutes the files. An unrecognised policy keeps the upload order. |
| Merger.ArrangeByFilename | src/app.py:32-33 | "By filename" sorts by the full name and is stable: files with equal names keep their upload order. |
| Merger.ArrangeByLastWord | src/app.py:30-31 | "By last word" fails exactly when some name has no word, naming the first such file. Otherwise it sorts by last word and is stable. |
| Merger.LastWordOrderExample | src/app.py:30-31 | "2020 report A.xlsx" comes before "2019 report B.xlsx" when ordered by last word. |
| Merger.FilenameOrderExample | src/app.py:32-33 | The same two files come in the opposite order when ordered by file name. |
| Merger.ZipDictKeys | src/app.py:46 | The keys of `dict(zip(names, values))` are exactly the names. |
| Merger.ZipDictLastWriteWins | src/app.py:46 | A repeated name maps to the value beside its last occurrence. |
| Merger.LookupsIndex | src/app.py:53-55 | The k-th lookup is `get` of the k-th requested name. |
| Merger.MergeArranged | src/app.py:35-58 | Fails exactly when there are no files or some file is unreadable or too narrow; the error is the first such file's. On success: columns `["Filename"] + selected`, one row per file in order, each row starting with its file name. |
| Merger.MergedRow | src/app.py:47-56 | Row i of a successful merge is file i's name followed by one lookup per requested name. |
| Merger.ProjectedCell | src/app.py:44-55 | A value cell is absent (None, never "") exactly when the name is missing from the header column. Otherwise it holds the value text at the name's last occurrence. |
| Merger.MergedCell | src/app.py:44-55 | The same as `ProjectedCell`, for every cell of a successful merge. |
| Merger.BuildRow | src/app.py:47-56 | The loop builds exactly the projected row of the file. |
| Merger.MergeOne | src/app.py:36-56 | One iteration: reports the error that stops the merge at this file, or else yields the file's row. |
| Merger.MergeStopsAt | src/app.py:36-41 | The first unreadable or too-narrow file aborts the merge with its own error, and no rows survive. |
| Merger.MergeCompletes | src/app.py:35-58 | With no problem file, the merge yields every file's row. |
| Merger.MergeInOrder | src/app.py:35-59 | The merge loop over the array computes `MergeArranged` of its contents. |
| Merger.RowsOfIndex | src/app.py:56 | Merged row i is the row of file i. |
| Ordering.SortByPermutation | src/app.py:31-33 | The stable sort is a permutation of its input. |
| Ordering.SortBySorted | src/app.py:31-33 | The sort's output is ordered by key. |
| Ordering.SortByStable | src/app.py:31-33 | Elements with equal keys keep their relative order. |
| Ordering.InsertInPlace | src/app.py:31-33 | One insertion step on the array inserts element i into the sorted prefix and leaves the rest unchanged. |
| Ordering.SortInPlace | src/app.py:31-33 | The in-place array sort ends with the array equal to the stable sort of its old contents. |
| Ordering.LexLeTotal | src/app.py:31-33 | String comparison by code point is total. |
| Ordering.LexLeTransitive | src/app.py:31-33 | String comparison by code point is transitive. |
| Ordering.LexLeAntisymmetric | src/app.py:31-33 | String comparison by code point is antisymmetric. |
| Sequences.Dedup | src/app.py:164 | `dict.fromkeys`: the result has the same members as the input and no repeats. |
| Sequences.DedupFirstOccurrenceOrder | src/app.py:164 | Kept values appear in the order of their first occurrences. |
| Sequences.FilterMembers | src/app.py:160 | `dropna` keeps exactly the present cells: every kept cell is present and comes from the column, and every present cell is kept. |
| Sequences.FilterKeepsFirstOccurrenceOrder | check_duplicates.py:34-37 | Filtering preserves the order of first occurrences of the kept values. |
| Session.DefaultHeaderIndex | src/app.py:122-125 | The header selector starts at the saved index when it names a column, else at 0. |
| Session.DefaultValueIndex | src/app.py:137-142 | The value default is the saved index when it names a column. Otherwise it is the column after the header, or the header column itself when that is the last column. |
| Session.ValueWidgetIndex | src/app.py:148 | As written, the value selector starts at the column after the header (capped at the last column), whatever was saved. |
| Session.ValueWidgetIgnoresSavedIndex | src/app.py:137-148 | Shows one input where the computed default (0) and the selector's start (1) differ. |
| Session.ValueWidgetAgreesWithoutSavedIndex | src/app.py:137-148 | Without a usable saved index, the selector's start equals the computed default. |
| Session.InitialColumns | src/app.py:122-142 | With the intended defaults, both saved indices are restored when they name columns, and both indices are in range. |
| Session.HeaderCandidatesOf | src/app.py:160 | A file's candidates are exactly the texts of the present cells of its header column. |
| Session.AllCandidatesOf | src/app.py:153-161 | The collected names are exactly the header texts found in any file. |
| Session.DedupExample | src/app.py:164 | `["A", "B", "A", "C"]` becomes `["A", "B", "C"]`. |
| Session.CollectHeaders | src/app.py:153-164 | Fails exactly when some file is unreadable or too narrow, with the first such file's error. Otherwise it returns the de-duplicated candidates of all files. |
| Duplicates.CheckColumnB | check_duplicates.py:12-47 | An error report (no verdict, a message, 0 rows) exactly for an unreadable sheet or one with fewer than 2 columns. Otherwise the verdict is "values non-empty", and the values list has no repeats. |
| Duplicates.ColumnBReport | check_duplicates.py:27-44 | `total_rows` counts the present cells of column B. A value is reported exactly when it is present and occurs at least twice. |
| Duplicates.RepeatedValue | check_duplicates.py:34-37 | `dropna` followed by `duplicated(keep=False)` keeps exactly the present values that occur at least twice. |
| Duplicates.PresentCount | check_duplicates.py:34 | Present cells plus missing cells make up the whole column. |
| Duplicates.ColumnBFirstAppearanceOrder | check_duplicates.py:37-42 | The repeated values are listed in the order of their first appearance in column B. |
| Duplicates.CountWithDuplicatesAppend | check_duplicates.py:80-83 | Only a report that found duplicates adds one to the counter. |
| Duplicates.SummaryPartition | check_duplicates.py:93-98 | Every file is with duplicates, without duplicates or in error, so "without duplicates" counts clean and failed files together. |
| Duplicates.CheckFolder | check_duplicates.py:72-98 | Files are visited in sorted path order, one report each. The counters equal the number of files and the number of reports with duplicates. |
| DataQuality.SchemaRules | src/data_quality.py:5-13 | For each schema column, exactly which cells pass: the type, the range or set, and the nullability. |
| DataQuality.ValidateData | src/data_quality.py:15-22 | Returns the frame exactly when it conforms to the schema; otherwise a non-empty failure list. |
| DataQuality.ValidateCollectsAll | src/data_quality.py:17-21 | Collect-all: every failure case is a real problem, and every problem of every column is reported. |
| DataQuality.FailuresSound | src/data_quality.py:17 | Every failure case describes a real violation of some schema column. |
| DataQuality.FailuresComplete | src/data_quality.py:17 | A missing column, and every failing cell of a present column, each yield a failure case. |
| DataQuality.FailuresEmptyIff | src/data_quality.py:17-18 | There are no failure cases exactly when the frame conforms. |
| DataQuality.RowFailuresExact | src/data_quality.py:17 | A row's failure case is recorded exactly when its cell breaks a rule. |
| DataQuality.FailuresDistinct | src/data_quality.py:21 | With distinct schema column names, no failure case is reported twice. |
| DataQuality.ThreeViolations | src/data_quality.py:5-22 | A row with year 1800, month 13 and sex 3 yields exactly those three failure cases. |

## Left out

- The Streamlit interface is not modelled: uploads, widgets, `data_editor`, `sort_items` reordering, messages and downloads. The merge is modelled from already-read sheets and already-chosen indices, names and policy.
- Saving and loading the JSON configuration is not modelled: it is file I/O outside the core. A saved index is modelled as an optional integer.
- Reading spreadsheets is a parameter: each file comes with its table or the reason the reader failed.
- The sample-file read that fixes the number of column options is not modelled: that number is a parameter.
- `validate_data` is applied by the app to the user-edited table, which is not modelled; the validator is modelled on an arbitrary frame.
- DataQuality.ValidateData: pandera checks a dtype per column and reports its failure cases in its own table layout. The model checks the type per cell, records one failure case per failing cell in schema order, and does no coercion.
- BIRTH_WGHT is a float column in the schema. The model's numbers are integers, so fractional weights are not modelled.
- Merger.NameTexts: an integer column that contains missing cells is rendered by pandas as floats ("1.0"). The model renders integers without a fractional part.
- Ordering.SortBy: CPython's TimSort is modelled as a stable insertion sort. Any two stable sorts with the same key give the same result. `Path` ordering in the duplicate checker is modelled as code-point order of the path string.
- Duplicates.CheckFolder: the folder lookup, globbing, `print` output, argument parsing and the early returns for a missing folder or no files are left out. The list of files is a parameter.
- Duplicates.ColumnB: `pd.read_excel` without `header=None` turns the first spreadsheet row into column labels. The model's table holds only the data rows that follow.
- DataQuality.ColumnIndex: when a frame has two columns with the same label, the model validates the first of them.

## Findings

| source | as written | input that shows it | evidently intended | confidence | as-written member | corrected member |
|---|---|---|---|---|---|---|
| src/app.py:148 | The value selector's start is `min(data_header_idx + 1, len(options) - 1)`. The index computed at lines 137-142 from the saved `data_col_idx` is never used. | Saved value index 0, header index 0, three columns: the selector starts at 1 instead of 0. | The selector starts at `data_col_idx_index`, so a loaded configuration's value column is restored. | medium, not executed | Session.ValueWidgetIndex (shown by Session.ValueWidgetIgnoresSavedIndex) | Session.DefaultValueIndex (used by Session.InitialColumns) |
