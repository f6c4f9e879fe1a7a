/**
 * `merge_files` of the spreadsheet merger: orders the uploaded files, builds
 * a name-to-value lookup from two positionally chosen columns of each file,
 * and emits one row per file holding the file name and the values of the
 * requested names.
 */
module Merger {
  import opened Wrappers
  import opened Sequences
  import opened Ordering
  import opened Sheets

  /** The two row-ordering choices the merger recognises. */
  const ByFilename: string := "By filename"
  const ByLastWord: string := "By last word in filename"

  /** An uploaded file: its name and what reading it gives. */
  datatype SourceFile = SourceFile(name: string, content: ReadOutcome)

  /** Why a merge produces no table. */
  datatype MergeError =
    | NoLastWord(name: string)                  // `name.split()[-1]` raises IndexError
    | ReadFailed(name: string, reason: string)  // `pd.read_excel` raises
    | TooFewColumns(name: string)               // the empty DataFrame returned after the error message
    | NoFiles                                   // `headers` is never bound, so building the frame raises

  /** The merged frame: column labels, then one row of optional strings per file. */
  datatype MergedTable = MergedTable(columns: seq<string>, rows: seq<seq<Option<string>>>)

  function Max(a: nat, b: nat): nat
  {
    if a < b then b else a
  }

  // ---------------------------------------------------------------------
  // The last whitespace-separated word of a file name
  // ---------------------------------------------------------------------

  /** Python's `str.isspace` for one character: the separators of `str.split()`. */
  predicate IsSpace(c: char)
  {
    || c == ' ' || ('\t' <= c <= '\r') || ('\U{1c}' <= c <= '\U{1f}')
    || c == '\U{85}' || c == '\U{a0}' || c == '\U{1680}'
    || ('\U{2000}' <= c <= '\U{200a}') || c == '\U{2028}' || c == '\U{2029}'
    || c == '\U{202f}' || c == '\U{205f}' || c == '\U{3000}'
  }

  predicate AllSpace(w: string)
  {
    forall k :: 0 <= k < |w| ==> IsSpace(w[k])
  }

  /** `s` without its trailing whitespace. */
  function TrimEnd(s: string): (r: string)
    ensures |r| <= |s| && r == s[..|r|]
    ensures forall k :: |r| <= k < |s| ==> IsSpace(s[k])
    ensures |r| > 0 ==> !IsSpace(s[|r| - 1])
  {
    if |s| > 0 && IsSpace(s[|s| - 1]) then TrimEnd(s[..|s| - 1]) else s
  }

  /** The longest suffix of `s` without whitespace. */
  function TrailingWord(s: string): (r: string)
    ensures |r| <= |s| && r == s[|s| - |r|..]
    ensures forall k :: |s| - |r| <= k < |s| ==> !IsSpace(s[k])
    ensures |r| < |s| ==> IsSpace(s[|s| - |r| - 1])
    ensures |s| > 0 && !IsSpace(s[|s| - 1]) ==> |r| > 0
  {
    if |s| > 0 && !IsSpace(s[|s| - 1]) then TrailingWord(s[..|s| - 1]) + [s[|s| - 1]] else []
  }

  /**
   * `w` occurs in `name` at `i`, is a whole word (whitespace or the start
   * before it, no whitespace inside) and only whitespace follows it.
   */
  ghost predicate IsLastWordAt(name: string, i: nat, w: string)
  {
    && 0 < |w| && i + |w| <= |name| && w == name[i..i + |w|]
    && (i == 0 || IsSpace(name[i - 1]))
    && (forall k :: i <= k < i + |w| ==> !IsSpace(name[k]))
    && (forall k :: i + |w| <= k < |name| ==> IsSpace(name[k]))
  }

  /** `name.split()[-1]`; `None` where Python raises IndexError (no word at all). */
  function LastWord(name: string): (r: Option<string>)
    ensures r.None? <==> AllSpace(name)
    ensures r.Some? ==> exists i :: IsLastWordAt(name, i, r.value)
  {
    TrimmedWord(name);
    var t := TrimEnd(name);
    if |t| == 0 then None else Some(TrailingWord(t))
  }

  /** Trimming empties a name exactly when it is all whitespace; otherwise the trailing word of the rest is its last word. */
  lemma TrimmedWord(name: string)
    ensures |TrimEnd(name)| == 0 <==> AllSpace(name)
    ensures |TrimEnd(name)| > 0 ==>
      IsLastWordAt(name, |TrimEnd(name)| - |TrailingWord(TrimEnd(name))|, TrailingWord(TrimEnd(name)))
  {
    var t := TrimEnd(name);
    if |t| > 0 {
      assert !AllSpace(name) by { assert name[|t| - 1] == t[|t| - 1]; }
      TrailingWordOfTrimmed(name, t);
    }
  }

  /** The trailing word of the trimmed name sits, as a whole word, at the end of the name's words. */
  lemma TrailingWordOfTrimmed(name: string, t: string)
    requires t == TrimEnd(name) && |t| > 0
    ensures IsLastWordAt(name, |t| - |TrailingWord(t)|, TrailingWord(t))
  {
    var w := TrailingWord(t);
    var i := |t| - |w|;
    assert w == name[i..|t|] by { assert t[i..] == name[i..|t|]; }
    assert forall k :: i <= k < |t| ==> !IsSpace(name[k]) by {
      forall k | i <= k < |t| ensures !IsSpace(name[k]) {
        assert name[k] == t[k];
      }
    }
    assert i == 0 || IsSpace(name[i - 1]) by {
      if i > 0 {
        assert name[i - 1] == t[i - 1];
      }
    }
  }

  /** The last word of a name is unique: the contract of `LastWord` determines it. */
  lemma LastWordUnique(name: string, i: nat, w: string)
    requires IsLastWordAt(name, i, w)
    ensures LastWord(name) == Some(w)
  {
    var t := TrimEnd(name);
    var e := i + |w|;
    // the word ends where trimming stops
    assert !IsSpace(name[e - 1]);
    assert e <= |t|;
    assert 0 < |t|;
    assert !IsSpace(name[|t| - 1]) by { assert name[|t| - 1] == t[|t| - 1]; }
    assert |t| <= e;
    // and starts where the trailing word of the trimmed name starts
    var w' := TrailingWord(t);
    var i' := |t| - |w'|;
    if i' > 0 {
      assert IsSpace(name[i' - 1]) by { assert name[i' - 1] == t[i' - 1]; }
    }
    assert i' <= i;
    if i > 0 {
      assert IsSpace(name[i - 1]);
      assert !IsSpace(t[i - 1]) || i - 1 < i';
    }
    assert i <= i';
    assert w' == t[i'..] == name[i'..|t|];
  }

  // ---------------------------------------------------------------------
  // Ordering the files (lines 30-33)
  // ---------------------------------------------------------------------

  function NameKey(f: SourceFile): string
  {
    f.name
  }

  /** The sort key of "By last word in filename" (the empty string never occurs as a key). */
  function LastWordKey(f: SourceFile): string
  {
    match LastWord(f.name)
    case Some(w) => w
    case None => ""
  }

  predicate Wordless(f: SourceFile)
  {
    LastWord(f.name).None?
  }

  /**
   * The order in which the files are merged. Python computes every sort key
   * before it moves anything, so a name without a word raises at the first
   * such file and leaves the list as it was; any other order string keeps the
   * upload order.
   */
  function Arrange(fs: seq<SourceFile>, order: string): Result<seq<SourceFile>, MergeError>
  {
    if order == ByLastWord then
      match FirstWhere(fs, Wordless)
      case Some(i) => Failure(NoLastWord(fs[i].name))
      case None => Success(SortBy(fs, LastWordKey))
    else if order == ByFilename then Success(SortBy(fs, NameKey))
    else Success(fs)
  }

  /** Ordering only rearranges the files; an unrecognised order keeps the upload order. */
  lemma ArrangePermutes(fs: seq<SourceFile>, order: string)
    requires Arrange(fs, order).Success?
    ensures multiset(Arrange(fs, order).value) == multiset(fs)
    ensures order != ByLastWord && order != ByFilename ==> Arrange(fs, order).value == fs
  {
    if order == ByLastWord {
      SortByPermutation(fs, LastWordKey);
    } else if order == ByFilename {
      SortByPermutation(fs, NameKey);
    }
  }

  /** "By filename": ordered by the full name, files with equal names kept in upload order. */
  lemma ArrangeByFilename(fs: seq<SourceFile>)
    ensures Arrange(fs, ByFilename).Success?
    ensures var r := Arrange(fs, ByFilename).value;
      && (forall i, j :: 0 <= i < j < |r| ==> LexLe(r[i].name, r[j].name))
      && (forall k :: Filter(r, KeyIs(NameKey, k)) == Filter(fs, KeyIs(NameKey, k)))
  {
    var r := SortBy(fs, NameKey);
    SortBySorted(fs, NameKey);
    forall k ensures Filter(r, KeyIs(NameKey, k)) == Filter(fs, KeyIs(NameKey, k)) {
      SortByStable(fs, NameKey, k);
    }
  }

  /**
   * "By last word in filename": fails exactly when some name has no word,
   * naming the first such file; otherwise ordered by each name's last word,
   * files with equal last words kept in upload order.
   */
  lemma ArrangeByLastWord(fs: seq<SourceFile>)
    ensures Arrange(fs, ByLastWord).Failure? <==> exists i :: 0 <= i < |fs| && AllSpace(fs[i].name)
    ensures Arrange(fs, ByLastWord).Failure? ==> exists i :: (0 <= i < |fs|
      && Arrange(fs, ByLastWord).error == NoLastWord(fs[i].name)
      && AllSpace(fs[i].name) && forall j :: 0 <= j < i ==> !AllSpace(fs[j].name))
    ensures Arrange(fs, ByLastWord).Success? ==> var r := Arrange(fs, ByLastWord).value;
      && (forall i :: 0 <= i < |r| ==> LastWord(r[i].name) == Some(LastWordKey(r[i])))
      && (forall i, j :: 0 <= i < j < |r| ==> LexLe(LastWordKey(r[i]), LastWordKey(r[j])))
      && (forall k :: Filter(r, KeyIs(LastWordKey, k)) == Filter(fs, KeyIs(LastWordKey, k)))
  {
    var w := FirstWhere(fs, Wordless);
    if w.None? {
      var r := SortBy(fs, LastWordKey);
      SortBySorted(fs, LastWordKey);
      SortByPermutation(fs, LastWordKey);
      forall i | 0 <= i < |r| ensures LastWord(r[i].name) == Some(LastWordKey(r[i])) {
        assert r[i] in multiset(fs);
      }
      forall k ensures Filter(r, KeyIs(LastWordKey, k)) == Filter(fs, KeyIs(LastWordKey, k)) {
        SortByStable(fs, LastWordKey, k);
      }
    }
  }

  /** When everything after a separator at `i - 1` is one word, that word is the last word. */
  lemma LastWordAfterSpace(name: string, i: nat)
    requires 0 < i < |name| && IsSpace(name[i - 1])
    requires forall k :: i <= k < |name| ==> !IsSpace(name[k])
    ensures LastWord(name) == Some(name[i..])
  {
    assert IsLastWordAt(name, i, name[i..]);
    LastWordUnique(name, i, name[i..]);
  }

  /** The last words of two sample names. */
  lemma SampleLastWordA()
    ensures LastWord("2020 report A.xlsx") == Some("A.xlsx")
  {
    assert IsLastWordAt("2020 report A.xlsx", 12, "A.xlsx");
    LastWordUnique("2020 report A.xlsx", 12, "A.xlsx");
  }

  lemma SampleLastWordB()
    ensures LastWord("2019 report B.xlsx") == Some("B.xlsx")
  {
    LastWordAfterSpace("2019 report B.xlsx", 12);
  }

  /** Two-element stable sort: the pair stays as it is exactly when its keys are in order. */
  lemma SortPair(a: SourceFile, b: SourceFile, key: SourceFile -> string)
    ensures SortBy([a, b], key) == if LexLe(key(a), key(b)) then [a, b] else [b, a]
  {
    assert [a, b][..1] == [a] && [a][..0] == [];
    assert SortBy([a], key) == InsertBy([], a, key) == [a];
    assert SortBy([a, b], key) == InsertBy([a], b, key);
    assert InsertBy([], b, key) == [b];
  }

  /** "By last word in filename" orders "2020 report A.xlsx" before "2019 report B.xlsx". */
  lemma LastWordOrderExample(a: SourceFile, b: SourceFile)
    requires a.name == "2020 report A.xlsx" && b.name == "2019 report B.xlsx"
    ensures Arrange([a, b], ByLastWord) == Success([a, b])
  {
    SampleLastWordA();
    SampleLastWordB();
    var keyA, keyB := LastWordKey(a), LastWordKey(b);
    assert keyA == "A.xlsx" && keyB == "B.xlsx";
    assert FirstWhere([a, b], Wordless).None? by {
      assert !Wordless([a, b][0]) && !Wordless([a, b][1]);
    }
    assert LexLe(keyA, keyB) by {
      LexLeFirstDifference(keyA, keyB, 0);
    }
    SortPair(a, b, LastWordKey);
  }

  /** "By filename" orders the same two files the other way round. */
  lemma FilenameOrderExample(a: SourceFile, b: SourceFile)
    requires a.name == "2020 report A.xlsx" && b.name == "2019 report B.xlsx"
    ensures Arrange([a, b], ByFilename) == Success([b, a])
  {
    assert ByFilename != ByLastWord by { assert ByLastWord[3] != ByFilename[3]; }
    assert a.name[..2] == b.name[..2];
    LexLeFirstDifference(a.name, b.name, 2);
    SortPair(a, b, NameKey);
  }

  // ---------------------------------------------------------------------
  // The name-to-value lookup of one file (lines 44-46)
  // ---------------------------------------------------------------------

  /** Line 44: the field-name column as text (a missing cell becomes "nan"). */
  function NameTexts(t: Table, h: nat): seq<string>
  {
    seq(|t.rows|, i requires 0 <= i < |t.rows| => CellText(CellAt(t.rows[i], h)))
  }

  /** Line 45: `fillna('')` before `astype(str)`, so a missing value becomes "". */
  function ValueText(c: Cell): string
  {
    if c.Missing? then "" else CellText(c)
  }

  function ValueTexts(t: Table, v: nat): seq<string>
  {
    seq(|t.rows|, i requires 0 <= i < |t.rows| => ValueText(CellAt(t.rows[i], v)))
  }

  /** `dict(zip(ks, vs))`: pairs are inserted left to right. */
  function ZipDict(ks: seq<string>, vs: seq<string>): (m: map<string, string>)
    requires |ks| == |vs|
  {
    if |ks| == 0 then map[]
    else ZipDict(ks[..|ks| - 1], vs[..|vs| - 1])[ks[|ks| - 1] := vs[|vs| - 1]]
  }

  /** The keys of `dict(zip(ks, vs))` are exactly the names in `ks`. */
  lemma {:induction false} ZipDictKeys(ks: seq<string>, vs: seq<string>)
    requires |ks| == |vs|
    ensures forall k :: k in ZipDict(ks, vs) <==> k in ks
    decreases |ks|
  {
    if |ks| > 0 {
      var n := |ks| - 1;
      ZipDictKeys(ks[..n], vs[..n]);
      assert ks == ks[..n] + [ks[n]];
    }
  }

  /** Position `j` holds the last occurrence of its name. */
  predicate IsLastOccurrence(ks: seq<string>, j: nat)
  {
    j < |ks| && forall j' :: j < j' < |ks| ==> ks[j'] != ks[j]
  }

  /** Last write wins: a repeated name maps to the value beside its last occurrence. */
  lemma {:induction false} ZipDictLastWriteWins(ks: seq<string>, vs: seq<string>, j: nat)
    requires |ks| == |vs| && IsLastOccurrence(ks, j)
    ensures ks[j] in ZipDict(ks, vs) && ZipDict(ks, vs)[ks[j]] == vs[j]
    decreases |ks|
  {
    var n := |ks|;
    if j < n - 1 {
      var ks', vs' := ks[..n - 1], vs[..n - 1];
      assert IsLastOccurrence(ks', j) by {
        forall j' | j < j' < n - 1 ensures ks'[j'] != ks'[j] {
          assert ks'[j'] == ks[j'] && ks'[j] == ks[j];
        }
      }
      ZipDictLastWriteWins(ks', vs', j);
      assert ks[n - 1] != ks[j];
      assert ZipDict(ks, vs) == ZipDict(ks', vs')[ks[n - 1] := vs[n - 1]];
    } else {
      assert ZipDict(ks, vs) == ZipDict(ks[..n - 1], vs[..n - 1])[ks[j] := vs[j]];
    }
  }

  function FieldMap(t: Table, h: nat, v: nat): map<string, string>
  {
    ZipDict(NameTexts(t, h), ValueTexts(t, v))
  }

  // ---------------------------------------------------------------------
  // Rows and the merged table (lines 35-58)
  // ---------------------------------------------------------------------

  /** What stops the merge at this file, if anything (lines 36-41). */
  function Problem(f: SourceFile, h: nat, v: nat): Option<MergeError>
  {
    match f.content
    case Unreadable(reason) => Some(ReadFailed(f.name, reason))
    case Sheet(t) => if t.width <= Max(h, v) then Some(TooFewColumns(f.name)) else None
  }

  function Faulty(h: nat, v: nat): SourceFile -> bool
  {
    f => Problem(f, h, v).Some?
  }

  /** `data_dict.get(name, None)`. */
  function Lookup(m: map<string, string>, name: string): Option<string>
  {
    if name in m then Some(m[name]) else None
  }

  /** One lookup per requested name, in the requested order. */
  function Lookups(m: map<string, string>, names: seq<string>): (r: seq<Option<string>>)
    ensures |r| == |names|
  {
    if |names| == 0 then [] else Lookups(m, names[..|names| - 1]) + [Lookup(m, names[|names| - 1])]
  }

  lemma {:induction false} LookupsIndex(m: map<string, string>, names: seq<string>, k: nat)
    requires k < |names|
    ensures Lookups(m, names)[k] == Lookup(m, names[k])
    decreases |names|
  {
    var n := |names| - 1;
    if k < n {
      LookupsIndex(m, names[..n], k);
    }
  }

  /** Lines 47-55: the file name, then one lookup per requested name. */
  function ProjectRow(name: string, t: Table, h: nat, v: nat, selected: seq<string>): seq<Option<string>>
  {
    [Some(name)] + Lookups(FieldMap(t, h, v), selected)
  }

  /** The merged row of a readable file (an unreadable one has none). */
  function RowOf(f: SourceFile, h: nat, v: nat, selected: seq<string>): seq<Option<string>>
  {
    match f.content
    case Sheet(t) => ProjectRow(f.name, t, h, v, selected)
    case Unreadable(_) => []
  }

  /** The merged rows of `fs`, in order. */
  function RowsOf(fs: seq<SourceFile>, h: nat, v: nat, selected: seq<string>): (r: seq<seq<Option<string>>>)
    ensures |r| == |fs|
  {
    if |fs| == 0 then [] else RowsOf(fs[..|fs| - 1], h, v, selected) + [RowOf(fs[|fs| - 1], h, v, selected)]
  }

  /** Row `i` of the merged rows is file `i`'s row. */
  lemma {:induction false} RowsOfIndex(fs: seq<SourceFile>, h: nat, v: nat, selected: seq<string>)
    ensures forall i :: 0 <= i < |fs| ==> RowsOf(fs, h, v, selected)[i] == RowOf(fs[i], h, v, selected)
    decreases |fs|
  {
    if |fs| > 0 {
      var fs' := fs[..|fs| - 1];
      RowsOfIndex(fs', h, v, selected);
      forall i | 0 <= i < |fs'| ensures fs'[i] == fs[i] { }
    }
  }

  /**
   * The merge of files already in their final order: the first file that
   * cannot be read or is too narrow aborts the whole batch, and no rows
   * survive; otherwise one row per file, in order.
   */
  function MergeArranged(fs: seq<SourceFile>, h: nat, v: nat, selected: seq<string>): (r: Result<MergedTable, MergeError>)
    ensures r.Failure? <==> |fs| == 0 || exists i :: 0 <= i < |fs| && Problem(fs[i], h, v).Some?
    ensures r.Failure? && |fs| == 0 ==> r.error == NoFiles
    ensures r.Failure? && |fs| > 0 ==> exists i :: (0 <= i < |fs|
      && Problem(fs[i], h, v) == Some(r.error) && forall j :: 0 <= j < i ==> Problem(fs[j], h, v).None?)
    ensures r.Success? ==> r.value.columns == ["Filename"] + selected && |r.value.rows| == |fs|
    ensures r.Success? ==> forall i :: 0 <= i < |fs| ==>
      |r.value.rows[i]| == 1 + |selected| && r.value.rows[i][0] == Some(fs[i].name)
  {
    if |fs| == 0 then Failure(NoFiles)
    else match FirstWhere(fs, Faulty(h, v))
      case Some(i) => Failure(Problem(fs[i], h, v).value)
      case None =>
        RowsOfIndex(fs, h, v, selected);
        Success(MergedTable(["Filename"] + selected, RowsOf(fs, h, v, selected)))
  }

  /**
   * Each value cell of a merged row: absent (`None`, not "") exactly when the
   * file has no such name; otherwise the value beside the name's last
   * occurrence, a missing value cell giving "".
   */
  lemma MergedCell(fs: seq<SourceFile>, h: nat, v: nat, selected: seq<string>, i: nat, k: nat)
    requires MergeArranged(fs, h, v, selected).Success?
    requires i < |fs| && k < |selected|
    ensures fs[i].content.Sheet?
    ensures var t := fs[i].content.table;
      var cell := MergeArranged(fs, h, v, selected).value.rows[i][k + 1];
      && (cell.None? <==> selected[k] !in NameTexts(t, h))
      && forall j: nat :: IsLastOccurrence(NameTexts(t, h), j) && NameTexts(t, h)[j] == selected[k] ==>
           cell == Some(ValueText(CellAt(t.rows[j], v)))
  {
    MergedRow(fs, h, v, selected, i);
    ProjectedCell(fs[i].name, fs[i].content.table, h, v, selected, k);
  }

  /** A successful merge's row `i` is file `i`'s projected row. */
  lemma MergedRow(fs: seq<SourceFile>, h: nat, v: nat, selected: seq<string>, i: nat)
    requires MergeArranged(fs, h, v, selected).Success?
    requires i < |fs|
    ensures fs[i].content.Sheet?
    ensures MergeArranged(fs, h, v, selected).value.rows[i] == ProjectRow(fs[i].name, fs[i].content.table, h, v, selected)
  {
    assert Problem(fs[i], h, v).None?;
    RowsOfIndex(fs, h, v, selected);
  }

  /** Cell `k + 1` of a projected row: `None` for an absent name, else the value at its last occurrence. */
  lemma ProjectedCell(name: string, t: Table, h: nat, v: nat, selected: seq<string>, k: nat)
    requires k < |selected|
    ensures var cell := ProjectRow(name, t, h, v, selected)[k + 1];
      && (cell.None? <==> selected[k] !in NameTexts(t, h))
      && forall j: nat :: IsLastOccurrence(NameTexts(t, h), j) && NameTexts(t, h)[j] == selected[k] ==>
           cell == Some(ValueText(CellAt(t.rows[j], v)))
  {
    var ks, vs := NameTexts(t, h), ValueTexts(t, v);
    var m := ZipDict(ks, vs);
    var name' := selected[k];
    assert ProjectRow(name, t, h, v, selected)[k + 1] == Lookup(m, name') by {
      LookupsIndex(m, selected, k);
    }
    assert name' in m <==> name' in ks by {
      ZipDictKeys(ks, vs);
    }
    forall j: nat | IsLastOccurrence(ks, j) && ks[j] == name'
      ensures m[name'] == vs[j] == ValueText(CellAt(t.rows[j], v))
    {
      ZipDictLastWriteWins(ks, vs, j);
    }
  }

  /**
   * Lines 30-33: sorts `files` in place by the chosen policy. When a sort key
   * cannot be computed the list is left as it was and the error is returned.
   */
  method OrderFiles(files: array<SourceFile>, order: string) returns (err: Option<MergeError>)
    modifies files
    ensures Arrange(old(files[..]), order).Failure? ==>
      files[..] == old(files[..]) && err == Some(Arrange(old(files[..]), order).error)
    ensures Arrange(old(files[..]), order).Success? ==>
      files[..] == Arrange(old(files[..]), order).value && err == None
  {
    err := None;
    if order == ByLastWord {
      var w := FirstWhere(files[..], Wordless);
      if w.Some? {
        return Some(NoLastWord(files[w.value].name));
      }
      SortInPlace(files, LastWordKey);
    }
    if order == ByFilename {
      SortInPlace(files, NameKey);
    }
  }

  /** Lines 44-56: the merged row of one readable, wide enough file. */
  method BuildRow(file: SourceFile, h: nat, v: nat, selected: seq<string>) returns (row: seq<Option<string>>)
    requires file.content.Sheet?
    ensures row == ProjectRow(file.name, file.content.table, h, v, selected)
  {
    var dataDict := FieldMap(file.content.table, h, v);
    row := [Some(file.name)];
    var k := 0;
    while k < |selected|
      invariant 0 <= k <= |selected|
      invariant row == [Some(file.name)] + Lookups(dataDict, selected[..k])
    {
      assert selected[..k + 1][..k] == selected[..k];
      row := row + [Lookup(dataDict, selected[k])];
      k := k + 1;
    }
    assert selected[..k] == selected;
  }

  /** The first problem file stops the merge with its own error. */
  lemma MergeStopsAt(fs: seq<SourceFile>, h: nat, v: nat, selected: seq<string>, i: nat)
    requires i < |fs| && Problem(fs[i], h, v).Some?
    requires forall j :: 0 <= j < i ==> Problem(fs[j], h, v).None?
    ensures MergeArranged(fs, h, v, selected) == Failure(Problem(fs[i], h, v).value)
  {
    assert FirstWhere(fs, Faulty(h, v)) == Some(i);
  }

  /** Without a problem file the merge yields the rows built so far. */
  lemma MergeCompletes(fs: seq<SourceFile>, h: nat, v: nat, selected: seq<string>)
    requires |fs| > 0
    requires forall j :: 0 <= j < |fs| ==> Problem(fs[j], h, v).None?
    ensures MergeArranged(fs, h, v, selected) == Success(MergedTable(["Filename"] + selected, RowsOf(fs, h, v, selected)))
  {
    assert FirstWhere(fs, Faulty(h, v)) == None;
  }

  /** Taking one more file appends its row. */
  lemma RowsOfPrefix(fs: seq<SourceFile>, h: nat, v: nat, selected: seq<string>, i: nat)
    requires i < |fs|
    ensures RowsOf(fs[..i + 1], h, v, selected) == RowsOf(fs[..i], h, v, selected) + [RowOf(fs[i], h, v, selected)]
  {
    assert fs[..i + 1][..i] == fs[..i];
  }

  /** Lines 35-58: merges the files in their current order; the array is only read. */
  method MergeInOrder(files: array<SourceFile>, h: nat, v: nat, selected: seq<string>)
    returns (r: Result<MergedTable, MergeError>)
    ensures r == MergeArranged(files[..], h, v, selected)
  {
    ghost var fs := files[..];
    var merged: seq<seq<Option<string>>> := [];
    var headers: Option<seq<string>> := None;
    var i := 0;
    while i < files.Length
      invariant 0 <= i <= files.Length
      invariant forall j :: 0 <= j < i ==> Problem(fs[j], h, v).None?
      invariant merged == RowsOf(fs[..i], h, v, selected)
      invariant headers == if i == 0 then None else Some(["Filename"] + selected)
    {
      var err, row := MergeOne(files[i], h, v, selected);
      if err.Some? {
        MergeStopsAt(fs, h, v, selected, i);
        return Failure(err.value);
      }
      assert merged + [row] == RowsOf(fs[..i + 1], h, v, selected) by {
        RowsOfPrefix(fs, h, v, selected, i);
      }
      headers := Some(["Filename"] + selected);
      merged := merged + [row];
      i := i + 1;
    }
    if headers.None? {
      return Failure(NoFiles);
    }
    assert fs[..|fs|] == fs;
    MergeCompletes(fs, h, v, selected);
    r := Success(MergedTable(headers.value, merged));
  }

  /** Lines 36-56 for one file: the error that stops the merge, or the file's row. */
  method MergeOne(file: SourceFile, h: nat, v: nat, selected: seq<string>)
    returns (err: Option<MergeError>, row: seq<Option<string>>)
    ensures err == Problem(file, h, v)
    ensures err.None? ==> row == RowOf(file, h, v, selected)
  {
    if file.content.Unreadable? {
      return Some(ReadFailed(file.name, file.content.reason)), [];
    }
    if file.content.table.width <= Max(h, v) {
      return Some(TooFewColumns(file.name)), [];
    }
    err := None;
    row := BuildRow(file, h, v, selected);
  }

  /**
   * `merge_files`: sorts `files` in place by the chosen policy, then merges
   * them in that order. The list stays sorted even when the merge then
   * fails, and stays as it was when a sort key cannot be computed.
   */
  method MergeFiles(files: array<SourceFile>, h: nat, v: nat, selected: seq<string>, order: string)
    returns (r: Result<MergedTable, MergeError>)
    modifies files
    ensures Arrange(old(files[..]), order).Failure? ==>
      files[..] == old(files[..]) && r == Failure(Arrange(old(files[..]), order).error)
    ensures Arrange(old(files[..]), order).Success? ==>
      files[..] == Arrange(old(files[..]), order).value && r == MergeArranged(files[..], h, v, selected)
  {
    var err := OrderFiles(files, order);
    if err.Some? {
      return Failure(err.value);
    }
    r := MergeInOrder(files, h, v, selected);
  }
}
