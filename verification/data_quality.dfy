/**
 * The data-quality step: a fixed declarative schema (per column a type, a
 * nullability flag and a range or membership check) and a collect-all
 * validator that returns either the frame or every failure it found.
 */
module DataQuality {
  import opened Wrappers
  import opened Sequences
  import opened Sheets

  /** The declared column types. */
  datatype DType = StringType | Int32Type | Float64Type

  /** `Check.in_range(min, max)` (both ends included) and `Check.isin(values)`. */
  datatype Check = NoCheck | InRange(minValue: int, maxValue: int) | IsIn(allowed: seq<int>)

  /** One `Column(...)` entry of the schema; `nullable` defaults to false. */
  datatype ColumnSchema = ColumnSchema(name: string, dtype: DType, check: Check, nullable: bool)

  /** Lines 5-13: the schema the merged table is checked against. */
  const Schema: seq<ColumnSchema> := [
    ColumnSchema("Filename", StringType, NoCheck, false),
    ColumnSchema("BIRTH_YEAR", Int32Type, InRange(1900, 2023), true),
    ColumnSchema("BIRTH_MNTH", Int32Type, InRange(1, 12), true),
    ColumnSchema("BIRTH_DAY", Int32Type, InRange(1, 31), true),
    ColumnSchema("BIRTH_WGHT", Float64Type, InRange(300, 6000), true),
    ColumnSchema("SEX", Int32Type, IsIn([1, 2]), true)
  ]

  /** The frame being validated: column labels and rows of cells. */
  datatype Frame = Frame(columns: seq<string>, rows: seq<seq<Cell>>)

  /** The rule a failure case breaks. */
  datatype Rule = ColumnInDataframe | NotNullable | DTypeCheck(dtype: DType) | ValueCheck(check: Check)

  /** One failure case: the row (none for a whole-column failure), the column, the rule and the offending value. */
  datatype FailureCase = FailureCase(index: Option<nat>, column: string, rule: Rule, failureCase: Cell)

  /** `validate_data`'s `(validated_df, None)` or `(None, failure_cases)`, as an either type. */
  datatype Validation = Validated(frame: Frame) | Failed(failureCases: seq<FailureCase>)

  const Int32Min: int := -0x8000_0000
  const Int32Max: int := 0x7fff_ffff

  /** A non-null cell fits the declared type. */
  predicate HasDType(c: Cell, t: DType)
  {
    match t
    case StringType => c.Text?
    case Int32Type => c.Number? && Int32Min <= c.n <= Int32Max
    case Float64Type => c.Number?
  }

  /** A non-null cell passes the column's check. */
  predicate Passes(check: Check, c: Cell)
  {
    match check
    case NoCheck => true
    case InRange(lo, hi) => c.Number? && lo <= c.n <= hi
    case IsIn(allowed) => c.Number? && c.n in allowed
  }

  /**
   * The rule a cell of `col` breaks, if any: a null is judged only by the
   * nullability flag; a non-null value by its type and then by the check.
   */
  function CellFailure(col: ColumnSchema, c: Cell): Option<Rule>
  {
    if c.Missing? then (if col.nullable then None else Some(NotNullable))
    else if !HasDType(c, col.dtype) then Some(DTypeCheck(col.dtype))
    else if !Passes(col.check, c) then Some(ValueCheck(col.check))
    else None
  }

  /** The position of a column label (the first, if repeated). */
  function ColumnIndex(df: Frame, name: string): nat
    requires name in df.columns
  {
    FirstIndex(df.columns, name)
  }

  /** The failure cases of column `j` of `rows` under `col`, top to bottom. */
  function RowFailures(rows: seq<seq<Cell>>, j: nat, col: ColumnSchema): seq<FailureCase>
  {
    if |rows| == 0 then []
    else
      var i := |rows| - 1;
      RowFailures(rows[..i], j, col) +
        match CellFailure(col, CellAt(rows[i], j))
        case None => []
        case Some(rule) => [FailureCase(Some(i), col.name, rule, CellAt(rows[i], j))]
  }

  /** The failure cases of one schema column; an absent column is one failure case. */
  function ColumnFailures(df: Frame, col: ColumnSchema): seq<FailureCase>
  {
    if col.name in df.columns then RowFailures(df.rows, ColumnIndex(df, col.name), col)
    else [FailureCase(None, col.name, ColumnInDataframe, Text(col.name))]
  }

  /** `lazy=True`: the failure cases of every schema column, gathered in schema order. */
  function Failures(df: Frame, schema: seq<ColumnSchema>): seq<FailureCase>
  {
    if |schema| == 0 then []
    else Failures(df, schema[..|schema| - 1]) + ColumnFailures(df, schema[|schema| - 1])
  }

  /** The frame has every schema column and every cell of them satisfies its rules. */
  ghost predicate Conforms(df: Frame, schema: seq<ColumnSchema>)
  {
    forall k :: 0 <= k < |schema| ==>
      schema[k].name in df.columns &&
      forall i :: 0 <= i < |df.rows| ==> CellFailure(schema[k], CellAt(df.rows[i], ColumnIndex(df, schema[k].name))).None?
  }

  /** `f` records a real problem of `df` under `col`. */
  ghost predicate Describes(df: Frame, col: ColumnSchema, f: FailureCase)
  {
    if col.name !in df.columns then f == FailureCase(None, col.name, ColumnInDataframe, Text(col.name))
    else
      var j := ColumnIndex(df, col.name);
      && f.index.Some? && f.index.value < |df.rows| && f.column == col.name
      && CellFailure(col, CellAt(df.rows[f.index.value], j)) == Some(f.rule)
      && f.failureCase == CellAt(df.rows[f.index.value], j)
  }

  /** A row's failure case is recorded when, and only when, its cell breaks a rule. */
  lemma {:induction false} RowFailuresExact(rows: seq<seq<Cell>>, j: nat, col: ColumnSchema)
    ensures forall i :: 0 <= i < |rows| && CellFailure(col, CellAt(rows[i], j)).Some? ==>
      FailureCase(Some(i), col.name, CellFailure(col, CellAt(rows[i], j)).value, CellAt(rows[i], j)) in RowFailures(rows, j, col)
    ensures forall f :: f in RowFailures(rows, j, col) ==>
      && f.index.Some? && f.index.value < |rows| && f.column == col.name
      && CellFailure(col, CellAt(rows[f.index.value], j)) == Some(f.rule)
      && f.failureCase == CellAt(rows[f.index.value], j)
    decreases |rows|
  {
    if |rows| > 0 {
      var n := |rows| - 1;
      RowFailuresExact(rows[..n], j, col);
      forall i | 0 <= i < n ensures rows[..n][i] == rows[i] { }
    }
  }

  /** Every failure case describes a real problem (nothing is invented). */
  lemma {:induction false} FailuresSound(df: Frame, schema: seq<ColumnSchema>, f: FailureCase)
    requires f in Failures(df, schema)
    ensures exists k :: 0 <= k < |schema| && Describes(df, schema[k], f)
    decreases |schema|
  {
    var n := |schema| - 1;
    if f in Failures(df, schema[..n]) {
      FailuresSound(df, schema[..n], f);
      var k :| 0 <= k < n && Describes(df, schema[..n][k], f);
      assert schema[k] == schema[..n][k];
    } else {
      var col := schema[n];
      if col.name in df.columns {
        RowFailuresExact(df.rows, ColumnIndex(df, col.name), col);
      }
      assert Describes(df, schema[n], f);
    }
  }

  /** Every problem of every schema column is reported (collect-all, not first-failure). */
  lemma {:induction false} FailuresComplete(df: Frame, schema: seq<ColumnSchema>, k: nat)
    requires k < |schema|
    ensures schema[k].name !in df.columns ==>
      FailureCase(None, schema[k].name, ColumnInDataframe, Text(schema[k].name)) in Failures(df, schema)
    ensures schema[k].name in df.columns ==> forall i :: 0 <= i < |df.rows| ==>
      var c := CellAt(df.rows[i], ColumnIndex(df, schema[k].name));
      CellFailure(schema[k], c).Some? ==>
        FailureCase(Some(i), schema[k].name, CellFailure(schema[k], c).value, c) in Failures(df, schema)
    decreases |schema|
  {
    var n := |schema| - 1;
    if k < n {
      FailuresComplete(df, schema[..n], k);
      assert schema[..n][k] == schema[k];
    } else if schema[k].name in df.columns {
      RowFailuresExact(df.rows, ColumnIndex(df, schema[k].name), schema[k]);
    }
  }

  /** A column reports each failing row once. */
  lemma {:induction false} RowFailuresDistinct(rows: seq<seq<Cell>>, j: nat, col: ColumnSchema)
    ensures NoDuplicates(RowFailures(rows, j, col))
    decreases |rows|
  {
    if |rows| > 0 {
      var n := |rows| - 1;
      RowFailuresDistinct(rows[..n], j, col);
      RowFailuresExact(rows[..n], j, col);
    }
  }

  /** A column's failure cases are distinct and all carry its name. */
  lemma ColumnFailuresDistinct(df: Frame, col: ColumnSchema)
    ensures NoDuplicates(ColumnFailures(df, col))
    ensures forall g :: g in ColumnFailures(df, col) ==> g.column == col.name
  {
    if col.name in df.columns {
      RowFailuresDistinct(df.rows, ColumnIndex(df, col.name), col);
      RowFailuresExact(df.rows, ColumnIndex(df, col.name), col);
    }
  }

  /** When the schema's column names are distinct, no failure case is reported twice. */
  lemma {:induction false} FailuresDistinct(df: Frame, schema: seq<ColumnSchema>)
    requires forall a, b :: 0 <= a < b < |schema| ==> schema[a].name != schema[b].name
    ensures NoDuplicates(Failures(df, schema))
    decreases |schema|
  {
    if |schema| > 0 {
      var n := |schema| - 1;
      var front, last := Failures(df, schema[..n]), ColumnFailures(df, schema[n]);
      assert Failures(df, schema) == front + last;
      FailuresDistinct(df, schema[..n]);
      ColumnFailuresDistinct(df, schema[n]);
      forall f | f in front ensures f !in last {
        FailuresSound(df, schema[..n], f);
        var k :| 0 <= k < n && Describes(df, schema[..n][k], f);
        assert f.column == schema[k].name;
      }
      NoDuplicatesConcat(front, last);
    }
  }

  /** No failure case at all exactly when the frame conforms. */
  lemma FailuresEmptyIff(df: Frame, schema: seq<ColumnSchema>)
    ensures |Failures(df, schema)| == 0 <==> Conforms(df, schema)
  {
    if |Failures(df, schema)| == 0 {
      forall k | 0 <= k < |schema|
        ensures schema[k].name in df.columns
        ensures forall i :: 0 <= i < |df.rows| ==> CellFailure(schema[k], CellAt(df.rows[i], ColumnIndex(df, schema[k].name))).None?
      {
        FailuresComplete(df, schema, k);
      }
    } else {
      var f := Failures(df, schema)[0];
      FailuresSound(df, schema, f);
    }
  }

  /**
   * Lines 15-22: the frame itself when it conforms to the schema, otherwise
   * the non-empty list of every failure case and no frame.
   */
  function ValidateData(df: Frame, schema: seq<ColumnSchema>): (r: Validation)
    ensures r.Validated? <==> Conforms(df, schema)
    ensures r.Validated? ==> r.frame == df
    ensures r.Failed? ==> |r.failureCases| > 0
  {
    FailuresEmptyIff(df, schema);
    var failures := Failures(df, schema);
    if |failures| == 0 then Validated(df) else Failed(failures)
  }

  /**
   * The failure list is collect-all and exact: it holds a case for every
   * missing schema column and every cell that breaks a rule, and nothing
   * else.
   */
  lemma ValidateCollectsAll(df: Frame, schema: seq<ColumnSchema>)
    requires ValidateData(df, schema).Failed?
    ensures var fs := ValidateData(df, schema).failureCases;
      && (forall f :: f in fs ==> exists k :: 0 <= k < |schema| && Describes(df, schema[k], f))
      && (forall k :: 0 <= k < |schema| && schema[k].name !in df.columns ==>
            FailureCase(None, schema[k].name, ColumnInDataframe, Text(schema[k].name)) in fs)
      && (forall k, i ::
            (0 <= k < |schema| && schema[k].name in df.columns && 0 <= i < |df.rows| &&
             CellFailure(schema[k], CellAt(df.rows[i], ColumnIndex(df, schema[k].name))).Some?) ==>
            FailureCase(Some(i), schema[k].name,
              CellFailure(schema[k], CellAt(df.rows[i], ColumnIndex(df, schema[k].name))).value,
              CellAt(df.rows[i], ColumnIndex(df, schema[k].name))) in fs)
  {
    forall f | f in Failures(df, schema) ensures exists k :: 0 <= k < |schema| && Describes(df, schema[k], f) {
      FailuresSound(df, schema, f);
    }
    forall k | 0 <= k < |schema| {
      FailuresComplete(df, schema, k);
    }
  }

  /**
   * The declared rules, cell by cell: Filename must be a non-null string;
   * the others accept null, and a non-null value only inside the inclusive
   * range or the allowed set.
   */
  lemma SchemaRules(c: Cell)
    ensures Schema[0].name == "Filename" && (CellFailure(Schema[0], c).None? <==> c.Text?)
    ensures Schema[1].name == "BIRTH_YEAR" &&
      (CellFailure(Schema[1], c).None? <==> c.Missing? || (c.Number? && 1900 <= c.n <= 2023))
    ensures Schema[2].name == "BIRTH_MNTH" &&
      (CellFailure(Schema[2], c).None? <==> c.Missing? || (c.Number? && 1 <= c.n <= 12))
    ensures Schema[3].name == "BIRTH_DAY" &&
      (CellFailure(Schema[3], c).None? <==> c.Missing? || (c.Number? && 1 <= c.n <= 31))
    ensures Schema[4].name == "BIRTH_WGHT" &&
      (CellFailure(Schema[4], c).None? <==> c.Missing? || (c.Number? && 300 <= c.n <= 6000))
    ensures Schema[5].name == "SEX" &&
      (CellFailure(Schema[5], c).None? <==> c.Missing? || (c.Number? && (c.n == 1 || c.n == 2)))
  {
  }
  /** A one-row frame with year 1800, month 13 and sex 3. */
  const ExampleFrame: Frame :=
    Frame(["Filename", "BIRTH_YEAR", "BIRTH_MNTH", "BIRTH_DAY", "BIRTH_WGHT", "SEX"],
          [[Text("a.xlsx"), Number(1800), Number(13), Missing, Missing, Number(3)]])

  /** In the example frame the k-th schema column sits at position k. */
  lemma ExampleColumnIndex(k: nat)
    requires k < 6
    ensures Schema[k].name in ExampleFrame.columns && ColumnIndex(ExampleFrame, Schema[k].name) == k
  {
    assert ExampleFrame.columns[k] == Schema[k].name;
  }

  /** A one-row frame has at most one failure case per present column. */
  lemma OneRowFailures(df: Frame, col: ColumnSchema, j: nat, c: Cell)
    requires |df.rows| == 1 && col.name in df.columns
    requires ColumnIndex(df, col.name) == j && CellAt(df.rows[0], j) == c
    ensures ColumnFailures(df, col) ==
      if CellFailure(col, c).None? then [] else [FailureCase(Some(0), col.name, CellFailure(col, c).value, c)]
  {
    assert df.rows[..0] == [];
    assert RowFailures(df.rows[..0], j, col) == [];
  }

  /** The example's failure cases for schema column `k`, one lemma per column. */
  lemma ExampleColumn0()
    ensures ColumnFailures(ExampleFrame, Schema[0]) == []
  {
    ExampleColumnIndex(0);
    OneRowFailures(ExampleFrame, Schema[0], 0, Text("a.xlsx"));
  }

  lemma ExampleColumn1()
    ensures ColumnFailures(ExampleFrame, Schema[1]) == [FailureCase(Some(0), "BIRTH_YEAR", ValueCheck(InRange(1900, 2023)), Number(1800))]
  {
    ExampleColumnIndex(1);
    OneRowFailures(ExampleFrame, Schema[1], 1, Number(1800));
  }

  lemma ExampleColumn2()
    ensures ColumnFailures(ExampleFrame, Schema[2]) == [FailureCase(Some(0), "BIRTH_MNTH", ValueCheck(InRange(1, 12)), Number(13))]
  {
    ExampleColumnIndex(2);
    OneRowFailures(ExampleFrame, Schema[2], 2, Number(13));
  }

  lemma ExampleColumn3()
    ensures ColumnFailures(ExampleFrame, Schema[3]) == []
  {
    ExampleColumnIndex(3);
    OneRowFailures(ExampleFrame, Schema[3], 3, Missing);
  }

  lemma ExampleColumn4()
    ensures ColumnFailures(ExampleFrame, Schema[4]) == []
  {
    ExampleColumnIndex(4);
    OneRowFailures(ExampleFrame, Schema[4], 4, Missing);
  }

  lemma ExampleColumn5()
    ensures ColumnFailures(ExampleFrame, Schema[5]) == [FailureCase(Some(0), "SEX", ValueCheck(IsIn([1, 2])), Number(3))]
  {
    ExampleColumnIndex(5);
    OneRowFailures(ExampleFrame, Schema[5], 5, Number(3));
  }

  lemma ExampleColumnFailures(k: nat)
    requires k < 6
    ensures ColumnFailures(ExampleFrame, Schema[k]) ==
      if k == 1 then [FailureCase(Some(0), "BIRTH_YEAR", ValueCheck(InRange(1900, 2023)), Number(1800))]
      else if k == 2 then [FailureCase(Some(0), "BIRTH_MNTH", ValueCheck(InRange(1, 12)), Number(13))]
      else if k == 5 then [FailureCase(Some(0), "SEX", ValueCheck(IsIn([1, 2])), Number(3))]
      else []
  {
    if k == 0 { ExampleColumn0(); }
    else if k == 1 { ExampleColumn1(); }
    else if k == 2 { ExampleColumn2(); }
    else if k == 3 { ExampleColumn3(); }
    else if k == 4 { ExampleColumn4(); }
    else { ExampleColumn5(); }
  }

  /** Extending the schema by one column appends that column's failure cases. */
  lemma FailuresPrefix(df: Frame, schema: seq<ColumnSchema>, n: nat)
    requires n < |schema|
    ensures Failures(df, schema[..n + 1]) == Failures(df, schema[..n]) + ColumnFailures(df, schema[n])
  {
    assert schema[..n + 1][..n] == schema[..n];
  }

  /** The failure cases the example is expected to yield for the first `n` schema columns. */
  function ExpectedPrefix(n: nat): seq<FailureCase>
  {
    var year := FailureCase(Some(0), "BIRTH_YEAR", ValueCheck(InRange(1900, 2023)), Number(1800));
    var month := FailureCase(Some(0), "BIRTH_MNTH", ValueCheck(InRange(1, 12)), Number(13));
    var sex := FailureCase(Some(0), "SEX", ValueCheck(IsIn([1, 2])), Number(3));
    if n < 2 then [] else if n < 3 then [year] else if n < 6 then [year, month] else [year, month, sex]
  }

  /** The example's failure cases, gathered column by column. */
  lemma {:induction false} ExampleFailures(n: nat)
    requires n <= 6
    ensures Failures(ExampleFrame, Schema[..n]) == ExpectedPrefix(n)
  {
    if n == 0 {
      assert Schema[..0] == [];
    } else {
      ExampleFailures(n - 1);
      FailuresPrefix(ExampleFrame, Schema, n - 1);
      ExampleColumnFailures(n - 1);
    }
  }

  /**
   * One row breaking three rules at once (year 1800, month 13, sex 3) yields
   * three failure cases, one per column, in schema order.
   */
  lemma ThreeViolations()
    ensures ValidateData(ExampleFrame, Schema)
      == Failed([FailureCase(Some(0), "BIRTH_YEAR", ValueCheck(InRange(1900, 2023)), Number(1800)),
                 FailureCase(Some(0), "BIRTH_MNTH", ValueCheck(InRange(1, 12)), Number(13)),
                 FailureCase(Some(0), "SEX", ValueCheck(IsIn([1, 2])), Number(3))])
  {
    ExampleFailures(6);
    assert Schema[..6] == Schema;
  }
}
