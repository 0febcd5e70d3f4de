/** The CSV branch of `process_uploaded_to_pivot_df`: a table that already has one row per
    employee and one column per course is normalised to 1/0 flags, row for row. */
module CsvPath {
  import opened Wrappers
  import opened Seqs
  import opened Text
  import opened Frames
  import opened Columns
  import opened Pivots

  /** Header stripping, then `dropna(axis=1, how="all")`: every row stays and the table
      comes out rectangular. */
  function Prepare(raw: Table): (r: Table)
    ensures Rect(r) && |r.rows| == |raw.rows|
  {
    DropEmptyColumns(StripHeader(raw))
  }

  /** `1 if str(x).strip() == "1" else 0`: a course cell becomes 1 exactly when it is a '1'
      with nothing but whitespace around it, and 0 otherwise. */
  function Indicator(cell: string): (r: int)
    ensures r == 1 <==> IsPaddedOne(cell)
    ensures r == 0 <==> !IsPaddedOne(cell)
  {
    StripIsOne(cell);
    if Strip(cell) == "1" then 1 else 0
  }

  /** The course columns: every column outside the excluded set, in order. */
  function CsvCourses(df: Table, nameCol: string): seq<string>
  {
    Without(df.columns, ExcludedSpec(df.columns, nameCol, DivisionColumn(df.columns)))
  }

  /** `df.set_index(name_col)[course_cols].applymap(...).reset_index()`: one row per input row,
      the name first, then one flag per course. */
  function IndicatorPivot(df: Table, nameCol: string, courses: seq<string>): (r: Pivot)
    ensures Rect(r) && |r.rows| == |df.rows| && |r.columns| == |courses| + 1
  {
    Frame([nameCol] + courses,
          seq(|df.rows|, k requires 0 <= k < |df.rows| =>
                [Str(Cell(df.columns, df.rows[k], nameCol))]
                + seq(|courses|, j requires 0 <= j < |courses| => Num(Indicator(Cell(df.columns, df.rows[k], courses[j]))))))
  }

  /** The CSV branch after preparation, as a function of the prepared table. It stops only
      for want of columns, for a name column that is also the division column, or for an
      ambiguous division; on success the name column is a label of the table and no course. */
  function Reshape(df: Table): (r: Result<Output, Error>)
    ensures r.Failure? ==> r.error in {NoColumns, NameIsDivision, AmbiguousDivision}
    ensures r.Success? ==> r.value.nameColumn in df.columns && r.value.nameColumn !in r.value.courses
  {
    match CsvNameColumn(df.columns)
    case None => Failure(NoColumns)
    case Some(nameCol) =>
      var courses := CsvCourses(df, nameCol);
      var base := IndicatorPivot(df, nameCol, courses);
      match DivisionColumn(df.columns)
      case None => Success(Output(base, nameCol, courses))
      case Some(d) =>
        if d == nameCol then Failure(NameIsDivision)
        else
          match DivisionMap(NameDivisionPairs(df, nameCol, d))
          case None => Failure(AmbiguousDivision)
          case Some(lookup) => Success(Output(AttachDivision(base, RowNames(df, nameCol), lookup), nameCol, courses))
  }

  /** The whole CSV branch as a function of the decoded table. It fails for want of columns
      exactly when every column of the decoded table is empty, and on success the name column
      is the stripped label of some column with a present cell. */
  function CsvPivot(raw: Table): (r: Result<Output, Error>)
    ensures r == Failure(NoColumns) <==> forall i :: 0 <= i < |raw.columns| ==> !HasValue(raw, i)
    ensures r.Success? ==> exists i :: 0 <= i < |raw.columns| && HasValue(raw, i) && Strip(raw.columns[i]) == r.value.nameColumn
  {
    var df := Prepare(raw);
    ReshapeOutcome(df);
    if df.columns == [] then
      assert forall i :: 0 <= i < |raw.columns| && HasValue(raw, i) ==> Strip(raw.columns[i]) in df.columns by {
        forall i | 0 <= i < |raw.columns| && HasValue(raw, i)
          ensures Strip(raw.columns[i]) in df.columns
        {
          StrippedLabels(raw, Strip(raw.columns[i]));
        }
      }
      Reshape(df)
    else
      StrippedLabels(raw, df.columns[0]);
      var r := Reshape(df);
      if r.Success? then StrippedLabels(raw, r.value.nameColumn); r else r
  }

  /** The CSV branch as the source runs it, with its loop over the columns. */
  method ProcessCsv(raw: Table) returns (r: Result<Output, Error>)
    ensures r == CsvPivot(raw)
  {
    var df := Prepare(raw);
    var found := CsvNameColumn(df.columns);
    if found.None? {
      return Failure(NoColumns);
    }
    var nameCol := found.value;
    var division := DivisionColumn(df.columns);
    var exclude := ExcludedColumns(df.columns, nameCol, division);
    var courses := Without(df.columns, exclude);
    var pivot := IndicatorPivot(df, nameCol, courses);
    if division.Some? {
      if division.value == nameCol {
        return Failure(NameIsDivision);
      }
      var lookup := DivisionMap(NameDivisionPairs(df, nameCol, division.value));
      if lookup.None? {
        return Failure(AmbiguousDivision);
      }
      pivot := AttachDivision(pivot, RowNames(df, nameCol), lookup.value);
    }
    r := Success(Output(pivot, nameCol, courses));
  }

  /** The CSV branch fails without columns iff the table has none; because its name column is
      also its division column iff no label is a name candidate and the first label reads as
      a division column; and because of an ambiguous division iff, otherwise, some name is
      paired with two division values. */
  lemma ReshapeOutcome(df: Table)
    ensures Reshape(df) == Failure(NoColumns) <==> df.columns == []
    ensures Reshape(df) == Failure(NameIsDivision) <==>
              df.columns != [] && NameColumn(df.columns).None? && IsDivisionColumn(df.columns[0])
    ensures Reshape(df) == Failure(AmbiguousDivision) <==>
              && df.columns != [] && DivisionColumn(df.columns).Some?
              && DivisionColumn(df.columns) != CsvNameColumn(df.columns)
              && !Consistent(NameDivisionPairs(df, CsvNameColumn(df.columns).value, DivisionColumn(df.columns).value))
  {
    NameIsDivisionMeaning(df.columns);
  }

  /** The output pivot of a successful run, before and after the division column. */
  lemma ReshapeShape(df: Table)
    requires Reshape(df).Success?
    ensures var out := Reshape(df).value;
      var base := IndicatorPivot(df, out.nameColumn, out.courses);
      && out.nameColumn == CsvNameColumn(df.columns).value
      && out.courses == CsvCourses(df, out.nameColumn)
      && Rect(base) && |base.rows| == |df.rows|
      && (DivisionColumn(df.columns).None? ==> out.pivot == base)
      && (DivisionColumn(df.columns).Some? ==>
            var lookup := DivisionMap(NameDivisionPairs(df, out.nameColumn, DivisionColumn(df.columns).value)).value;
            out.pivot == AttachDivision(base, RowNames(df, out.nameColumn), lookup))
  {
  }

  /** Course columns are exactly the columns other than the name column, the division column
      and the metadata columns, in their original order; the name is the first output column. */
  lemma ReshapeColumns(df: Table, c: string)
    requires Reshape(df).Success?
    ensures var out := Reshape(df).value;
      && (c in out.courses <==>
            c in df.columns && c != out.nameColumn && Some(c) != DivisionColumn(df.columns) && !IsMetadataColumn(c))
      && out.nameColumn in df.columns
      && (NameColumn(df.columns).None? ==> out.nameColumn == df.columns[0])
      && IndexOf(out.pivot.columns, out.nameColumn) == Some(0)
      && |out.pivot.rows| == |df.rows|
  {
    ReshapeCourses(df, c);
    ReshapeNameFirst(df);
  }

  lemma ReshapeCourses(df: Table, c: string)
    requires Reshape(df).Success?
    ensures var out := Reshape(df).value;
      && (c in out.courses <==>
            c in df.columns && c != out.nameColumn && Some(c) != DivisionColumn(df.columns) && !IsMetadataColumn(c))
      && out.nameColumn in df.columns
      && (NameColumn(df.columns).None? ==> out.nameColumn == df.columns[0])
  {
    ReshapeShape(df);
    CourseMember(df.columns, Reshape(df).value.nameColumn, DivisionColumn(df.columns), c);
  }

  lemma ReshapeNameFirst(df: Table)
    requires Reshape(df).Success?
    ensures var out := Reshape(df).value;
      && IndexOf(out.pivot.columns, out.nameColumn) == Some(0)
      && |out.pivot.rows| == |df.rows|
  {
    var out := Reshape(df).value;
    ReshapeShape(df);
    var base := IndicatorPivot(df, out.nameColumn, out.courses);
    if DivisionColumn(df.columns).Some? {
      IndexOfAppend(base.columns, [DivisionLabel], out.nameColumn);
    }
  }

  /** Row `k` of the flag pivot: the name of input row `k` under the name column, and its
      flag under each course column. */
  lemma IndicatorPivotLookup(df: Table, nameCol: string, courses: seq<string>, k: nat, c: string)
    requires k < |df.rows|
    ensures Rect(IndicatorPivot(df, nameCol, courses))
    ensures Lookup(IndicatorPivot(df, nameCol, courses).columns, IndicatorPivot(df, nameCol, courses).rows[k], nameCol)
         == Some(Str(Cell(df.columns, df.rows[k], nameCol)))
    ensures c in courses && c != nameCol ==>
              (Lookup(IndicatorPivot(df, nameCol, courses).columns, IndicatorPivot(df, nameCol, courses).rows[k], c)
                 == Some(Num(Indicator(Cell(df.columns, df.rows[k], c)))))
  {
    var p := IndicatorPivot(df, nameCol, courses);
    if c in courses && c != nameCol {
      IndexOfAppend([nameCol], courses, c);
      var j := IndexOf(courses, c).value;
      assert p.rows[k][1 + j] == Num(Indicator(Cell(df.columns, df.rows[k], courses[j])));
    }
  }

  /** The cells of output row `k` read from input row `k`: its name, its 1/0 flag for
      course `c`, and its own division value. */
  lemma ReshapeRow(df: Table, k: nat, c: string)
    requires Reshape(df).Success?
    requires k < |df.rows|
    ensures var out := Reshape(df).value;
      && k < |out.pivot.rows|
      && (c in out.courses && c != DivisionLabel ==>
            Lookup(out.pivot.columns, out.pivot.rows[k], c) == Some(Num(Indicator(Cell(df.columns, df.rows[k], c)))))
      && Lookup(out.pivot.columns, out.pivot.rows[k], out.nameColumn) == Some(Str(Cell(df.columns, df.rows[k], out.nameColumn)))
      && (DivisionColumn(df.columns).Some? ==>
            Lookup(out.pivot.columns, out.pivot.rows[k], DivisionLabel)
              == Some(Str(Cell(df.columns, df.rows[k], DivisionColumn(df.columns).value))))
  {
    var out := Reshape(df).value;
    ReshapeCourses(df, c);
    IndicatorPivotLookup(df, out.nameColumn, out.courses, k, c);
    if c != DivisionLabel {
      AttachedLookup(df, k, c);
    }
    ReshapeNameLabel(df);
    AttachedLookup(df, k, out.nameColumn);
    if DivisionColumn(df.columns).Some? {
      DivisionCell(df, k);
    }
  }

  /** The label the division value is attached under reads as a division column itself. */
  lemma DivisionLabelIsDivision()
    ensures IsDivisionColumn(DivisionLabel)
  {
    assert Lower(DivisionLabel)[..8] == "division";
  }

  /** A successful run never takes "Division/ Unit" as its name column: that label would also
      be the division column, and the run would stop with `NameIsDivision`. */
  lemma ReshapeNameLabel(df: Table)
    requires Reshape(df).Success?
    ensures Reshape(df).value.nameColumn != DivisionLabel
  {
    var nameCol := Reshape(df).value.nameColumn;
    if nameCol == DivisionLabel {
      DivisionLabelIsDivision();
      NameIsDivisionMeaning(df.columns);
      assert false;
    }
  }

  /** Attaching the division column leaves every other label of row `k` as the flag pivot
      has it. */
  lemma AttachedLookup(df: Table, k: nat, c: string)
    requires Reshape(df).Success?
    requires k < |df.rows| && c != DivisionLabel
    ensures var out := Reshape(df).value;
      var base := IndicatorPivot(df, out.nameColumn, out.courses);
      && k < |out.pivot.rows| && k < |base.rows|
      && Lookup(out.pivot.columns, out.pivot.rows[k], c) == Lookup(base.columns, base.rows[k], c)
  {
    var out := Reshape(df).value;
    ReshapeShape(df);
    var nameCol, courses := out.nameColumn, out.courses;
    var base := IndicatorPivot(df, nameCol, courses);
    if DivisionColumn(df.columns).Some? {
      var d := DivisionColumn(df.columns).value;
      var lookup := DivisionMap(NameDivisionPairs(df, nameCol, d)).value;
      var names := RowNames(df, nameCol);
      var cells := LookupCells(names, lookup);
      assert out.pivot == WithColumn(base, DivisionLabel, cells);
      WithColumnLookup(base, DivisionLabel, cells, k, c);
    }
  }

  /** The division value attached to output row `k` is the one input row `k` carries. */
  lemma DivisionCell(df: Table, k: nat)
    requires Reshape(df).Success? && DivisionColumn(df.columns).Some?
    requires k < |df.rows|
    ensures var out := Reshape(df).value;
      && k < |out.pivot.rows|
      && Lookup(out.pivot.columns, out.pivot.rows[k], DivisionLabel)
           == Some(Str(Cell(df.columns, df.rows[k], DivisionColumn(df.columns).value)))
  {
    var out := Reshape(df).value;
    ReshapeShape(df);
    var nameCol, courses := out.nameColumn, out.courses;
    var base := IndicatorPivot(df, nameCol, courses);
    var d := DivisionColumn(df.columns).value;
    var pairs := NameDivisionPairs(df, nameCol, d);
    var lookup := DivisionMap(pairs).value;
    var names := RowNames(df, nameCol);
    var cells := LookupCells(names, lookup);
    assert out.pivot == WithColumn(base, DivisionLabel, cells);
    WithColumnLookup(base, DivisionLabel, cells, k, DivisionLabel);
    assert pairs[k].0 == names[k] && pairs[k] in pairs;
    assert lookup[names[k]] == pairs[k].1;
    assert cells[k] == Str(pairs[k].1);
  }

  /** Preparation keeps every row, and every surviving column over the cells it had under its
      stripped label; a column survives iff some cell in it is present. */
  lemma PrepareKeeps(raw: Table, k: nat, c: string)
    requires Distinct(StripHeader(raw).columns)
    requires k < |raw.rows|
    ensures |Prepare(raw).rows| == |raw.rows|
    ensures c in Prepare(raw).columns <==>
              exists i :: 0 <= i < |raw.columns| && HasValue(raw, i) && Strip(raw.columns[i]) == c
    ensures c in Prepare(raw).columns ==> Cell(Prepare(raw).columns, Prepare(raw).rows[k], c) == Cell(StripHeader(raw).columns, raw.rows[k], c)
  {
    var keep := (i: nat) => HasValue(StripHeader(raw), i);
    assert Prepare(raw) == KeepColumns(StripHeader(raw), keep);
    StrippedLabels(raw, c);
    if c in Prepare(raw).columns {
      KeepColumnsCell(StripHeader(raw), keep, k, c);
    }
  }
}
