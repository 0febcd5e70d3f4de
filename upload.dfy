/** `process_uploaded_to_pivot_df` as a whole: the upload's file name decides whether its
    contents are read as a pivot CSV or as a multi-sheet workbook. Decoding the bytes is
    outside the model, so both readings of the upload come in as parameters and only the one
    the name selects is looked at. */
module Upload {
  import opened Wrappers
  import opened Text
  import opened Frames
  import opened Pivots
  import opened Sheets
  import opened CsvPath
  import opened Workbook

  /** `uploaded.name.lower().endswith(".csv")`. */
  predicate IsCsvName(fileName: string)
  {
    EndsWith(Lower(fileName), ".csv")
  }

  /** The reshaping of an upload, given its contents read as a CSV table and as workbook
      sheets. Each branch ends only in its own errors: a CSV run never reports missing RMS TP
      rows or a missing name column, and a workbook run never stops for want of columns. */
  function Process(fileName: string, csv: Table, sheets: seq<Sheet>): (r: Result<Output, Error>)
    ensures IsCsvName(fileName) && r.Failure? ==> r.error in {NoColumns, NameIsDivision, AmbiguousDivision}
    ensures !IsCsvName(fileName) && r.Failure? ==> r.error in {NoRmsTpRows, NameColumnMissing, NameClash, AmbiguousDivision}
  {
    if IsCsvName(fileName) then CsvPivot(csv) else WorkbookPivot(sheets)
  }

  /** The dispatch as the source runs it. */
  method ProcessUpload(fileName: string, csv: Table, sheets: seq<Sheet>) returns (r: Result<Output, Error>)
    ensures r == Process(fileName, csv, sheets)
  {
    if IsCsvName(fileName) {
      r := ProcessCsv(csv);
    } else {
      r := ProcessWorkbook(sheets);
    }
  }

  /** A name is taken for a CSV exactly when it ends in a dot and the letters c, s and v, each
      in either case. */
  lemma CsvNameMeaning(fileName: string)
    ensures IsCsvName(fileName) <==>
              && |fileName| >= 4
              && fileName[|fileName| - 4] == '.'
              && fileName[|fileName| - 3] in {'c', 'C'}
              && fileName[|fileName| - 2] in {'s', 'S'}
              && fileName[|fileName| - 1] in {'v', 'V'}
  {
    var low := Lower(fileName);
    var n := |fileName|;
    if n >= 4 {
      assert low[n - 4..] == [low[n - 4], low[n - 3], low[n - 2], low[n - 1]];
      assert ".csv" == ['.', 'c', 's', 'v'];
    }
  }

  /** Lower-casing the name first changes nothing about the choice. */
  lemma CsvNameIgnoresCase(fileName: string)
    ensures IsCsvName(Lower(fileName)) == IsCsvName(fileName)
  {
    assert Lower(Lower(fileName)) == Lower(fileName);
  }

  /** On success, either branch puts the name column first and keeps it out of the course
      list, and each course heads a column of the pivot. */
  lemma ProcessNameFirst(fileName: string, csv: Table, sheets: seq<Sheet>, c: string)
    requires Process(fileName, csv, sheets).Success?
    ensures var out := Process(fileName, csv, sheets).value;
      && |out.pivot.columns| >= 1 && out.pivot.columns[0] == out.nameColumn
      && out.nameColumn !in out.courses
      && (c in out.courses ==> c in out.pivot.columns)
  {
    if IsCsvName(fileName) {
      CsvNameFirst(Prepare(csv), c);
    } else {
      WorkbookNameFirst(Combined(sheets), c);
    }
  }

  lemma CsvNameFirst(df: Table, c: string)
    requires Reshape(df).Success?
    ensures var out := Reshape(df).value;
      && |out.pivot.columns| >= 1 && out.pivot.columns[0] == out.nameColumn
      && out.nameColumn !in out.courses
      && (c in out.courses ==> c in out.pivot.columns)
  {
    var out := Reshape(df).value;
    ReshapeShape(df);
    ReshapeCourses(df, out.nameColumn);
    var base := IndicatorPivot(df, out.nameColumn, out.courses);
    assert base.columns == [out.nameColumn] + out.courses;
    assert out.pivot.columns[..|base.columns|] == base.columns;
  }

  lemma WorkbookNameFirst(combined: Table, c: string)
    requires AfterCombine(combined).Success?
    ensures var out := AfterCombine(combined).value;
      && |out.pivot.columns| >= 1 && out.pivot.columns[0] == out.nameColumn
      && out.nameColumn !in out.courses
      && (c in out.courses ==> c in out.pivot.columns)
  {
    var out := AfterCombine(combined).value;
    AfterCombineShape(combined);
    var base := BasePivot(combined, out.nameColumn);
    assert base.columns == [out.nameColumn] + out.courses;
    assert out.pivot.columns[..|base.columns|] == base.columns;
  }
}
