/** The second half of the workbook branch: the combined RMS TP rows are counted per employee
    and course (`pivot_table` summing a column of ones), the name index is turned back into a
    column, and the division value is attached. */
module Workbook {
  import opened Wrappers
  import opened Seqs
  import opened Frames
  import opened Columns
  import opened Pivots
  import opened Sheets
  import opened Text

  /** Label of the column of ones `pivot_table` sums. */
  const PresentLabel := "PRESENT"

  /** The (name, course) key of every combined row, in row order. */
  function Keys(combined: Table, nameCol: string): (r: seq<(string, string)>)
    ensures |r| == |combined.rows|
  {
    seq(|combined.rows|, k requires 0 <= k < |combined.rows| =>
          (Cell(combined.columns, combined.rows[k], nameCol), Cell(combined.columns, combined.rows[k], CourseLabel)))
  }

  predicate HasName(key: (string, string))
  {
    key.0 != ""
  }

  function Firsts(keys: seq<(string, string)>): seq<string>
  {
    seq(|keys|, i requires 0 <= i < |keys| => keys[i].0)
  }

  function Seconds(keys: seq<(string, string)>): seq<string>
  {
    seq(|keys|, i requires 0 <= i < |keys| => keys[i].1)
  }

  /** The keys `pivot_table` groups: rows whose name is missing are left out. */
  function Named(combined: Table, nameCol: string): seq<(string, string)>
  {
    Filter(Keys(combined, nameCol), HasName)
  }

  /** The pivot's row labels: every name that occurs, once. */
  function PivotNames(combined: Table, nameCol: string): seq<string>
  {
    Dedup(Firsts(Named(combined, nameCol)))
  }

  /** The pivot's course columns: every course that occurs with a name, once. */
  function PivotCourses(combined: Table, nameCol: string): seq<string>
  {
    Dedup(Seconds(Named(combined, nameCol)))
  }

  /** One output row: the name, then for each course the number of keys naming both. */
  function PivotRow(keys: seq<(string, string)>, name: string, courses: seq<string>): (r: seq<Value>)
    ensures |r| == |courses| + 1
  {
    [Str(name)] + seq(|courses|, j requires 0 <= j < |courses| => Num(Count(keys, (name, courses[j]))))
  }

  /** `pivot_table(..., aggfunc="sum", fill_value=0).reset_index()`. */
  function CountPivot(keys: seq<(string, string)>, nameCol: string, names: seq<string>, courses: seq<string>): (r: Pivot)
    ensures Rect(r) && |r.rows| == |names|
  {
    Frame([nameCol] + courses, seq(|names|, i requires 0 <= i < |names| => PivotRow(keys, names[i], courses)))
  }

  /** Lines 85-104 as a function of the combined table, with the corrected course list of
      line 104 (see `CourseColumns`). It stops only for the workbook's four errors; on success
      the name column is a name candidate and no course. */
  function AfterCombine(combined: Table): (r: Result<Output, Error>)
    ensures r.Failure? ==> r.error in {NoRmsTpRows, NameColumnMissing, NameClash, AmbiguousDivision}
    ensures r.Success? ==> IsNameColumn(r.value.nameColumn) && r.value.nameColumn !in r.value.courses
  {
    if combined.rows == [] then Failure(NoRmsTpRows)
    else
      match NameColumn(combined.columns)
      case None => Failure(NameColumnMissing)
      case Some(nameCol) =>
        var names, courses := PivotNames(combined, nameCol), PivotCourses(combined, nameCol);
        if nameCol in courses then Failure(NameClash)
        else
          var base := CountPivot(Named(combined, nameCol), nameCol, names, courses);
          match DivisionColumn(combined.columns)
          case None => Success(Output(base, nameCol, courses))
          case Some(d) =>
            match DivisionMap(NameDivisionPairs(combined, nameCol, d))
            case None => Failure(AmbiguousDivision)
            case Some(lookup) => Success(Output(AttachDivision(base, names, lookup), nameCol, courses))
  }

  /** The whole workbook branch as a function of the decoded sheets: it ends only in the
      workbook's four errors, and on success its name column is a label some sheet with
      RMS TP rows carries after cleaning. */
  function WorkbookPivot(sheets: seq<Sheet>): (r: Result<Output, Error>)
    ensures r.Failure? ==> r.error in {NoRmsTpRows, NameColumnMissing, NameClash, AmbiguousDivision}
    ensures r.Success? ==> exists i :: 0 <= i < |sheets| && HasRmsTp(sheets[i]) && r.value.nameColumn in PrepareSheet(sheets[i].table).columns
  {
    var combined := Combined(sheets);
    var r := AfterCombine(combined);
    if r.Success? then
      var n := r.value.nameColumn;
      AfterCombineShape(combined);
      assert n != CourseLabel;
      CombinedColumns(sheets, n);
      r
    else r
  }

  /** The workbook branch as the source runs it, returning the corrected course list. */
  method ProcessWorkbook(sheets: seq<Sheet>) returns (r: Result<Output, Error>)
    ensures r == WorkbookPivot(sheets)
  {
    var combined := CombineSheets(sheets);
    if combined.rows == [] {
      return Failure(NoRmsTpRows);
    }
    var found := NameColumn(combined.columns);
    if found.None? {
      return Failure(NameColumnMissing);
    }
    var nameCol := found.value;
    var names, courses := PivotNames(combined, nameCol), PivotCourses(combined, nameCol);
    if nameCol in courses {
      return Failure(NameClash);
    }
    var pivot := CountPivot(Named(combined, nameCol), nameCol, names, courses);
    var division := DivisionColumn(combined.columns);
    if division.Some? {
      var lookup := DivisionMap(NameDivisionPairs(combined, nameCol, division.value));
      if lookup.None? {
        return Failure(AmbiguousDivision);
      }
      pivot := AttachDivision(pivot, names, lookup.value);
    }
    r := Success(Output(pivot, nameCol, courses));
  }

  /** The count pivot before the division column. */
  function BasePivot(combined: Table, nameCol: string): (r: Pivot)
    ensures Rect(r) && |r.rows| == |PivotNames(combined, nameCol)|
  {
    CountPivot(Named(combined, nameCol), nameCol, PivotNames(combined, nameCol), PivotCourses(combined, nameCol))
  }

  /** The division value attached to each pivot row. */
  function DivisionCells(combined: Table, nameCol: string, lookup: map<string, string>): seq<Value>
  {
    LookupCells(PivotNames(combined, nameCol), lookup)
  }

  /** The name column found is a name candidate, so neither the course nor the division label. */
  lemma NameLabel(cols: seq<string>)
    requires NameColumn(cols).Some?
    ensures IsNameColumn(NameColumn(cols).value)
    ensures NameColumn(cols).value != DivisionLabel && NameColumn(cols).value != CourseLabel
  {
    var j: nat :| FirstAt(cols, j, IsNameColumn) && cols[j] == NameColumn(cols).value;
  }

  /** The output of a successful run, before and after the division column. */
  lemma AfterCombineShape(combined: Table)
    requires AfterCombine(combined).Success?
    ensures var out := AfterCombine(combined).value;
      && NameColumn(combined.columns) == Some(out.nameColumn)
      && IsNameColumn(out.nameColumn) && out.nameColumn != DivisionLabel
      && out.courses == PivotCourses(combined, out.nameColumn)
      && out.nameColumn !in out.courses
      && (DivisionColumn(combined.columns).None? ==> out.pivot == BasePivot(combined, out.nameColumn))
      && (DivisionColumn(combined.columns).Some? ==>
            && DivisionMap(NameDivisionPairs(combined, out.nameColumn, DivisionColumn(combined.columns).value)).Some?
            && out.pivot == WithColumn(BasePivot(combined, out.nameColumn), DivisionLabel,
                                       DivisionCells(combined, out.nameColumn,
                                         DivisionMap(NameDivisionPairs(combined, out.nameColumn, DivisionColumn(combined.columns).value)).value)))
  {
    NameLabel(combined.columns);
  }

  // ---------------------------------------------------------------------------------------
  // Outcomes

  /** Which names and courses the pivot has: a name labels a row iff some combined row
      carries it; a course heads a column iff some named combined row was tagged with it. */
  lemma KeysMembers(combined: Table, nameCol: string, n: string, c: string)
    ensures Distinct(PivotNames(combined, nameCol)) && Distinct(PivotCourses(combined, nameCol))
    ensures n in PivotNames(combined, nameCol) <==>
              n != "" && exists k :: 0 <= k < |combined.rows| && Cell(combined.columns, combined.rows[k], nameCol) == n
    ensures c in PivotCourses(combined, nameCol) <==>
              exists k :: 0 <= k < |combined.rows| && Cell(combined.columns, combined.rows[k], nameCol) != ""
                                                   && Cell(combined.columns, combined.rows[k], CourseLabel) == c
  {
    PivotNameMember(combined, nameCol, n);
    PivotCourseMember(combined, nameCol, c);
  }

  lemma PivotNameMember(combined: Table, nameCol: string, n: string)
    ensures n in PivotNames(combined, nameCol) <==>
              n != "" && exists k :: 0 <= k < |combined.rows| && Cell(combined.columns, combined.rows[k], nameCol) == n
  {
    var keys := Keys(combined, nameCol);
    var named := Named(combined, nameCol);
    if n in Firsts(named) {
      var i :| 0 <= i < |named| && Firsts(named)[i] == n;
      assert named[i] in named;
      var k :| 0 <= k < |keys| && keys[k] == named[i];
    }
    if n != "" && exists k :: 0 <= k < |combined.rows| && Cell(combined.columns, combined.rows[k], nameCol) == n {
      var k :| 0 <= k < |combined.rows| && Cell(combined.columns, combined.rows[k], nameCol) == n;
      assert keys[k] in keys && HasName(keys[k]);
      var i :| 0 <= i < |named| && named[i] == keys[k];
      assert Firsts(named)[i] == n;
    }
  }

  lemma PivotCourseMember(combined: Table, nameCol: string, c: string)
    ensures c in PivotCourses(combined, nameCol) <==>
              exists k :: 0 <= k < |combined.rows| && Cell(combined.columns, combined.rows[k], nameCol) != ""
                                                   && Cell(combined.columns, combined.rows[k], CourseLabel) == c
  {
    var keys := Keys(combined, nameCol);
    var named := Named(combined, nameCol);
    if c in Seconds(named) {
      var i :| 0 <= i < |named| && Seconds(named)[i] == c;
      assert named[i] in named;
      var k :| 0 <= k < |keys| && keys[k] == named[i];
    }
    if exists k :: 0 <= k < |combined.rows| && Cell(combined.columns, combined.rows[k], nameCol) != ""
                                           && Cell(combined.columns, combined.rows[k], CourseLabel) == c {
      var k :| 0 <= k < |combined.rows| && Cell(combined.columns, combined.rows[k], nameCol) != ""
                                       && Cell(combined.columns, combined.rows[k], CourseLabel) == c;
      assert keys[k] in keys && HasName(keys[k]);
      var i :| 0 <= i < |named| && named[i] == keys[k];
      assert Seconds(named)[i] == c;
    }
  }

  /** The workbook branch fails exactly in these cases, checked in this order: no combined
      rows, no name column, a course labelled like the name column, a name with two division
      values. */
  lemma AfterCombineOutcome(combined: Table)
    ensures AfterCombine(combined) == Failure(NoRmsTpRows) <==> combined.rows == []
    ensures AfterCombine(combined) == Failure(NameColumnMissing) <==>
              combined.rows != [] && NameColumn(combined.columns).None?
    ensures AfterCombine(combined) == Failure(NameClash) <==>
              combined.rows != [] && NameColumn(combined.columns).Some?
              && NameColumn(combined.columns).value in PivotCourses(combined, NameColumn(combined.columns).value)
    ensures AfterCombine(combined) == Failure(AmbiguousDivision) <==>
              && combined.rows != [] && NameColumn(combined.columns).Some?
              && NameColumn(combined.columns).value !in PivotCourses(combined, NameColumn(combined.columns).value)
              && DivisionColumn(combined.columns).Some?
              && !Consistent(NameDivisionPairs(combined, NameColumn(combined.columns).value, DivisionColumn(combined.columns).value))
  {
  }

  /** Run on sheets: "no RMS TP rows" iff no sheet has a surviving row. */
  lemma WorkbookNoRows(sheets: seq<Sheet>)
    ensures WorkbookPivot(sheets) == Failure(NoRmsTpRows) <==> forall i :: 0 <= i < |sheets| ==> !HasRmsTp(sheets[i])
  {
    CombinedEmpty(sheets);
    AfterCombineOutcome(Combined(sheets));
  }

  /** Run on sheets with some surviving row: "name column missing" iff no sheet with surviving
      rows has a name-candidate label after cleaning. */
  lemma WorkbookNameMissing(sheets: seq<Sheet>)
    requires exists i :: 0 <= i < |sheets| && HasRmsTp(sheets[i])
    ensures WorkbookPivot(sheets) == Failure(NameColumnMissing) <==>
              forall i, c :: 0 <= i < |sheets| && HasRmsTp(sheets[i]) && c in PrepareSheet(sheets[i].table).columns ==> !IsNameColumn(c)
  {
    CombinedEmpty(sheets);
    AfterCombineOutcome(Combined(sheets));
    CombinedNameless(sheets);
  }

  /** The combined labels hold no name candidate iff no sheet with surviving rows has one. */
  lemma CombinedNameless(sheets: seq<Sheet>)
    ensures NameColumn(Combined(sheets).columns).None? <==>
              forall i, c :: 0 <= i < |sheets| && HasRmsTp(sheets[i]) && c in PrepareSheet(sheets[i].table).columns ==> !IsNameColumn(c)
  {
    var cols := Combined(sheets).columns;
    forall c ensures c in cols <==>
                       exists i :: 0 <= i < |sheets| && HasRmsTp(sheets[i]) &&
                                   (c == CourseLabel || c in PrepareSheet(sheets[i].table).columns)
    {
      CombinedColumns(sheets, c);
    }
    NamelessLabels(cols, sheets);
  }

  lemma NamelessLabels(cols: seq<string>, sheets: seq<Sheet>)
    requires forall c :: c in cols <==>
               exists i :: 0 <= i < |sheets| && HasRmsTp(sheets[i]) &&
                           (c == CourseLabel || c in PrepareSheet(sheets[i].table).columns)
    ensures NameColumn(cols).None? <==>
              forall i, c :: 0 <= i < |sheets| && HasRmsTp(sheets[i]) && c in PrepareSheet(sheets[i].table).columns ==> !IsNameColumn(c)
  {
    NoNameColumn(cols);
    assert !IsNameColumn(CourseLabel);
  }

  lemma NoNameColumn(cols: seq<string>)
    ensures NameColumn(cols).None? <==> forall c :: c in cols ==> !IsNameColumn(c)
  {
    if NameColumn(cols).Some? {
      NameLabel(cols);
    }
  }

  /** The workbook's name column is the first name candidate of the first sheet with RMS TP
      rows whose cleaned labels include one. */
  lemma CombinedNameColumn(sheets: seq<Sheet>, i: nat)
    requires FirstSheetWith(sheets, IsNameColumn, i)
    ensures NameColumn(Combined(sheets).columns) == NameColumn(PrepareSheet(sheets[i].table).columns)
  {
    CourseLabelNotName();
    CombinedFirst(sheets, IsNameColumn, i);
  }

  /** The workbook's division column is the first division-like label of the first sheet with
      RMS TP rows whose cleaned labels include one. */
  lemma CombinedDivisionColumn(sheets: seq<Sheet>, i: nat)
    requires FirstSheetWith(sheets, IsDivisionColumn, i)
    ensures DivisionColumn(Combined(sheets).columns) == DivisionColumn(PrepareSheet(sheets[i].table).columns)
  {
    CourseLabelPlain();
    CombinedFirst(sheets, IsDivisionColumn, i);
  }

  lemma CourseLabelNotName()
    ensures !IsNameColumn(CourseLabel)
  {
  }

  /** The "PRESENT" column added at line 95, before the division column is searched for,
      never becomes the division column. */
  lemma PresentIgnored(cols: seq<string>)
    ensures DivisionColumn(if PresentLabel in cols then cols else cols + [PresentLabel]) == DivisionColumn(cols)
  {
    PlainLabel(PresentLabel, "present");
    if PresentLabel !in cols {
      FirstLabelSnoc(cols, PresentLabel, IsDivisionColumn);
    }
  }

  // ---------------------------------------------------------------------------------------
  // Cells

  /** Under each course, a row holds how many combined rows carry its name and that course
      (the sum over a column of ones); under the name column, its name. */
  lemma PivotCell(combined: Table, i: nat, c: string)
    requires AfterCombine(combined).Success?
    requires i < |PivotNames(combined, AfterCombine(combined).value.nameColumn)|
    requires c in AfterCombine(combined).value.courses
    requires DivisionColumn(combined.columns).None? || c != DivisionLabel
    ensures var out := AfterCombine(combined).value;
      var n := PivotNames(combined, out.nameColumn)[i];
      && i < |out.pivot.rows|
      && Lookup(out.pivot.columns, out.pivot.rows[i], out.nameColumn) == Some(Str(n))
      && Lookup(out.pivot.columns, out.pivot.rows[i], c) == Some(Num(Count(Keys(combined, out.nameColumn), (n, c))))
  {
    AfterCombineShape(combined);
    var out := AfterCombine(combined).value;
    var nameCol := out.nameColumn;
    var names := PivotNames(combined, nameCol);
    var n := names[i];
    KeysMembers(combined, nameCol, n, c);
    assert n in names;
    NamedCount(combined, nameCol, (n, c));
    BaseLookup(Named(combined, nameCol), nameCol, names, out.courses, i, c);
    if DivisionColumn(combined.columns).Some? {
      var d := DivisionColumn(combined.columns).value;
      var cells := DivisionCells(combined, nameCol, DivisionMap(NameDivisionPairs(combined, nameCol, d)).value);
      WithColumnLookup(BasePivot(combined, nameCol), DivisionLabel, cells, i, c);
      WithColumnLookup(BasePivot(combined, nameCol), DivisionLabel, cells, i, nameCol);
    }
  }

  /** Reading the count pivot back by label. */
  lemma BaseLookup(named: seq<(string, string)>, nameCol: string, names: seq<string>, courses: seq<string>, i: nat, c: string)
    requires Distinct(courses) && nameCol !in courses
    requires i < |names| && c in courses
    ensures var base := CountPivot(named, nameCol, names, courses);
      && Lookup(base.columns, base.rows[i], nameCol) == Some(Str(names[i]))
      && Lookup(base.columns, base.rows[i], c) == Some(Num(Count(named, (names[i], c))))
  {
    var base := CountPivot(named, nameCol, names, courses);
    var row := PivotRow(named, names[i], courses);
    assert base.columns == [nameCol] + courses && base.rows[i] == row;
    assert IndexOf(base.columns, nameCol) == Some(0) && row[0] == Str(names[i]);
    IndexOfAppend([nameCol], courses, c);
    var j := IndexOf(courses, c).value;
    assert IndexOf(base.columns, c) == Some(1 + j);
    assert row[1 + j] == Num(Count(named, (names[i], courses[j])));
  }

  /** A named key is counted as often in the grouped keys as among all keys. */
  lemma NamedCount(combined: Table, nameCol: string, key: (string, string))
    requires key.0 != ""
    ensures Count(Named(combined, nameCol), key) == Count(Keys(combined, nameCol), key)
    ensures forall k :: k in Named(combined, nameCol) ==> HasName(k)
  {
  }

  /** The division value attached to a pivot row is the division cell of every combined row
      with that name (they agree, or the run fails). */
  lemma PivotDivision(combined: Table, i: nat, k: nat)
    requires AfterCombine(combined).Success? && DivisionColumn(combined.columns).Some?
    requires i < |PivotNames(combined, AfterCombine(combined).value.nameColumn)| && k < |combined.rows|
    requires Cell(combined.columns, combined.rows[k], AfterCombine(combined).value.nameColumn)
          == PivotNames(combined, AfterCombine(combined).value.nameColumn)[i]
    ensures var out := AfterCombine(combined).value;
      && i < |out.pivot.rows|
      && Lookup(out.pivot.columns, out.pivot.rows[i], DivisionLabel)
           == Some(Str(Cell(combined.columns, combined.rows[k], DivisionColumn(combined.columns).value)))
  {
    AfterCombineShape(combined);
    var out := AfterCombine(combined).value;
    var nameCol := out.nameColumn;
    var d := DivisionColumn(combined.columns).value;
    var pairs := NameDivisionPairs(combined, nameCol, d);
    var lookup := DivisionMap(pairs).value;
    var cells := DivisionCells(combined, nameCol, lookup);
    WithColumnLookup(BasePivot(combined, nameCol), DivisionLabel, cells, i, DivisionLabel);
    assert pairs[k] in pairs;
    assert cells[i] == Str(lookup[pairs[k].0]);
  }

  // ---------------------------------------------------------------------------------------
  // Totals

  /** The (name, course) pairs of one row, course by course. */
  function Row(name: string, courses: seq<string>): seq<(string, string)>
  {
    seq(|courses|, j requires 0 <= j < |courses| => (name, courses[j]))
  }

  /** Every (name, course) pair, row by row. */
  function Product(names: seq<string>, courses: seq<string>): seq<(string, string)>
  {
    if names == [] then [] else Product(names[..|names| - 1], courses) + Row(names[|names| - 1], courses)
  }

  lemma {:induction false} ProductFacts(names: seq<string>, courses: seq<string>, key: (string, string))
    requires Distinct(names) && Distinct(courses)
    ensures Distinct(Product(names, courses))
    ensures key in Product(names, courses) <==> key.0 in names && key.1 in courses
  {
    if names != [] {
      var init, last := names[..|names| - 1], names[|names| - 1];
      ProductFacts(init, courses, key);
      var a, b := Product(init, courses), Row(last, courses);
      forall x | x in a ensures x.0 in init {
        ProductFacts(init, courses, x);
      }
      forall p, q | 0 <= p < q < |a + b| ensures (a + b)[p] != (a + b)[q] {
        if q < |a| {
        } else if p >= |a| {
          assert b[p - |a|].1 == courses[p - |a|] && b[q - |a|].1 == courses[q - |a|];
        } else {
          assert a[p] in a;
          assert (a + b)[q].0 == last;
          assert last !in init;
        }
      }
      assert names == init + [last];
      if key in b {
        var j :| 0 <= j < |b| && b[j] == key;
        assert courses[j] in courses;
      }
      if key.0 == last && key.1 in courses {
        var j :| 0 <= j < |courses| && courses[j] == key.1;
        assert b[j] == key;
      }
    }
  }

  /** The numeric sum of a row only sees its count cells. */
  lemma RowTotalSnoc(row: seq<Value>, v: Value)
    ensures RowTotal(row + [v]) == RowTotal(row) + (match v case Num(n) => n case Str(_) => 0)
  {
    assert (row + [v])[..|row|] == row;
  }

  lemma {:induction false} RowTotalCounts(keys: seq<(string, string)>, name: string, courses: seq<string>)
    ensures RowTotal(PivotRow(keys, name, courses)) == CountAll(keys, Row(name, courses))
  {
    if courses == [] {
      assert PivotRow(keys, name, courses) == [] + [Str(name)];
      RowTotalSnoc([], Str(name));
    } else {
      var init, last := courses[..|courses| - 1], courses[|courses| - 1];
      RowTotalCounts(keys, name, init);
      assert PivotRow(keys, name, courses) == PivotRow(keys, name, init) + [Num(Count(keys, (name, last)))];
      RowTotalSnoc(PivotRow(keys, name, init), Num(Count(keys, (name, last))));
      assert Row(name, courses) == Row(name, init) + [(name, last)];
      CountAllAppend(keys, Row(name, init), [(name, last)]);
      assert [(name, last)][..0] == [];
    }
  }

  lemma {:induction false} TotalCounts(keys: seq<(string, string)>, nameCol: string, names: seq<string>, courses: seq<string>)
    ensures Total(CountPivot(keys, nameCol, names, courses).rows) == CountAll(keys, Product(names, courses))
  {
    if names != [] {
      var init, last := names[..|names| - 1], names[|names| - 1];
      TotalCounts(keys, nameCol, init, courses);
      var rows := CountPivot(keys, nameCol, names, courses).rows;
      assert rows[..|rows| - 1] == CountPivot(keys, nameCol, init, courses).rows;
      RowTotalCounts(keys, last, courses);
      CountAllAppend(keys, Product(init, courses), Row(last, courses));
    }
  }

  /** Every key is a pair of a pivot name and a pivot course. */
  lemma NamedCovered(combined: Table, nameCol: string, key: (string, string))
    requires key in Named(combined, nameCol)
    ensures key.0 in PivotNames(combined, nameCol) && key.1 in PivotCourses(combined, nameCol)
  {
    var named := Named(combined, nameCol);
    var i :| 0 <= i < |named| && named[i] == key;
    assert Firsts(named)[i] == key.0 && Seconds(named)[i] == key.1;
  }

  /** Appending a text column leaves the numeric sum unchanged. */
  lemma {:induction false} TotalAppendText(rows: seq<seq<Value>>, cells: seq<Value>)
    requires |cells| == |rows| && forall k :: 0 <= k < |cells| ==> cells[k].Str?
    ensures Total(AppendCells(rows, cells)) == Total(rows)
  {
    if rows != [] {
      var n := |rows|;
      var wide := AppendCells(rows, cells);
      assert forall k :: 0 <= k < n - 1 ==> cells[..n - 1][k] == cells[k];
      TotalAppendText(rows[..n - 1], cells[..n - 1]);
      assert wide[..n - 1] == AppendCells(rows[..n - 1], cells[..n - 1]);
      assert wide[n - 1] == rows[n - 1] + [cells[n - 1]] && cells[n - 1].Str?;
      RowTotalSnoc(rows[n - 1], cells[n - 1]);
      assert Total(wide) == Total(wide[..n - 1]) + RowTotal(wide[n - 1]);
    }
  }

  /** The counts add up to the number of combined rows that carry a name, and attaching the
      division column does not change the sum. */
  lemma PivotTotal(combined: Table)
    requires AfterCombine(combined).Success?
    requires DivisionColumn(combined.columns).Some? ==> DivisionLabel !in AfterCombine(combined).value.courses
    ensures Total(AfterCombine(combined).value.pivot.rows)
         == |Named(combined, AfterCombine(combined).value.nameColumn)|
  {
    AfterCombineShape(combined);
    var out := AfterCombine(combined).value;
    var nameCol := out.nameColumn;
    BaseTotal(combined, nameCol);
    if DivisionColumn(combined.columns).Some? {
      var d := DivisionColumn(combined.columns).value;
      var base := BasePivot(combined, nameCol);
      var cells := DivisionCells(combined, nameCol, DivisionMap(NameDivisionPairs(combined, nameCol, d)).value);
      assert DivisionLabel !in base.columns;
      assert out.pivot.rows == AppendCells(base.rows, cells);
      TotalAppendText(base.rows, cells);
    }
  }

  /** When every combined row carries a name, the counts add up to the number of combined rows. */
  lemma PivotTotalAllNamed(combined: Table)
    requires AfterCombine(combined).Success?
    requires DivisionColumn(combined.columns).Some? ==> DivisionLabel !in AfterCombine(combined).value.courses
    requires forall k :: 0 <= k < |combined.rows| ==>
               Cell(combined.columns, combined.rows[k], AfterCombine(combined).value.nameColumn) != ""
    ensures Total(AfterCombine(combined).value.pivot.rows) == |combined.rows|
  {
    PivotTotal(combined);
    FilterAll(Keys(combined, AfterCombine(combined).value.nameColumn), HasName);
  }

  /** Every key is counted once: the count pivot sums to the number of keys. */
  lemma BaseTotal(combined: Table, nameCol: string)
    ensures Total(BasePivot(combined, nameCol).rows) == |Named(combined, nameCol)|
  {
    var names, courses := PivotNames(combined, nameCol), PivotCourses(combined, nameCol);
    var named := Named(combined, nameCol);
    KeysMembers(combined, nameCol, "", "");
    ProductFacts(names, courses, ("", ""));
    forall key | key in named ensures key in Product(names, courses) {
      NamedCovered(combined, nameCol, key);
      ProductFacts(names, courses, key);
    }
    TotalCounts(named, nameCol, names, courses);
    CountAllCovers(named, Product(names, courses));
  }

  // ---------------------------------------------------------------------------------------
  // The returned course list

  /** Line 104 as written: the pivot's labels minus the first and the last, or none at all
      when there are at most two. */
  function ReturnedCourses(columns: seq<string>): (r: seq<string>)
    ensures |r| == if |columns| > 2 then |columns| - 2 else 0
    ensures forall i :: 0 <= i < |r| ==> r[i] == columns[i + 1]
  {
    if |columns| > 2 then columns[1..|columns| - 1] else []
  }

  /** What line 104 evidently means: the labels after the name, minus the division column
      when one was attached. */
  function CourseColumns(columns: seq<string>, divisionAttached: bool): (r: seq<string>)
    ensures |r| == if columns == [] then 0 else if !divisionAttached then |columns| - 1
                   else if |columns| >= 2 then |columns| - 2 else 0
    ensures forall i :: 0 <= i < |r| ==> r[i] == columns[i + 1]
  {
    if divisionAttached then (if |columns| >= 2 then columns[1..|columns| - 1] else [])
    else if columns == [] then []
    else columns[1..]
  }

  lemma {:induction false} AttachedColumns(combined: Table)
    requires AfterCombine(combined).Success?
    requires DivisionColumn(combined.columns).Some? ==> DivisionLabel !in AfterCombine(combined).value.courses
    ensures var out := AfterCombine(combined).value;
      out.pivot.columns == [out.nameColumn] + out.courses
                           + (if DivisionColumn(combined.columns).Some? then [DivisionLabel] else [])
  {
    AfterCombineShape(combined);
  }

  /** The corrected list is exactly the course columns, with or without a division column. */
  lemma CourseColumnsAreCourses(combined: Table)
    requires AfterCombine(combined).Success?
    requires DivisionColumn(combined.columns).Some? ==> DivisionLabel !in AfterCombine(combined).value.courses
    ensures var out := AfterCombine(combined).value;
      CourseColumns(out.pivot.columns, DivisionColumn(combined.columns).Some?) == out.courses
  {
    AttachedColumns(combined);
    var out := AfterCombine(combined).value;
    var cols := out.pivot.columns;
    if DivisionColumn(combined.columns).Some? {
      assert cols[1..|cols| - 1] == out.courses;
    } else {
      assert cols[1..] == out.courses;
    }
  }

  /** As written, line 104 drops the last course whenever no division column was attached:
      the list returned is every course but the last. */
  lemma ReturnedCoursesDropsLast(combined: Table)
    requires AfterCombine(combined).Success? && DivisionColumn(combined.columns).None?
    ensures var out := AfterCombine(combined).value;
      && ReturnedCourses(out.pivot.columns) == (if out.courses == [] then [] else out.courses[..|out.courses| - 1])
      && (out.courses != [] ==> out.courses[|out.courses| - 1] !in ReturnedCourses(out.pivot.columns))
  {
    AttachedColumns(combined);
    AfterCombineShape(combined);
    var out := AfterCombine(combined).value;
    assert Distinct(out.courses);
    SliceDropsLast(out.nameColumn, out.courses);
  }

  lemma SliceDropsLast(nameCol: string, courses: seq<string>)
    requires Distinct(courses)
    ensures ReturnedCourses([nameCol] + courses) == (if courses == [] then [] else courses[..|courses| - 1])
    ensures courses != [] ==> courses[|courses| - 1] !in ReturnedCourses([nameCol] + courses)
  {
    var cols := [nameCol] + courses;
    if |courses| >= 2 {
      assert cols[1..|cols| - 1] == courses[..|courses| - 1];
    }
  }

  /** With a division column attached, the as-written list is the course columns. */
  lemma ReturnedCoursesWithDivision(combined: Table)
    requires AfterCombine(combined).Success? && DivisionColumn(combined.columns).Some?
    requires DivisionLabel !in AfterCombine(combined).value.courses
    ensures ReturnedCourses(AfterCombine(combined).value.pivot.columns) == AfterCombine(combined).value.courses
  {
    AttachedColumns(combined);
    var out := AfterCombine(combined).value;
    var cols := out.pivot.columns;
    assert cols[1..|cols| - 1] == out.courses;
  }

  /** The example's combined table: one RMS TP row, no division column. */
  function Example(): Table
  {
    Frame(["Name", CourseLabel], [["Asha", "Fire Safety"]])
  }

  lemma ExampleLabels()
    ensures NameColumn(Example().columns) == Some("Name")
    ensures DivisionColumn(Example().columns) == None
  {
    CandidatePlain("Name");
    CourseLabelPlain();
    assert Example().columns[0] == "Name" && Example().columns[1] == CourseLabel;
  }

  lemma CourseLabelPlain()
    ensures !IsDivisionColumn(CourseLabel)
  {
    PlainLabel(CourseLabel, "course name");
  }

  lemma ExampleCourses()
    ensures PivotCourses(Example(), "Name") == ["Fire Safety"]
  {
    var keys := Keys(Example(), "Name");
    assert keys == [("Asha", "Fire Safety")];
    assert Named(Example(), "Name") == keys;
  }

  /** One employee on one course, no division column: the run succeeds with that one course,
      yet line 104 returns no course at all. */
  lemma SingleCourseLost()
    ensures AfterCombine(Example()).Success?
    ensures AfterCombine(Example()).value.courses == ["Fire Safety"]
    ensures ReturnedCourses(AfterCombine(Example()).value.pivot.columns) == []
  {
    ExampleLabels();
    ExampleCourses();
    var base := BasePivot(Example(), "Name");
    assert "Name" !in ["Fire Safety"];
    assert AfterCombine(Example()) == Success(Output(base, "Name", ["Fire Safety"]));
    assert base.columns == ["Name"] + ["Fire Safety"];
  }
}
