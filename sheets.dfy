/** The first half of the workbook branch: every sheet is cleaned, cut down to its "RMS TP"
    rows, tagged with its sheet name under "Course Name", and appended to one combined table. */
module Sheets {
  import opened Wrappers
  import opened Seqs
  import opened Text
  import opened Frames
  import opened Columns

  datatype Sheet = Sheet(name: string, table: Table)

  const CourseLabel := "Course Name"

  /** "RMS TP" with `case=False`, as it reads once lower-cased. */
  const Marker := "rms tp"

  /** Header stripping, `dropna(axis=1, how="all")`, then dropping the "unnamed" columns. */
  function PrepareSheet(t: Table): (r: Table)
    ensures Rect(r) && |r.rows| == |t.rows|
  {
    var s := DropEmptyColumns(StripHeader(t));
    KeepColumns(s, NamedPosition(s))
  }

  function NamedPosition(s: Table): nat -> bool
  {
    (i: nat) => i < |s.columns| && !IsUnnamedColumn(s.columns[i])
  }

  /** A cleaned sheet keeps exactly the non-empty columns whose stripped label does not start
      with "unnamed". */
  lemma PrepareSheetLabels(t: Table, c: string)
    ensures c in PrepareSheet(t).columns <==>
              !IsUnnamedColumn(c) &&
              exists i :: 0 <= i < |t.columns| && HasValue(t, i) && Strip(t.columns[i]) == c
  {
    var s := DropEmptyColumns(StripHeader(t));
    KeepColumnsLabels(s, NamedPosition(s), c);
    StrippedLabels(t, c);
    if c in s.columns && !IsUnnamedColumn(c) {
      var j :| 0 <= j < |s.columns| && s.columns[j] == c;
      assert NamedPosition(s)(j);
    }
  }

  predicate MentionsRmsTp(cell: string)
  {
    Contains(Lower(cell), Marker)
  }

  /** The row filter of lines 73-78: the division cell mentions RMS TP when the sheet has a
      division column, otherwise any cell of the row does. Either way a surviving row has a
      present cell that mentions RMS TP. */
  predicate Survives(t: Table, row: seq<string>)
    ensures Survives(t, row) ==> exists i :: 0 <= i < |row| && row[i] != "" && MentionsRmsTp(row[i])
  {
    match DivisionColumn(t.columns)
    case Some(d) => MentionsRmsTp(Cell(t.columns, row, d))
    case None => exists i :: 0 <= i < |row| && MentionsRmsTp(row[i])
  }

  /** `df_tp`: the rows of a table that survive, in their order. */
  function RmsTpRows(t: Table): (r: Table)
    ensures r.columns == t.columns
  {
    Frame(t.columns, Filter(t.rows, row => Survives(t, row)))
  }

  /** The RMS TP rows are the surviving rows, each as often as it occurs, in their order. */
  lemma RmsTpRowsKeeps(t: Table, more: seq<seq<string>>)
    ensures forall row :: row in RmsTpRows(t).rows <==> row in t.rows && Survives(t, row)
    ensures forall row :: Count(RmsTpRows(t).rows, row) == if Survives(t, row) then Count(t.rows, row) else 0
    ensures Filter(t.rows + more, row => Survives(t, row)) == RmsTpRows(t).rows + Filter(more, row => Survives(t, row))
    ensures Rect(t) ==> Rect(RmsTpRows(t))
  {
    var rows := RmsTpRows(t).rows;
    assert forall k :: 0 <= k < |rows| ==> rows[k] in t.rows;
    FilterAppend(t.rows, more, row => Survives(t, row));
  }

  /** `df_tp["Course Name"] = sheet`. */
  function Tag(t: Table, sheetName: string): (r: Table)
    ensures |r.rows| == |t.rows|
  {
    WithColumn(t, CourseLabel, seq(|t.rows|, _ => sheetName))
  }

  /** The RMS TP rows of one sheet. */
  function Kept(sheet: Sheet): Table
  {
    RmsTpRows(PrepareSheet(sheet.table))
  }

  /** What one sheet contributes: its RMS TP rows tagged with the sheet name. */
  function Tagged(sheet: Sheet): Table
  {
    Tag(Kept(sheet), sheet.name)
  }

  function TaggedAll(sheets: seq<Sheet>): (r: seq<Table>)
    ensures |r| == |sheets|
  {
    seq(|sheets|, i requires 0 <= i < |sheets| => Tagged(sheets[i]))
  }

  predicate HasRmsTp(sheet: Sheet)
  {
    exists row :: row in PrepareSheet(sheet.table).rows && Survives(PrepareSheet(sheet.table), row)
  }

  /** The loop's accumulation over the contributions `ts`, in order: a contribution without rows
      is skipped, any other is concatenated under the union of labels. */
  function Combine(ts: seq<Table>): Table
  {
    if ts == [] then Frame([], [])
    else
      var acc, t := Combine(ts[..|ts| - 1]), ts[|ts| - 1];
      if t.rows == [] then acc else Concat(acc, t)
  }

  /** `combined` after the loop has seen `sheets`: rectangular, with one row for every row of
      every contribution, taken sheet by sheet. */
  function Combined(sheets: seq<Sheet>): (r: Table)
    ensures Rect(r) && |r.rows| == |Flatten(TaggedAll(sheets))|
  {
    CombineRows(TaggedAll(sheets), 0, "");
    Combine(TaggedAll(sheets))
  }

  /** One more sheet: its contribution is skipped when empty, concatenated otherwise. */
  lemma CombinedSnoc(sheets: seq<Sheet>, i: nat)
    requires i < |sheets|
    ensures Combined(sheets[..i + 1])
         == if Tagged(sheets[i]).rows == [] then Combined(sheets[..i])
            else Concat(Combined(sheets[..i]), Tagged(sheets[i]))
  {
    var ts := TaggedAll(sheets[..i + 1]);
    assert ts[..i] == TaggedAll(sheets[..i]) by {
      forall k | 0 <= k < i
        ensures ts[k] == TaggedAll(sheets[..i])[k]
      {
        assert sheets[..i + 1][k] == sheets[..i][k];
      }
    }
    assert ts[i] == Tagged(sheets[i]);
    assert Combined(sheets[..i + 1]) == Combine(ts);
  }

  /** The sheet loop of lines 65-84. */
  method CombineSheets(sheets: seq<Sheet>) returns (combined: Table)
    ensures combined == Combined(sheets)
  {
    combined := Frame([], []);
    for i := 0 to |sheets|
      invariant combined == Combined(sheets[..i])
    {
      CombinedSnoc(sheets, i);
      var dfSheet := PrepareSheet(sheets[i].table);
      var dfTp := RmsTpRows(dfSheet);
      if dfTp.rows == [] {
        continue;
      }
      dfTp := Tag(dfTp, sheets[i].name);
      combined := Concat(combined, dfTp);
    }
    assert sheets[..|sheets|] == sheets;
  }

  /** A row of a contribution, with the labels it stood under. */
  datatype Survivor = Survivor(columns: seq<string>, cells: seq<string>)

  function RowsOf(t: Table): (r: seq<Survivor>)
    ensures |r| == |t.rows|
  {
    seq(|t.rows|, k requires 0 <= k < |t.rows| => Survivor(t.columns, t.rows[k]))
  }

  /** The reference order: the rows of each contribution, contribution after contribution. */
  function Flatten(ts: seq<Table>): seq<Survivor>
  {
    if ts == [] then [] else Flatten(ts[..|ts| - 1]) + RowsOf(ts[|ts| - 1])
  }

  /** Row `k` of the accumulation reads, under every label, what the `k`-th row of the
      contributions read in its own table (missing where that table lacked the label). */
  lemma {:induction false} CombineRows(ts: seq<Table>, k: nat, c: string)
    ensures |Combine(ts).rows| == |Flatten(ts)| && Rect(Combine(ts))
    ensures k < |Flatten(ts)| && c in Flatten(ts)[k].columns ==> c in Combine(ts).columns
    ensures k < |Flatten(ts)| ==>
              (Cell(Combine(ts).columns, Combine(ts).rows[k], c)
                 == Cell(Flatten(ts)[k].columns, Flatten(ts)[k].cells, c))
  {
    if ts != [] {
      var init, t := ts[..|ts| - 1], ts[|ts| - 1];
      var acc := Combine(init);
      CombineRows(init, k, c);
      if t.rows != [] && k < |Flatten(ts)| {
        var n := |acc.rows|;
        if k < n {
          assert Flatten(ts)[k] == Flatten(init)[k];
        } else {
          assert Flatten(ts)[k] == RowsOf(t)[k - n];
        }
        if c in Concat(acc, t).columns {
          ConcatCell(acc, t, k, c);
        } else {
          assert c !in acc.columns && c !in t.columns;
        }
      } else if k < |Flatten(ts)| {
        assert Flatten(ts)[k] == Flatten(init)[k];
      }
    }
  }

  /** A label appears in the accumulation iff some contribution with rows carries it. */
  lemma {:induction false} CombineColumns(ts: seq<Table>, c: string)
    ensures c in Combine(ts).columns <==> exists i :: 0 <= i < |ts| && ts[i].rows != [] && c in ts[i].columns
  {
    if ts != [] {
      var init, t := ts[..|ts| - 1], ts[|ts| - 1];
      CombineColumns(init, c);
      assert forall i :: 0 <= i < |init| ==> init[i] == ts[i];
      if exists i :: 0 <= i < |ts| && ts[i].rows != [] && c in ts[i].columns {
        var i :| 0 <= i < |ts| && ts[i].rows != [] && c in ts[i].columns;
        if i < |init| {
          assert init[i] == ts[i];
        }
      }
    }
  }

  /** The first label of a union satisfying `p` is the first such label of `a`, or, when `a`
      has none, the first such label of `b`. */
  lemma UnionFirst(a: seq<string>, b: seq<string>, p: string -> bool)
    ensures FirstLabel(Union(a, b), p) == if FirstLabel(a, p).Some? then FirstLabel(a, p) else FirstLabel(b, p)
  {
    var r := Union(a, b);
    assert r[..|a|] == a;
    if FirstWhere(a, p).Some? {
      var i := FirstWhere(a, p).value;
      forall j | 0 <= j < i
        ensures !p(r[j])
      {
        assert r[j] == a[j];
      }
      assert r[i] == a[i];
      FirstWhereAt(r, i, p);
    } else if FirstWhere(b, p).None? {
      forall j | 0 <= j < |r|
        ensures !p(r[j])
      {
        if r[j] in a {
          var q :| 0 <= q < |a| && a[q] == r[j];
        } else {
          var q :| 0 <= q < |b| && b[q] == r[j];
        }
      }
    } else {
      UnionFresh(a, b);
      UnionOrder(a, b);
      var k := FirstWhere(b, p).value;
      var x := b[k];
      assert x !in a;
      assert forall j :: 0 <= j < |a| ==> r[j] == a[j];
      var m' :| 0 <= m' < |r| && r[m'] == x;
      var m := FirstWhere(r, p).value;
      assert |a| <= m <= m';
      var q := IndexOf(b, r[m]).value;
      var qx := IndexOf(b, r[m']).value;
      IndexOfAtMost(b, k);
      assert qx <= k <= q;
      assert m == m';
    }
  }

  /** Contribution `i` is the first one with rows that has a label satisfying `p`. */
  predicate FirstToCarry(ts: seq<Table>, p: string -> bool, i: nat)
  {
    && i < |ts| && ts[i].rows != [] && FirstLabel(ts[i].columns, p).Some?
    && forall j :: 0 <= j < i && ts[j].rows != [] ==> FirstLabel(ts[j].columns, p).None?
  }

  /** The accumulation has no label satisfying `p` iff no contribution with rows has one. */
  lemma {:induction false} CombineFirstNone(ts: seq<Table>, p: string -> bool)
    ensures FirstLabel(Combine(ts).columns, p).None? <==>
              forall i :: 0 <= i < |ts| && ts[i].rows != [] ==> FirstLabel(ts[i].columns, p).None?
  {
    if ts != [] {
      var init, t := ts[..|ts| - 1], ts[|ts| - 1];
      CombineFirstNone(init, p);
      assert forall i :: 0 <= i < |init| ==> init[i] == ts[i];
      if t.rows == [] {
        assert Combine(ts) == Combine(init);
      } else {
        var acc := Combine(init);
        assert Combine(ts).columns == Union(acc.columns, t.columns);
        UnionFirst(acc.columns, t.columns, p);
      }
    }
  }

  /** The first label of the accumulation satisfying `p` is the first such label of the first
      contribution with rows that has one. */
  lemma {:induction false} CombineFirst(ts: seq<Table>, p: string -> bool)
    ensures forall i: nat :: FirstToCarry(ts, p, i) ==> FirstLabel(Combine(ts).columns, p) == FirstLabel(ts[i].columns, p)
  {
    if ts != [] {
      var init := ts[..|ts| - 1];
      CombineFirst(init, p);
      if ts[|ts| - 1].rows == [] {
        CombineFirstSkip(ts, p);
      } else {
        CombineFirstNone(init, p);
        CombineFirstAppend(ts, p);
      }
    }
  }

  /** `CombineFirst` for a last contribution without rows, given it for the others. */
  lemma CombineFirstSkip(ts: seq<Table>, p: string -> bool)
    requires ts != [] && ts[|ts| - 1].rows == []
    requires var init := ts[..|ts| - 1];
      forall i: nat :: FirstToCarry(init, p, i) ==> FirstLabel(Combine(init).columns, p) == FirstLabel(init[i].columns, p)
    ensures forall i: nat :: FirstToCarry(ts, p, i) ==> FirstLabel(Combine(ts).columns, p) == FirstLabel(ts[i].columns, p)
  {
    var init := ts[..|ts| - 1];
    assert Combine(ts) == Combine(init);
    forall i: nat | FirstToCarry(ts, p, i)
      ensures FirstLabel(Combine(ts).columns, p) == FirstLabel(ts[i].columns, p)
    {
      assert init[i] == ts[i];
      assert forall j :: 0 <= j < i ==> init[j] == ts[j];
      assert FirstToCarry(init, p, i);
    }
  }

  /** `CombineFirst` for a last contribution with rows, given it and `CombineFirstNone` for
      the others. */
  lemma CombineFirstAppend(ts: seq<Table>, p: string -> bool)
    requires ts != [] && ts[|ts| - 1].rows != []
    requires var init := ts[..|ts| - 1];
      forall i: nat :: FirstToCarry(init, p, i) ==> FirstLabel(Combine(init).columns, p) == FirstLabel(init[i].columns, p)
    requires var init := ts[..|ts| - 1];
      FirstLabel(Combine(init).columns, p).None? <==>
        forall i :: 0 <= i < |init| && init[i].rows != [] ==> FirstLabel(init[i].columns, p).None?
    ensures forall i: nat :: FirstToCarry(ts, p, i) ==> FirstLabel(Combine(ts).columns, p) == FirstLabel(ts[i].columns, p)
  {
    var init, t := ts[..|ts| - 1], ts[|ts| - 1];
    var acc := Combine(init);
    assert Combine(ts).columns == Union(acc.columns, t.columns);
    UnionFirst(acc.columns, t.columns, p);
    forall i: nat | FirstToCarry(ts, p, i)
      ensures FirstLabel(Combine(ts).columns, p) == FirstLabel(ts[i].columns, p)
    {
      if i < |init| {
        assert init[i] == ts[i];
        assert forall j :: 0 <= j < i ==> init[j] == ts[j];
        assert FirstToCarry(init, p, i);
      } else {
        assert forall j :: 0 <= j < |init| ==> init[j] == ts[j];
        assert forall j :: 0 <= j < |init| && init[j].rows != [] ==> FirstLabel(init[j].columns, p).None?;
      }
    }
  }

  /** Tagging with "Course Name" does not change the first label satisfying a test that
      "Course Name" fails. */
  lemma TaggedFirst(sheet: Sheet, p: string -> bool)
    requires !p(CourseLabel)
    ensures FirstLabel(Tagged(sheet).columns, p) == FirstLabel(PrepareSheet(sheet.table).columns, p)
  {
    var cols := Kept(sheet).columns;
    if CourseLabel !in cols {
      assert Tagged(sheet).columns == cols + [CourseLabel];
      FirstLabelSnoc(cols, CourseLabel, p);
    }
  }

  /** Sheet `i` is the first sheet with RMS TP rows whose cleaned labels include one that
      satisfies `p`. */
  predicate FirstSheetWith(sheets: seq<Sheet>, p: string -> bool, i: nat)
  {
    && i < |sheets| && HasRmsTp(sheets[i]) && FirstLabel(PrepareSheet(sheets[i].table).columns, p).Some?
    && forall j :: 0 <= j < i && HasRmsTp(sheets[j]) ==> FirstLabel(PrepareSheet(sheets[j].table).columns, p).None?
  }

  /** Among the combined labels, the first one satisfying a test that "Course Name" fails is
      the first such label of the first sheet with RMS TP rows that has one. */
  lemma CombinedFirst(sheets: seq<Sheet>, p: string -> bool, i: nat)
    requires !p(CourseLabel)
    requires FirstSheetWith(sheets, p, i)
    ensures FirstLabel(Combined(sheets).columns, p) == FirstLabel(PrepareSheet(sheets[i].table).columns, p)
  {
    var ts := TaggedAll(sheets);
    forall j | 0 <= j < |sheets|
      ensures (ts[j].rows != [] <==> HasRmsTp(sheets[j]))
      ensures FirstLabel(ts[j].columns, p) == FirstLabel(PrepareSheet(sheets[j].table).columns, p)
    {
      TaggedEmpty(sheets[j]);
      TaggedFirst(sheets[j], p);
    }
    assert FirstToCarry(ts, p, i);
    CombineFirst(ts, p);
  }

  /** Every row of the reference order is some row of some contribution. */
  lemma {:induction false} FlattenOrigin(ts: seq<Table>, k: nat)
    requires k < |Flatten(ts)|
    ensures exists i, j :: 0 <= i < |ts| && 0 <= j < |ts[i].rows| && Flatten(ts)[k] == Survivor(ts[i].columns, ts[i].rows[j])
  {
    var init, t := ts[..|ts| - 1], ts[|ts| - 1];
    if k < |Flatten(init)| {
      FlattenOrigin(init, k);
      var i, j :| 0 <= i < |init| && 0 <= j < |init[i].rows| && Flatten(init)[k] == Survivor(init[i].columns, init[i].rows[j]);
      assert init[i] == ts[i];
      assert Flatten(ts)[k] == Flatten(init)[k];
    } else {
      var j := k - |Flatten(init)|;
      assert Flatten(ts)[k] == RowsOf(t)[j];
      assert ts[|ts| - 1] == t;
    }
  }

  /** The accumulation has no rows iff no contribution has any. */
  lemma {:induction false} FlattenEmpty(ts: seq<Table>)
    ensures Flatten(ts) == [] <==> forall i :: 0 <= i < |ts| ==> ts[i].rows == []
  {
    if ts != [] {
      var init, t := ts[..|ts| - 1], ts[|ts| - 1];
      FlattenEmpty(init);
      assert forall i :: 0 <= i < |init| ==> init[i] == ts[i];
      assert |Flatten(ts)| == |Flatten(init)| + |t.rows|;
    }
  }

  /** Some row survives the RMS TP filter iff the RMS TP rows are not empty. */
  lemma RmsTpRowsEmpty(p: Table)
    ensures RmsTpRows(p).rows == [] <==> !exists row :: row in p.rows && Survives(p, row)
  {
    RmsTpRowsKeeps(p, []);
    var rows := RmsTpRows(p).rows;
    if rows != [] {
      assert rows[0] in rows;
    }
  }

  /** A sheet contributes a row iff some row of the cleaned sheet survives the RMS TP filter. */
  lemma TaggedEmpty(sheet: Sheet)
    ensures Tagged(sheet).rows == [] <==> !HasRmsTp(sheet)
  {
    RmsTpRowsEmpty(PrepareSheet(sheet.table));
  }

  /** Each row a sheet contributes is a surviving row of its cleaned table, carrying the sheet
      name under "Course Name" and its own cell under every other label. */
  lemma TaggedRow(sheet: Sheet, j: nat, c: string)
    requires j < |Tagged(sheet).rows|
    ensures var t, p, row := Tagged(sheet), PrepareSheet(sheet.table), Kept(sheet).rows[j];
      && row in p.rows && Survives(p, row)
      && CourseLabel in t.columns
      && Cell(t.columns, t.rows[j], CourseLabel) == sheet.name
      && (c != CourseLabel ==> Cell(t.columns, t.rows[j], c) == Cell(p.columns, row, c))
  {
    var kept := Kept(sheet);
    RmsTpRowsKeeps(PrepareSheet(sheet.table), []);
    var cells := seq(|kept.rows|, _ => sheet.name);
    WithColumnLookup(kept, CourseLabel, cells, j, c);
    WithColumnLookup(kept, CourseLabel, cells, j, CourseLabel);
    assert kept.rows[j] in kept.rows;
  }

  /** The combined table is empty iff no sheet has a surviving row. */
  lemma CombinedEmpty(sheets: seq<Sheet>)
    ensures Combined(sheets).rows == [] <==> forall i :: 0 <= i < |sheets| ==> !HasRmsTp(sheets[i])
  {
    var ts := TaggedAll(sheets);
    CombineRows(ts, 0, "");
    FlattenEmpty(ts);
    forall i | 0 <= i < |sheets|
      ensures ts[i].rows == [] <==> !HasRmsTp(sheets[i])
    {
      TaggedEmpty(sheets[i]);
    }
  }

  /** Every combined row comes from one surviving RMS TP row of some sheet: under
      "Course Name" it reads that sheet's name, and under every other label what that same
      row read in its cleaned sheet. */
  lemma CombinedRowOrigin(sheets: seq<Sheet>, k: nat)
    requires k < |Combined(sheets).rows|
    ensures CourseLabel in Combined(sheets).columns
    ensures exists i, j ::
              && 0 <= i < |sheets| && 0 <= j < |Kept(sheets[i]).rows|
              && Survives(PrepareSheet(sheets[i].table), Kept(sheets[i]).rows[j])
              && Cell(Combined(sheets).columns, Combined(sheets).rows[k], CourseLabel) == sheets[i].name
              && forall c :: c != CourseLabel ==>
                   Cell(Combined(sheets).columns, Combined(sheets).rows[k], c)
                     == Cell(PrepareSheet(sheets[i].table).columns, Kept(sheets[i]).rows[j], c)
  {
    var ts := TaggedAll(sheets);
    CombineRows(ts, k, CourseLabel);
    FlattenOrigin(ts, k);
    var i, j :| 0 <= i < |ts| && 0 <= j < |ts[i].rows| && Flatten(ts)[k] == Survivor(ts[i].columns, ts[i].rows[j]);
    assert ts[i] == Tagged(sheets[i]);
    TaggedRow(sheets[i], j, CourseLabel);
    forall c | c != CourseLabel
      ensures Cell(Combined(sheets).columns, Combined(sheets).rows[k], c)
                == Cell(PrepareSheet(sheets[i].table).columns, Kept(sheets[i]).rows[j], c)
    {
      CombineRows(ts, k, c);
      TaggedRow(sheets[i], j, c);
    }
  }

  /** A label heads a combined column iff some sheet with RMS TP rows has it after cleaning, or
      it is "Course Name" and some sheet has RMS TP rows. */
  lemma CombinedColumns(sheets: seq<Sheet>, c: string)
    ensures c in Combined(sheets).columns <==>
              exists i :: 0 <= i < |sheets| && HasRmsTp(sheets[i]) &&
                          (c == CourseLabel || c in PrepareSheet(sheets[i].table).columns)
  {
    var ts := TaggedAll(sheets);
    CombineColumns(ts, c);
    forall i | 0 <= i < |sheets|
      ensures (ts[i].rows != [] && c in ts[i].columns) <==>
                HasRmsTp(sheets[i]) && (c == CourseLabel || c in PrepareSheet(sheets[i].table).columns)
    {
      TaggedLabels(sheets[i], c);
    }
  }

  /** A sheet with RMS TP rows contributes its cleaned labels and "Course Name". */
  lemma TaggedLabels(sheet: Sheet, c: string)
    ensures (Tagged(sheet).rows != [] && c in Tagged(sheet).columns) <==>
              HasRmsTp(sheet) && (c == CourseLabel || c in PrepareSheet(sheet.table).columns)
  {
    TaggedEmpty(sheet);
  }
}
