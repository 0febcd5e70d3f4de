/** What the reshaper produces: a pivot whose cells are names, division values or counts,
    together with the name column and the course list, or the error that stopped the run.
    Also the division lookup both paths share. */
module Pivots {
  import opened Wrappers
  import opened Seqs
  import opened Frames

  /** A pivot cell: a text value (a name or a division) or a number (a 1/0 flag or a count). */
  datatype Value = Str(s: string) | Num(n: int)

  type Pivot = Frame<Value>

  /** Label of the column the division value is attached under. */
  const DivisionLabel := "Division/ Unit"

  datatype Output = Output(pivot: Pivot, nameColumn: string, courses: seq<string>)

  datatype Error =
    | NoColumns          // CSV without any non-empty column: `df.columns[0]` raises
    | NameIsDivision     // CSV whose fallback name column is also its division column: `set_index` on `df[[c, c]]` raises
    | NoRmsTpRows        // "No RMS TP rows were found in any sheet."
    | NameColumnMissing  // "Employee name column missing after consolidation."
    | NameClash          // a course (sheet) is labelled like the name column: `reset_index` raises
    | AmbiguousDivision  // a name pairs with two division values: `Series.map` on a non-unique index raises

  /** No name is paired with two different division values. */
  predicate Consistent(pairs: seq<(string, string)>)
  {
    forall i, j :: 0 <= i < |pairs| && 0 <= j < |pairs| && pairs[i].0 == pairs[j].0 ==> pairs[i].1 == pairs[j].1
  }

  /** `df[[name, division]].drop_duplicates().set_index(name)[division]`, usable as a lookup
      only when every name has a single division value. */
  function DivisionMap(pairs: seq<(string, string)>): (r: Option<map<string, string>>)
    ensures r.Some? <==> Consistent(pairs)
    ensures r.Some? ==> forall n :: n in r.value ==> exists i :: 0 <= i < |pairs| && pairs[i].0 == n
    ensures r.Some? ==> forall i :: 0 <= i < |pairs| ==> pairs[i].0 in r.value && r.value[pairs[i].0] == pairs[i].1
  {
    if pairs == [] then Some(map[])
    else
      var init, last := pairs[..|pairs| - 1], pairs[|pairs| - 1];
      assert pairs == init + [last];
      match DivisionMap(init)
      case None => None
      case Some(m) =>
        if last.0 in m && m[last.0] != last.1 then
          var i :| 0 <= i < |init| && init[i].0 == last.0;
          assert pairs[i] == init[i];
          None
        else
          assert forall i :: 0 <= i < |init| ==> pairs[i] == init[i];
          assert pairs[|pairs| - 1].0 == last.0;
          Some(m[last.0 := last.1])
  }

  /** The name cell of every row. */
  function RowNames(df: Table, nameCol: string): seq<string>
  {
    seq(|df.rows|, k requires 0 <= k < |df.rows| => Cell(df.columns, df.rows[k], nameCol))
  }

  /** `df[[name_col, division_col]]`, row by row. */
  function NameDivisionPairs(df: Table, nameCol: string, d: string): (r: seq<(string, string)>)
    ensures |r| == |df.rows|
  {
    seq(|df.rows|, k requires 0 <= k < |df.rows| => (Cell(df.columns, df.rows[k], nameCol), Cell(df.columns, df.rows[k], d)))
  }

  /** `Series.map(lookup)` over the row names: a name the lookup lacks reads as missing. */
  function LookupCells(names: seq<string>, lookup: map<string, string>): (r: seq<Value>)
    ensures |r| == |names|
  {
    seq(|names|, k requires 0 <= k < |names| => Str(if names[k] in lookup then lookup[names[k]] else ""))
  }

  /** `pivot["Division/ Unit"] = pivot[name_col].map(lookup)`, where `names` are the row names:
      every row stays, and "Division/ Unit" is appended unless the pivot already has it. */
  function AttachDivision(p: Pivot, names: seq<string>, lookup: map<string, string>): (r: Pivot)
    requires |names| == |p.rows|
    ensures |r.rows| == |p.rows|
    ensures r.columns == if DivisionLabel in p.columns then p.columns else p.columns + [DivisionLabel]
  {
    WithColumn(p, DivisionLabel, LookupCells(names, lookup))
  }

  /** Sum of the numeric cells of a row. */
  function RowTotal(row: seq<Value>): int
  {
    if row == [] then 0
    else RowTotal(row[..|row| - 1]) + (match row[|row| - 1] case Num(n) => n case Str(_) => 0)
  }

  /** Sum of the numeric cells of a pivot. */
  function Total(rows: seq<seq<Value>>): int
  {
    if rows == [] then 0 else Total(rows[..|rows| - 1]) + RowTotal(rows[|rows| - 1])
  }
}
