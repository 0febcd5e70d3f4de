/** Heuristic column detection: the name column, the division column, the metadata columns
    the CSV path excludes, and the "unnamed" placeholder columns the workbook path drops. */
module Columns {
  import opened Wrappers
  import opened Seqs
  import opened Text

  /** The labels accepted as the employee-name column, in no particular priority. */
  const NameCandidates: seq<string> := ["Employee Name", "Name of the Official", "Name", "Employee"]

  predicate IsNameColumn(c: string)
  {
    c in NameCandidates
  }

  predicate IsDivisionColumn(c: string)
  {
    var low := Lower(c);
    Contains(low, "division") || Contains(low, "unit")
  }

  predicate IsMetadataColumn(c: string)
  {
    var low := Lower(c);
    Contains(low, "s.no") || Contains(low, "employee no") || Contains(low, "emp no")
  }

  predicate IsUnnamedColumn(c: string)
  {
    StartsWith(Lower(c), "unnamed")
  }

  /** Position `i` holds the first label of `cols` satisfying `p`. */
  predicate FirstAt(cols: seq<string>, i: nat, p: string -> bool)
  {
    i < |cols| && p(cols[i]) && forall j :: 0 <= j < i ==> !p(cols[j])
  }

  /** `next((c for c in cols if p(c)), None)`, as a position. */
  function FirstWhere(cols: seq<string>, p: string -> bool): (r: Option<nat>)
    ensures r.None? <==> forall j :: 0 <= j < |cols| ==> !p(cols[j])
    ensures r.Some? ==> FirstAt(cols, r.value, p)
  {
    if cols == [] then None
    else if p(cols[0]) then Some(0)
    else
      match FirstWhere(cols[1..], p)
      case None => None
      case Some(i) => Some(i + 1)
  }

  /** The first label of `cols` satisfying `p`. */
  function FirstLabel(cols: seq<string>, p: string -> bool): (r: Option<string>)
    ensures r.None? <==> forall j :: 0 <= j < |cols| ==> !p(cols[j])
    ensures r.Some? ==> exists i: nat :: FirstAt(cols, i, p) && cols[i] == r.value
    ensures r.Some? ==> p(r.value) && r.value in cols
  {
    match FirstWhere(cols, p)
    case None => None
    case Some(i) => Some(cols[i])
  }

  /** The first satisfying position is the only one with nothing satisfying before it. */
  lemma FirstWhereAt(cols: seq<string>, i: nat, p: string -> bool)
    requires FirstAt(cols, i, p)
    ensures FirstWhere(cols, p) == Some(i)
  {
    assert p(cols[i]);
  }

  /** A label appended at the end that fails the test does not change the first match. */
  lemma {:induction false} FirstLabelSnoc(cols: seq<string>, x: string, p: string -> bool)
    requires !p(x)
    ensures FirstLabel(cols + [x], p) == FirstLabel(cols, p)
  {
    FirstWhereSnoc(cols, x, p);
    if FirstWhere(cols, p).Some? {
      assert (cols + [x])[FirstWhere(cols, p).value] == cols[FirstWhere(cols, p).value];
    }
  }

  lemma {:induction false} FirstWhereSnoc(cols: seq<string>, x: string, p: string -> bool)
    requires !p(x)
    ensures FirstWhere(cols + [x], p) == FirstWhere(cols, p)
  {
    if cols == [] {
      assert [] + [x] == [x];
      assert [x][1..] == [];
    } else {
      assert (cols + [x])[0] == cols[0];
      assert (cols + [x])[1..] == cols[1..] + [x];
      FirstWhereSnoc(cols[1..], x, p);
    }
  }

  /** The first column whose label is exactly one of the name candidates. */
  function NameColumn(cols: seq<string>): (r: Option<string>)
    ensures r.None? <==> forall j :: 0 <= j < |cols| ==> !IsNameColumn(cols[j])
    ensures r.Some? ==> exists i: nat :: FirstAt(cols, i, IsNameColumn) && cols[i] == r.value
    ensures r.Some? ==> IsNameColumn(r.value) && r.value in cols
  {
    FirstLabel(cols, IsNameColumn)
  }

  /** The first column whose lower-cased label contains "division" or "unit". */
  function DivisionColumn(cols: seq<string>): (r: Option<string>)
    ensures r.None? <==> forall j :: 0 <= j < |cols| ==> !IsDivisionColumn(cols[j])
    ensures r.Some? ==> exists i: nat :: FirstAt(cols, i, IsDivisionColumn) && cols[i] == r.value
    ensures r.Some? ==> IsDivisionColumn(r.value) && r.value in cols
  {
    FirstLabel(cols, IsDivisionColumn)
  }

  /** A label whose lower-cased form has neither "di" nor "un" in it is no division label. */
  lemma PlainLabel(c: string, low: string)
    requires Lower(c) == low
    requires forall i :: 0 <= i < |low| - 1 ==> !(low[i] == 'd' && low[i + 1] == 'i') && !(low[i] == 'u' && low[i + 1] == 'n')
    ensures !IsDivisionColumn(c)
  {
    NoPairNoMatch(low, "division");
    NoPairNoMatch(low, "unit");
  }

  /** No name candidate reads as a division column. */
  lemma CandidatePlain(c: string)
    requires IsNameColumn(c)
    ensures !IsDivisionColumn(c)
  {
    if c == "Employee Name" {
      PlainLabel(c, "employee name");
    } else if c == "Name of the Official" {
      PlainLabel(c, "name of the official");
    } else if c == "Name" {
      PlainLabel(c, "name");
    } else {
      PlainLabel(c, "employee");
    }
  }

  /** The CSV path's name column is also its division column exactly when no label is a
      name candidate and the first label, taken as the name, reads as a division column. */
  lemma NameIsDivisionMeaning(cols: seq<string>)
    ensures (cols != [] && DivisionColumn(cols) == CsvNameColumn(cols)) <==>
              cols != [] && NameColumn(cols).None? && IsDivisionColumn(cols[0])
  {
    if NameColumn(cols).Some? {
      CandidatePlain(NameColumn(cols).value);
    } else if cols != [] && IsDivisionColumn(cols[0]) {
      assert FirstWhere(cols, IsDivisionColumn) == Some(0);
    }
  }

  /** The CSV path's name column: the exact match, else the first column; none for a table
      without columns (where the source's `df.columns[0]` raises). */
  function CsvNameColumn(cols: seq<string>): (r: Option<string>)
    ensures r.None? <==> cols == []
    ensures NameColumn(cols).Some? ==> r == NameColumn(cols)
    ensures NameColumn(cols).None? && cols != [] ==> r == Some(cols[0])
  {
    match NameColumn(cols)
    case Some(c) => Some(c)
    case None => if cols == [] then None else Some(cols[0])
  }

  /** The set the CSV path refuses as course columns. */
  function ExcludedSpec(cols: seq<string>, nameCol: string, division: Option<string>): set<string>
  {
    {nameCol} + (if division.Some? then {division.value} else {}) + set c | c in cols && IsMetadataColumn(c)
  }

  /** The loop building `exclude`: the name column, the division column, and every
      metadata column. */
  method ExcludedColumns(cols: seq<string>, nameCol: string, division: Option<string>)
    returns (exclude: set<string>)
    ensures exclude == ExcludedSpec(cols, nameCol, division)
  {
    exclude := {nameCol};
    if division.Some? {
      exclude := exclude + {division.value};
    }
    ghost var fixed := exclude;
    for i := 0 to |cols|
      invariant exclude == fixed + set c | c in cols[..i] && IsMetadataColumn(c)
    {
      var low := Lower(cols[i]);
      if Contains(low, "s.no") || Contains(low, "employee no") || Contains(low, "emp no") {
        exclude := exclude + {cols[i]};
      }
      assert cols[..i + 1] == cols[..i] + [cols[i]];
    }
    assert cols[..|cols|] == cols;
  }

  /** `[c for c in cols if c not in exclude]`. */
  function Without(cols: seq<string>, exclude: set<string>): seq<string>
  {
    Filter(cols, c => c !in exclude)
  }

  /** The course columns are the labels outside `exclude`, each as often as it occurs, in
      their original order. */
  lemma WithoutKeeps(cols: seq<string>, exclude: set<string>, more: seq<string>)
    ensures forall c :: c in Without(cols, exclude) <==> c in cols && c !in exclude
    ensures forall c :: c !in exclude ==> Count(Without(cols, exclude), c) == Count(cols, c)
    ensures Without(cols + more, exclude) == Without(cols, exclude) + Without(more, exclude)
  {
    FilterAppend(cols, more, c => c !in exclude);
  }

  /** A label is a CSV course column iff it is a label of the table other than the name
      column, the division column and the metadata columns. */
  lemma CourseMember(cols: seq<string>, nameCol: string, division: Option<string>, c: string)
    ensures c in Without(cols, ExcludedSpec(cols, nameCol, division)) <==>
              c in cols && c != nameCol && Some(c) != division && !IsMetadataColumn(c)
  {
    var exclude := ExcludedSpec(cols, nameCol, division);
    WithoutKeeps(cols, exclude, []);
    assert c in exclude <==> c == nameCol || Some(c) == division || (c in cols && IsMetadataColumn(c));
  }
}
