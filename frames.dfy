/** A data frame as the reshaper sees it: an ordered list of column labels and a list of rows,
    each row a list of cells. `Table` is a frame of string cells, the empty string standing for
    a missing (NaN) cell. The functions here are the pandas operations the reshaper uses:
    name lookup, header stripping, `dropna(axis=1, how="all")`, column selection,
    `df[name] = values` and `pd.concat`. */
module Frames {
  import opened Wrappers
  import opened Seqs
  import Text

  datatype Frame<V> = Frame(columns: seq<string>, rows: seq<seq<V>>)

  type Table = Frame<string>

  /** Every row has exactly one cell per column. */
  predicate Rect<V>(f: Frame<V>)
  {
    forall k :: 0 <= k < |f.rows| ==> |f.rows[k]| == |f.columns|
  }

  /** Position of the first column labelled `c`. */
  function IndexOf(cols: seq<string>, c: string): (r: Option<nat>)
    ensures r.None? <==> c !in cols
    ensures r.Some? ==> r.value < |cols| && cols[r.value] == c && c !in cols[..r.value]
  {
    if cols == [] then None
    else if cols[0] == c then Some(0)
    else
      match IndexOf(cols[1..], c)
      case None => None
      case Some(i) =>
        assert cols[..i + 1] == [cols[0]] + cols[1..][..i];
        Some(i + 1)
  }

  /** The first occurrence of `b[k]` is at `k` or before it. */
  lemma {:induction false} IndexOfAtMost(b: seq<string>, k: nat)
    requires k < |b|
    ensures IndexOf(b, b[k]).Some? && IndexOf(b, b[k]).value <= k
  {
    if b[0] != b[k] {
      assert b[1..][k - 1] == b[k];
      IndexOfAtMost(b[1..], k - 1);
    }
  }

  lemma IndexOfDistinct(cols: seq<string>, i: nat)
    requires Distinct(cols) && i < |cols|
    ensures IndexOf(cols, cols[i]) == Some(i)
  {
    var j := IndexOf(cols, cols[i]).value;
    assert cols[j] == cols[i];
  }

  /** Looking a label up in a concatenation of label lists. */
  lemma {:induction false} IndexOfAppend(a: seq<string>, b: seq<string>, c: string)
    ensures c in a ==> IndexOf(a + b, c) == IndexOf(a, c)
    ensures c !in a && c in b ==> IndexOf(a + b, c) == Some(|a| + IndexOf(b, c).value)
  {
    if a == [] {
      assert a + b == b;
    } else {
      assert (a + b)[0] == a[0] && (a + b)[1..] == a[1..] + b;
      IndexOfAppend(a[1..], b, c);
      if a[0] != c {
        assert c in a <==> c in a[1..];
      }
    }
  }

  /** The cell of `row` under name `c`, if the name exists. */
  function Lookup<V>(cols: seq<string>, row: seq<V>, c: string): Option<V>
  {
    match IndexOf(cols, c)
    case None => None
    case Some(i) => if i < |row| then Some(row[i]) else None
  }

  /** A string cell by name; a missing name reads as a missing cell. */
  function Cell(cols: seq<string>, row: seq<string>, c: string): string
  {
    Lookup(cols, row, c).GetOr("")
  }

  /** A string cell by position; past the end of the row it is missing. */
  function At(row: seq<string>, i: nat): string
  {
    if i < |row| then row[i] else ""
  }

  /** The positions below `n` that `keep` selects, in increasing order. */
  function Positions(n: nat, keep: nat -> bool): (r: seq<nat>)
    ensures forall k :: 0 <= k < |r| ==> r[k] < n
  {
    if n == 0 then [] else Positions(n - 1, keep) + (if keep(n - 1) then [n - 1] else [])
  }

  /** `Positions` lists exactly the selected positions, each once, in increasing order. */
  lemma {:induction false} PositionsFacts(n: nat, keep: nat -> bool)
    ensures forall k :: 0 <= k < |Positions(n, keep)| ==> keep(Positions(n, keep)[k])
    ensures forall i :: 0 <= i < n && keep(i) ==> i in Positions(n, keep)
    ensures forall k, l :: 0 <= k < l < |Positions(n, keep)| ==> Positions(n, keep)[k] < Positions(n, keep)[l]
  {
    if n > 0 {
      PositionsFacts(n - 1, keep);
    }
  }

  /** The columns whose positions `keep` selects, in their original order. */
  function KeepColumns(t: Table, keep: nat -> bool): (r: Table)
    ensures Rect(r) && |r.rows| == |t.rows|
  {
    var idx := Positions(|t.columns|, keep);
    Frame(seq(|idx|, k requires 0 <= k < |idx| => t.columns[idx[k]]),
          seq(|t.rows|, j requires 0 <= j < |t.rows| =>
                seq(|idx|, k requires 0 <= k < |idx| => At(t.rows[j], idx[k]))))
  }

  /** A label survives the selection iff some selected position carries it. */
  lemma KeepColumnsLabels(t: Table, keep: nat -> bool, c: string)
    ensures c in KeepColumns(t, keep).columns <==> exists i :: 0 <= i < |t.columns| && keep(i) && t.columns[i] == c
  {
    var idx := Positions(|t.columns|, keep);
    PositionsFacts(|t.columns|, keep);
    var r := KeepColumns(t, keep);
    if c in r.columns {
      var k :| 0 <= k < |idx| && r.columns[k] == c;
      assert keep(idx[k]) && t.columns[idx[k]] == c;
    }
    if exists i :: 0 <= i < |t.columns| && keep(i) && t.columns[i] == c {
      var i :| 0 <= i < |t.columns| && keep(i) && t.columns[i] == c;
      var k :| 0 <= k < |idx| && idx[k] == i;
      assert r.columns[k] == c;
    }
  }

  /** Selecting columns keeps every surviving name over the cells it had. */
  lemma KeepColumnsCell(t: Table, keep: nat -> bool, j: nat, c: string)
    requires Distinct(t.columns) && j < |t.rows|
    requires c in KeepColumns(t, keep).columns
    ensures Distinct(KeepColumns(t, keep).columns)
    ensures Cell(KeepColumns(t, keep).columns, KeepColumns(t, keep).rows[j], c) == Cell(t.columns, t.rows[j], c)
  {
    var idx := Positions(|t.columns|, keep);
    PositionsFacts(|t.columns|, keep);
    var r := KeepColumns(t, keep);
    assert |r.columns| == |idx|;
    forall a, b | 0 <= a < b < |r.columns| ensures r.columns[a] != r.columns[b] {
      assert idx[a] < idx[b];
      assert r.columns[a] == t.columns[idx[a]] && r.columns[b] == t.columns[idx[b]];
    }
    var k := IndexOf(r.columns, c).value;
    assert r.columns[k] == t.columns[idx[k]] == c;
    IndexOfDistinct(t.columns, idx[k]);
  }

  /** `df.columns = df.columns.astype(str).str.strip()`. */
  function StripHeader(t: Table): (r: Table)
    ensures |r.columns| == |t.columns| && r.rows == t.rows
  {
    Frame(seq(|t.columns|, i requires 0 <= i < |t.columns| => Text.Strip(t.columns[i])), t.rows)
  }

  /** Column `i` holds at least one present cell. */
  predicate HasValue(t: Table, i: nat)
  {
    exists row :: row in t.rows && At(row, i) != ""
  }

  /** `dropna(axis=1, how="all")`: a column survives iff some cell in it is present, so a
      table without rows loses every column. */
  function DropEmptyColumns(t: Table): (r: Table)
    ensures Rect(r) && |r.rows| == |t.rows|
  {
    KeepColumns(t, (i: nat) => HasValue(t, i))
  }

  /** After stripping the header and dropping empty columns, a label is present iff some
      column with a present cell carries it once stripped. */
  lemma StrippedLabels(t: Table, c: string)
    ensures c in DropEmptyColumns(StripHeader(t)).columns <==>
              exists i :: 0 <= i < |t.columns| && HasValue(t, i) && Text.Strip(t.columns[i]) == c
  {
    var s := StripHeader(t);
    var keep := (i: nat) => HasValue(s, i);
    assert DropEmptyColumns(s) == KeepColumns(s, keep);
    KeepColumnsLabels(s, keep, c);
    if c in DropEmptyColumns(s).columns {
      var i :| 0 <= i < |s.columns| && keep(i) && s.columns[i] == c;
      StrippedColumn(t, i);
    }
    if exists i :: 0 <= i < |t.columns| && HasValue(t, i) && Text.Strip(t.columns[i]) == c {
      var i :| 0 <= i < |t.columns| && HasValue(t, i) && Text.Strip(t.columns[i]) == c;
      StrippedColumn(t, i);
    }
  }

  /** Column `i` after stripping: the stripped label over the same cells. */
  lemma StrippedColumn(t: Table, i: nat)
    requires i < |t.columns|
    ensures StripHeader(t).columns[i] == Text.Strip(t.columns[i])
    ensures HasValue(StripHeader(t), i) == HasValue(t, i)
  {
  }

  /** `df[name] = cells`: an existing column is overwritten where it stands, a new one is appended. */
  function WithColumn<V>(f: Frame<V>, name: string, cells: seq<V>): (r: Frame<V>)
    requires |cells| == |f.rows|
    ensures |r.rows| == |f.rows|
    ensures r.columns == if name in f.columns then f.columns else f.columns + [name]
  {
    match IndexOf(f.columns, name)
    case Some(i) =>
      Frame(f.columns, seq(|f.rows|, k requires 0 <= k < |f.rows| =>
                                   if i < |f.rows[k]| then f.rows[k][i := cells[k]] else f.rows[k]))
    case None =>
      Frame(f.columns + [name], AppendCells(f.rows, cells))
  }

  /** Every row extended by its own new cell. */
  function AppendCells<V>(rows: seq<seq<V>>, cells: seq<V>): (r: seq<seq<V>>)
    requires |cells| == |rows|
    ensures |r| == |rows|
  {
    seq(|rows|, k requires 0 <= k < |rows| => rows[k] + [cells[k]])
  }

  /** Reading back after `WithColumn`: the name reads the new cell, every other name is unchanged. */
  lemma WithColumnLookup<V>(f: Frame<V>, name: string, cells: seq<V>, k: nat, c: string)
    requires Rect(f) && |cells| == |f.rows| && k < |f.rows|
    ensures Rect(WithColumn(f, name, cells)) && |WithColumn(f, name, cells).rows| == |f.rows|
    ensures WithColumn(f, name, cells).columns == if name in f.columns then f.columns else f.columns + [name]
    ensures Lookup(WithColumn(f, name, cells).columns, WithColumn(f, name, cells).rows[k], c)
         == if c == name then Some(cells[k]) else Lookup(f.columns, f.rows[k], c)
  {
    if name !in f.columns {
      IndexOfAppend(f.columns, [name], c);
    }
  }

  /** `Index.union(other, sort=False)`: the labels of `a`, then those of `b` not seen yet. */
  function Union(a: seq<string>, b: seq<string>): (r: seq<string>)
    ensures |a| <= |r| && r[..|a|] == a
    ensures forall c :: c in r <==> c in a || c in b
    decreases |b|
  {
    if b == [] then a
    else if b[0] in a then Union(a, b[1..])
    else
      var r := Union(a + [b[0]], b[1..]);
      assert r[..|a|] == r[..|a| + 1][..|a|];
      r
  }

  /** `Union` puts after `a` only labels that `a` lacks, each from `b`. */
  lemma {:induction false} UnionFresh(a: seq<string>, b: seq<string>)
    ensures forall i :: |a| <= i < |Union(a, b)| ==> Union(a, b)[i] !in a && IndexOf(b, Union(a, b)[i]).Some?
    decreases |b|
  {
    if b != [] {
      var r := Union(a, b);
      if b[0] in a {
        assert r == Union(a, b[1..]);
        UnionFresh(a, b[1..]);
        forall i | |a| <= i < |r|
          ensures r[i] !in a && IndexOf(b, r[i]).Some?
        {
          assert r[i] != b[0];
        }
      } else {
        var a' := a + [b[0]];
        assert r == Union(a', b[1..]);
        UnionFresh(a', b[1..]);
        assert r[..|a'|] == a';
        forall i | |a| <= i < |r|
          ensures r[i] !in a && IndexOf(b, r[i]).Some?
        {
          if i == |a| {
            assert r[i] == b[0];
          } else {
            assert r[i] !in a';
          }
        }
      }
    }
  }

  /** `Union` lists each label once when `a` does. */
  lemma {:induction false} UnionDistinct(a: seq<string>, b: seq<string>)
    requires Distinct(a)
    ensures Distinct(Union(a, b))
    decreases |b|
  {
    if b != [] {
      if b[0] in a {
        UnionDistinct(a, b[1..]);
      } else {
        var a' := a + [b[0]];
        assert Distinct(a');
        UnionDistinct(a', b[1..]);
      }
    }
  }

  /** The labels of `r` from `lo` on all occur in `b`, in the order of their first occurrence there. */
  predicate InOrderOf(b: seq<string>, r: seq<string>, lo: nat)
  {
    forall i, j :: lo <= i < j < |r| ==>
      && IndexOf(b, r[i]).Some? && IndexOf(b, r[j]).Some? && IndexOf(b, r[i]).value < IndexOf(b, r[j]).value
  }

  /** The labels `Union` puts after `a` follow the order of their first occurrence in `b`. */
  lemma {:induction false} UnionOrder(a: seq<string>, b: seq<string>)
    ensures InOrderOf(b, Union(a, b), |a|)
    decreases |b|
  {
    if b == [] {
      assert Union(a, b) == a;
    } else if b[0] in a {
      UnionOrder(a, b[1..]);
      UnionOrderSkip(a, b);
    } else {
      UnionOrder(a + [b[0]], b[1..]);
      UnionOrderTake(a, b);
    }
  }

  /** `UnionOrder` when `b[0]` is already in `a`. */
  lemma {:induction false} UnionOrderSkip(a: seq<string>, b: seq<string>)
    requires b != [] && b[0] in a
    requires InOrderOf(b[1..], Union(a, b[1..]), |a|)
    ensures InOrderOf(b, Union(a, b), |a|)
  {
    var r := Union(a, b);
    assert r == Union(a, b[1..]);
    UnionFresh(a, b[1..]);
    forall i | |a| <= i < |r|
      ensures r[i] != b[0]
    {
    }
    IndexOfTail(b, r, |a|);
    forall i, j | |a| <= i < j < |r|
      ensures IndexOf(b, r[i]).Some? && IndexOf(b, r[j]).Some? && IndexOf(b, r[i]).value < IndexOf(b, r[j]).value
    {
      assert IndexOf(b[1..], r[i]).value < IndexOf(b[1..], r[j]).value;
    }
  }

  /** `UnionOrder` when `b[0]` is new, so `Union` appends it first. */
  lemma {:induction false} UnionOrderTake(a: seq<string>, b: seq<string>)
    requires b != [] && b[0] !in a
    requires InOrderOf(b[1..], Union(a + [b[0]], b[1..]), |a| + 1)
    ensures InOrderOf(b, Union(a, b), |a|)
  {
    var r := Union(a, b);
    var a' := a + [b[0]];
    assert r == Union(a', b[1..]);
    UnionFresh(a', b[1..]);
    assert r[..|a'|] == a';
    assert r[|a|] == b[0];
    forall i | |a'| <= i < |r|
      ensures r[i] != b[0]
    {
      assert r[i] !in a';
    }
    IndexOfTail(b, r, |a'|);
    assert IndexOf(b, b[0]) == Some(0);
    forall i, j | |a| <= i < j < |r|
      ensures IndexOf(b, r[i]).Some? && IndexOf(b, r[j]).Some? && IndexOf(b, r[i]).value < IndexOf(b, r[j]).value
    {
      if i > |a| {
        assert IndexOf(b[1..], r[i]).value < IndexOf(b[1..], r[j]).value;
      }
    }
  }

  /** Labels other than `b[0]` sit one place further in `b` than in `b[1..]`. */
  lemma IndexOfTail(b: seq<string>, r: seq<string>, lo: nat)
    requires b != []
    requires forall i :: lo <= i < |r| ==> r[i] != b[0] && IndexOf(b[1..], r[i]).Some?
    ensures forall i :: lo <= i < |r| ==> IndexOf(b, r[i]) == Some(IndexOf(b[1..], r[i]).value + 1)
  {
  }

  /** A row of `from` laid out under the labels `to`; labels `from` lacks read as missing. */
  function Realign(from: seq<string>, row: seq<string>, to: seq<string>): (r: seq<string>)
    ensures |r| == |to|
  {
    seq(|to|, j requires 0 <= j < |to| => Cell(from, row, to[j]))
  }

  /** `pd.concat([a, b], ignore_index=True)`: the rows of `a` then those of `b`, under the union of labels. */
  function Concat(a: Table, b: Table): (r: Table)
    ensures Rect(r) && |r.rows| == |a.rows| + |b.rows|
    ensures r.columns == Union(a.columns, b.columns)
  {
    var cols := Union(a.columns, b.columns);
    Frame(cols, seq(|a.rows|, k requires 0 <= k < |a.rows| => Realign(a.columns, a.rows[k], cols))
              + seq(|b.rows|, k requires 0 <= k < |b.rows| => Realign(b.columns, b.rows[k], cols)))
  }

  /** Each row of the concatenation reads, under every name, what its source row read. */
  lemma ConcatCell(a: Table, b: Table, k: nat, c: string)
    requires k < |a.rows| + |b.rows|
    requires c in Concat(a, b).columns
    ensures Cell(Concat(a, b).columns, Concat(a, b).rows[k], c)
         == if k < |a.rows| then Cell(a.columns, a.rows[k], c) else Cell(b.columns, b.rows[k - |a.rows|], c)
  {
    var r := Concat(a, b);
    var j := IndexOf(r.columns, c).value;
    assert r.columns[j] == c;
    if k < |a.rows| {
      assert r.rows[k] == Realign(a.columns, a.rows[k], r.columns);
    } else {
      assert r.rows[k] == Realign(b.columns, b.rows[k - |a.rows|], r.columns);
    }
  }
}
