/**
 * pandas DataFrames as the core functions use them: an index and a sequence of named columns
 * whose cells are integers or missing (None stands for NaN and NaT). Dates are day numbers.
 */
module Frames {
  import opened Wrappers
  import opened Sequences

  type Name = string

  datatype Column = Column(name: Name, cells: seq<Option<int>>)

  datatype Frame = Frame(index: seq<int>, columns: seq<Column>)

  /** Every column has one cell per index entry. */
  predicate Rectangular(f: Frame)
  {
    forall c :: c in f.columns ==> |c.cells| == |f.index|
  }

  /** `df.columns`: the column names in order, repeats included. */
  function Names(f: Frame): (r: seq<Name>)
    ensures |r| == |f.columns| && forall k :: 0 <= k < |r| ==> r[k] == f.columns[k].name
  {
    seq(|f.columns|, k requires 0 <= k < |f.columns| => f.columns[k].name)
  }

  /** The position of the first column called `name`. */
  function ColumnIndex(names: seq<Name>, name: Name): (k: nat)
    requires name in names
    ensures k < |names| && names[k] == name && name !in names[..k]
  {
    if names[0] == name then 0
    else
      var k := ColumnIndex(names[1..], name);
      assert names[..k + 1] == [names[0]] + names[1..][..k];
      k + 1
  }

  /** The cells of the first column called `name`: `df[name]` once column names are unique. */
  function Cells(f: Frame, name: Name): seq<Option<int>>
    requires name in Names(f)
  {
    f.columns[ColumnIndex(Names(f), name)].cells
  }

  lemma ColumnIndexUnique(names: seq<Name>, name: Name, j: nat)
    requires j < |names| && names[j] == name && name !in names[..j]
    ensures ColumnIndex(names, name) == j
  {
    var k := ColumnIndex(names, name);
    assert forall i :: 0 <= i < j ==> names[..j][i] == names[i];
    assert forall i :: 0 <= i < k ==> names[..k][i] == names[i];
  }

  lemma CellsLength(f: Frame, name: Name)
    requires Rectangular(f) && name in Names(f)
    ensures |Cells(f, name)| == |f.index|
  {
    assert f.columns[ColumnIndex(Names(f), name)] in f.columns;
  }

  // ---------------------------------------------- row selection

  /** The column with its cells at the true positions of m. */
  function SelectCells(c: Column, m: seq<bool>): Column
    requires |m| == |c.cells|
  {
    Column(c.name, Select(c.cells, m))
  }

  lemma SelectedLengths(f: Frame, m: seq<bool>)
    requires Rectangular(f) && |m| == |f.index|
    ensures forall c :: c in f.columns ==> |Select(c.cells, m)| == |Select(f.index, m)|
  {
    SelectAt(f.index, m);
    forall c | c in f.columns ensures |Select(c.cells, m)| == |Select(f.index, m)| {
      SelectAt(c.cells, m);
    }
  }

  /** Boolean row indexing `df[m]`: the index and every column keep the entries at the true positions. */
  function SelectRows(f: Frame, m: seq<bool>): (r: Frame)
    requires Rectangular(f) && |m| == |f.index|
    ensures Rectangular(r) && r.index == Select(f.index, m) && Names(r) == Names(f)
    ensures |r.columns| == |f.columns|
    ensures forall k :: 0 <= k < |r.columns| ==> r.columns[k] == SelectCells(f.columns[k], m)
  {
    SelectedLengths(f, m);
    Frame(Select(f.index, m), seq(|f.columns|, k requires 0 <= k < |f.columns| => SelectCells(f.columns[k], m)))
  }

  /** After row selection, a column's cells are its selected cells. */
  lemma SelectRowsCells(f: Frame, m: seq<bool>, name: Name)
    requires Rectangular(f) && |m| == |f.index| && name in Names(f)
    ensures name in Names(SelectRows(f, m))
    ensures Cells(SelectRows(f, m), name) == Select(Cells(f, name), m)
  {
    CellsLength(f, name);
  }

  /** Row k of `df[m]` is row Positions(m)[k] of df, in the index and in every column. */
  lemma SelectRowsAt(f: Frame, m: seq<bool>, name: Name)
    requires Rectangular(f) && |m| == |f.index| && name in Names(f)
    ensures name in Names(SelectRows(f, m))
    ensures var r, p := SelectRows(f, m), Positions(m);
      && |r.index| == |p| && |Cells(r, name)| == |p|
      && forall k :: 0 <= k < |p| ==> r.index[k] == f.index[p[k]] && Cells(r, name)[k] == Cells(f, name)[p[k]]
  {
    SelectRowsCells(f, m, name);
    CellsLength(f, name);
    SelectAt(f.index, m);
    SelectAt(Cells(f, name), m);
  }

  // ---------------------------------------------- duplicates

  /** `df.index.duplicated().any()`. */
  predicate HasDuplicateIndex(f: Frame)
  {
    exists k :: 0 <= k < |f.index| && !FirstMask(f.index)[k]
  }

  /** `df = df[~df.index.duplicated(keep='first')]`, run only when some index label repeats. */
  function DropDuplicateRows(f: Frame): (r: Frame)
    requires Rectangular(f)
    ensures Rectangular(r) && Names(r) == Names(f)
  {
    if HasDuplicateIndex(f) then SelectRows(f, FirstMask(f.index)) else f
  }

  /** `df.loc[:, ~df.columns.duplicated()]`: the first column of each name survives. */
  function DropDuplicateColumns(f: Frame): (r: Frame)
    requires Rectangular(f)
    ensures Rectangular(r) && r.index == f.index
  {
    var kept := Select(f.columns, FirstMask(Names(f)));
    forall c | c in kept ensures c in f.columns {
      SelectElements(f.columns, FirstMask(Names(f)), c);
    }
    Frame(f.index, kept)
  }

  function Range(n: nat): (r: seq<int>)
    ensures |r| == n && forall k :: 0 <= k < n ==> r[k] == k
  {
    seq(n, k => k)
  }

  /** Position j of a reset index survives a row selection exactly when the mask keeps it. */
  lemma SelectRangeMember(n: nat, m: seq<bool>, j: int)
    requires |m| == n && 0 <= j < n
    ensures j in Select(Range(n), m) <==> m[j]
  {
    SelectElements(Range(n), m, j);
    assert Range(n)[j] == j;
  }

  /** `df.reset_index(drop=True)`: the index becomes 0, 1, ..., n - 1 and the columns stay. */
  function ResetIndex(f: Frame): (r: Frame)
    ensures r.index == Range(|f.index|) && r.columns == f.columns && Names(r) == Names(f)
  {
    Frame(Range(|f.index|), f.columns)
  }

  /** `df[name] = cells`: on a frame with unique column names, replaces the column called `name`, or appends a new last column. */
  function SetColumn(f: Frame, name: Name, cells: seq<Option<int>>): (r: Frame)
    requires Rectangular(f) && |cells| == |f.index|
    ensures Rectangular(r) && r.index == f.index
  {
    if name in Names(f) then
      var k := ColumnIndex(Names(f), name);
      Frame(f.index, f.columns[k := Column(name, cells)])
    else
      Frame(f.index, f.columns + [Column(name, cells)])
  }

  // ---------------------------------------------- properties

  /** The new column is there with the given cells, and every other named column is unchanged. */
  lemma SetColumnCells(f: Frame, name: Name, cells: seq<Option<int>>, other: Name)
    requires Rectangular(f) && |cells| == |f.index|
    requires other == name || other in Names(f)
    ensures other in Names(SetColumn(f, name, cells))
    ensures Cells(SetColumn(f, name, cells), other) == if other == name then cells else Cells(f, other)
  {
    var r := SetColumn(f, name, cells);
    var names, names' := Names(f), Names(r);
    if name in names {
      var k := ColumnIndex(names, name);
      assert names' == names;
      if other != name {
        var j := ColumnIndex(names, other);
        assert r.columns[j] == f.columns[j];
      }
    } else {
      assert names' == names + [name];
      if other == name {
        assert names'[..|names|] == names;
        ColumnIndexUnique(names', name, |names|);
      } else {
        var j := ColumnIndex(names, other);
        assert names'[..j] == names[..j];
        ColumnIndexUnique(names', other, j);
      }
    }
  }

  /**
   * Dropping duplicate index labels keeps the first row of each label: the index is the
   * first-occurrence selection, it has no repeats, no label is lost, and every column is cut alike.
   */
  lemma DropDuplicateRowsKeepsFirst(f: Frame)
    requires Rectangular(f)
    ensures var r := DropDuplicateRows(f);
      && r.index == Select(f.index, FirstMask(f.index))
      && Distinct(r.index)
      && (forall x :: x in r.index <==> x in f.index)
      && |r.columns| == |f.columns|
      && (forall k :: 0 <= k < |r.columns| ==> r.columns[k] == SelectCells(f.columns[k], FirstMask(f.index)))
  {
    var m := FirstMask(f.index);
    KeepFirstDistinct(f.index);
    KeepFirstMembers(f.index);
    if !HasDuplicateIndex(f) {
      SelectAll(f.index, m);
      forall k | 0 <= k < |f.columns| ensures f.columns[k] == SelectCells(f.columns[k], m) {
        assert f.columns[k] in f.columns;
        SelectAll(f.columns[k].cells, m);
      }
    }
  }

  /** Dropping duplicate index labels twice is the same as once. */
  lemma DropDuplicateRowsIdempotent(f: Frame)
    requires Rectangular(f)
    ensures DropDuplicateRows(DropDuplicateRows(f)) == DropDuplicateRows(f)
  {
    var r := DropDuplicateRows(f);
    DropDuplicateRowsKeepsFirst(f);
    DistinctFirstMask(r.index);
  }

  /**
   * Dropping duplicate column names keeps the first column of each name: the names are the
   * first-occurrence selection, none repeats, none is lost, and each name reads the same cells.
   */
  lemma DropDuplicateColumnsKeepsFirst(f: Frame)
    requires Rectangular(f)
    ensures var r := DropDuplicateColumns(f);
      && Names(r) == Select(Names(f), FirstMask(Names(f)))
      && Distinct(Names(r))
      && (forall n :: n in Names(r) <==> n in Names(f))
      && (forall n :: n in Names(f) ==> n in Names(r) && Cells(r, n) == Cells(f, n))
  {
    var r := DropDuplicateColumns(f);
    var names, m := Names(f), FirstMask(Names(f));
    SelectMapped(f.columns, names, m, (c: Column) => c.name);
    assert Names(r) == Select(names, m);
    KeepFirstDistinct(names);
    KeepFirstMembers(names);
    forall n | n in names ensures n in Names(r) && Cells(r, n) == Cells(f, n) {
      KeptColumn(f, n);
    }
  }

  /** The first column called n in the deduplicated frame is the first column called n in f. */
  lemma KeptColumn(f: Frame, n: Name)
    requires Rectangular(f) && n in Names(f)
    ensures n in Names(DropDuplicateColumns(f))
    ensures Cells(DropDuplicateColumns(f), n) == Cells(f, n)
  {
    var r := DropDuplicateColumns(f);
    var names, m := Names(f), FirstMask(Names(f));
    var j := ColumnIndex(names, n);
    assert m[j];
    PositionsComplete(m, j);
    var p := Positions(m);
    var k :| 0 <= k < |p| && p[k] == j;
    SelectAt(f.columns, m);
    assert r.columns[k] == f.columns[j];
    assert Names(r)[k] == n;
    forall i | 0 <= i < k ensures Names(r)[i] != n {
      assert p[i] < j;
      assert r.columns[i] == f.columns[p[i]];
      assert names[..j][p[i]] == names[p[i]];
    }
    assert n !in Names(r)[..k];
    ColumnIndexUnique(Names(r), n, k);
  }

  /** Dropping duplicate column names twice is the same as once. */
  lemma DropDuplicateColumnsIdempotent(f: Frame)
    requires Rectangular(f)
    ensures DropDuplicateColumns(DropDuplicateColumns(f)) == DropDuplicateColumns(f)
  {
    var r := DropDuplicateColumns(f);
    DropDuplicateColumnsKeepsFirst(f);
    DistinctFirstMask(Names(r));
    SelectAll(r.columns, FirstMask(Names(r)));
  }
}
