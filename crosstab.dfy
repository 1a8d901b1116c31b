/**
 * The two-way contingency table with margins that `pd.crosstab(x, y, margins=True)` builds
 * (src/utils/statistic.py:23, 73, 101). All three association measures build it the same
 * way, so it is defined once here.
 *
 * Layout, as pandas lays it out: rows are the sorted distinct values of the first series,
 * columns the sorted distinct values of the second; row R (after the last label) is the
 * 'All' row and column S is the 'All' column.
 */
module CrossTab {
  import opened Wrappers
  import opened Sequences

  /** A category label (the integer codes that `pd.qcut(..., labels=False)` produces). */
  type Label = int

  /** One observation: the labels of both series at the same position. */
  type Pair = (Label, Label)

  /**
   * The observations that enter the table. Series are aligned by position (their default
   * index), so a position past the end of the shorter series has no partner; a position
   * where either value is missing is dropped, as crosstab drops NaN.
   */
  function Pairs(a: seq<Option<Label>>, b: seq<Option<Label>>): (p: seq<Pair>)
    ensures |p| <= |a| && |p| <= |b|
  {
    if a == [] || b == [] then []
    else (if a[0].Some? && b[0].Some? then [(a[0].value, b[0].value)] else []) + Pairs(a[1..], b[1..])
  }

  function Elements(s: seq<Label>): set<Label>
  {
    set y | y in s
  }

  /** The second labels of the observations, in observation order. */
  function SecondValues(p: seq<Pair>): (r: seq<Label>)
    ensures |r| == |p| && forall k :: 0 <= k < |p| ==> r[k] == p[k].1
  {
    seq(|p|, k requires 0 <= k < |p| => p[k].1)
  }

  /** The observed first labels (Keys gives them in observation order). */
  function Firsts(p: seq<Pair>): set<Label>
  {
    Elements(Keys(p))
  }

  function Seconds(p: seq<Pair>): set<Label>
  {
    Elements(SecondValues(p))
  }

  /** Number of observations whose first label is in xs and whose second label is in ys. */
  function CountIn(p: seq<Pair>, xs: set<Label>, ys: set<Label>): nat
  {
    if p == [] then 0
    else CountIn(p[..|p| - 1], xs, ys) + (if p[|p| - 1].0 in xs && p[|p| - 1].1 in ys then 1 else 0)
  }

  // ------------------------------------------------------------ sorted labels

  predicate Increasing(s: seq<Label>)
  {
    forall i, j :: 0 <= i < j < |s| ==> s[i] < s[j]
  }

  /** The first label of an increasing sequence is below every later one. */
  lemma IncreasingHead(s: seq<Label>)
    requires Increasing(s) && s != []
    ensures forall y :: y in s[1..] ==> s[0] < y
  {
    forall y | y in s[1..] ensures s[0] < y {
      var k :| 0 <= k < |s[1..]| && s[1..][k] == y;
      assert s[k + 1] == y;
    }
  }

  /** A label below every label of an increasing sequence can go in front of it. */
  lemma ConsIncreasing(x: Label, s: seq<Label>)
    requires Increasing(s) && forall y :: y in s ==> x < y
    ensures Increasing([x] + s)
  {
    var r := [x] + s;
    forall i, j | 0 <= i < j < |r| ensures r[i] < r[j] {
      assert r[j] == s[j - 1] && s[j - 1] in s;
      if i > 0 { assert r[i] == s[i - 1]; }
    }
  }

  function Insert(x: Label, s: seq<Label>): (r: seq<Label>)
    requires Increasing(s)
    ensures Increasing(r)
    ensures forall y :: y in r <==> y in s || y == x
  {
    if s == [] then [x]
    else if x < s[0] then [x] + s
    else if x == s[0] then s
    else
      var rest := Insert(x, s[1..]);
      IncreasingHead(s);
      ConsIncreasing(s[0], rest);
      [s[0]] + rest
  }

  /** The distinct values of xs in ascending order, as pandas orders the table's labels. */
  function SortedLabels(xs: seq<Label>): (r: seq<Label>)
    ensures Increasing(r)
    ensures forall y :: y in r <==> y in xs
    ensures Elements(r) == Elements(xs)
  {
    if xs == [] then []
    else
      var n := |xs| - 1;
      assert xs == xs[..n] + [xs[n]];
      Insert(xs[n], SortedLabels(xs[..n]))
  }

  lemma IncreasingDistinct(s: seq<Label>)
    requires Increasing(s)
    ensures Distinct(s)
  {
  }

  // ------------------------------------------------------------ the table

  datatype Table = Table(rowLabels: seq<Label>, colLabels: seq<Label>, cells: seq<seq<nat>>)
  {
    /** Number of row categories (the table has one more row, the 'All' row). */
    function R(): nat { |rowLabels| }

    /** Number of column categories (the table has one more column, the 'All' column). */
    function S(): nat { |colLabels| }
  }

  /** (R + 1) x (S + 1) cells: the inner table plus the 'All' row and column. */
  predicate Shaped(t: Table)
  {
    |t.cells| == t.R() + 1 && forall i :: 0 <= i < |t.cells| ==> |t.cells[i]| == t.S() + 1
  }

  function GrandTotal(t: Table): nat
    requires Shaped(t)
  {
    t.cells[t.R()][t.S()]
  }

  /** The inner cells of row i (i = R gives the inner part of the 'All' row). */
  function InnerRow(t: Table, i: nat): (r: seq<nat>)
    requires Shaped(t) && i <= t.R()
    ensures |r| == t.S() && forall j :: 0 <= j < t.S() ==> r[j] == t.cells[i][j]
  {
    seq(t.S(), j requires 0 <= j < t.S() => t.cells[i][j])
  }

  /** The inner cells of column j (j = S gives the inner part of the 'All' column). */
  function InnerColumn(t: Table, j: nat): (c: seq<nat>)
    requires Shaped(t) && j <= t.S()
    ensures |c| == t.R() && forall i :: 0 <= i < t.R() ==> c[i] == t.cells[i][j]
  {
    seq(t.R(), i requires 0 <= i < t.R() => t.cells[i][j])
  }

  /** Every margin is the sum of the cells it summarises, and the corner is the sum of either margin. */
  predicate MarginsConsistent(t: Table)
  {
    && Shaped(t)
    && (forall i {:trigger InnerRow(t, i)} :: 0 <= i < t.R() ==> t.cells[i][t.S()] == SumNat(InnerRow(t, i)))
    && (forall j {:trigger InnerColumn(t, j)} :: 0 <= j < t.S() ==> t.cells[t.R()][j] == SumNat(InnerColumn(t, j)))
    && GrandTotal(t) == SumNat(InnerColumn(t, t.S()))
    && GrandTotal(t) == SumNat(InnerRow(t, t.R()))
  }

  /**
   * A table built from at least one observation: consistent margins, at least one
   * category on each side, and every category observed at least once.
   */
  predicate WellFormed(t: Table)
  {
    && MarginsConsistent(t)
    && t.R() >= 1 && t.S() >= 1
    && (forall i :: 0 <= i < t.R() ==> t.cells[i][t.S()] > 0)
    && (forall j :: 0 <= j < t.S() ==> t.cells[t.R()][j] > 0)
  }

  /** The counts of the observations whose first label is in xs, one per column label. */
  function CountsAcross(p: seq<Pair>, xs: set<Label>, cols: seq<Label>): (r: seq<nat>)
    ensures |r| == |cols| && forall j :: 0 <= j < |cols| ==> r[j] == CountIn(p, xs, {cols[j]})
  {
    seq(|cols|, j requires 0 <= j < |cols| => CountIn(p, xs, {cols[j]}))
  }

  /** The counts of the observations whose second label is in ys, one per row label. */
  function CountsDown(p: seq<Pair>, rows: seq<Label>, ys: set<Label>): (r: seq<nat>)
    ensures |r| == |rows| && forall i :: 0 <= i < |rows| ==> r[i] == CountIn(p, {rows[i]}, ys)
  {
    seq(|rows|, i requires 0 <= i < |rows| => CountIn(p, {rows[i]}, ys))
  }

  /** The cells of the table with margins, for the given observations and label orders. */
  function TableCells(p: seq<Pair>, rows: seq<Label>, cols: seq<Label>): (c: seq<seq<nat>>)
    ensures |c| == |rows| + 1
    ensures forall i :: 0 <= i < |rows| ==>
      c[i] == CountsAcross(p, {rows[i]}, cols) + [CountIn(p, {rows[i]}, Seconds(p))]
    ensures c[|rows|] == CountsAcross(p, Firsts(p), cols) + [|p|]
  {
    seq(|rows|, i requires 0 <= i < |rows| => CountsAcross(p, {rows[i]}, cols) + [CountIn(p, {rows[i]}, Seconds(p))])
      + [CountsAcross(p, Firsts(p), cols) + [|p|]]
  }

  /**
   * `pd.crosstab(a, b, margins=True)`. Inner cell (i, j) counts the observations labelled
   * (rowLabels[i], colLabels[j]); the 'All' column counts each row label's observations, the
   * 'All' row each column label's, and the corner all observations.
   */
  function Build(a: seq<Option<Label>>, b: seq<Option<Label>>): (t: Table)
    ensures Increasing(t.rowLabels) && Elements(t.rowLabels) == Firsts(Pairs(a, b))
    ensures Increasing(t.colLabels) && Elements(t.colLabels) == Seconds(Pairs(a, b))
    ensures MarginsConsistent(t)
    ensures forall i, j :: 0 <= i < t.R() && 0 <= j < t.S() ==>
      t.cells[i][j] == CountIn(Pairs(a, b), {t.rowLabels[i]}, {t.colLabels[j]})
    ensures GrandTotal(t) == |Pairs(a, b)|
    ensures WellFormed(t) <==> |Pairs(a, b)| > 0
  {
    var p := Pairs(a, b);
    var rows := SortedLabels(Keys(p));
    var cols := SortedLabels(SecondValues(p));
    var t := Table(rows, cols, TableCells(p, rows, cols));
    BuiltShaped(p, t);
    BuildMargins(p, t);
    BuildWellFormed(p, t);
    t
  }

  // ------------------------------------------------------------ counting lemmas

  lemma {:induction false} CountUnionColumns(p: seq<Pair>, xs: set<Label>, ys1: set<Label>, ys2: set<Label>)
    requires ys1 !! ys2
    ensures CountIn(p, xs, ys1 + ys2) == CountIn(p, xs, ys1) + CountIn(p, xs, ys2)
  {
    if p != [] { CountUnionColumns(p[..|p| - 1], xs, ys1, ys2); }
  }

  lemma {:induction false} CountUnionRows(p: seq<Pair>, xs1: set<Label>, xs2: set<Label>, ys: set<Label>)
    requires xs1 !! xs2
    ensures CountIn(p, xs1 + xs2, ys) == CountIn(p, xs1, ys) + CountIn(p, xs2, ys)
  {
    if p != [] { CountUnionRows(p[..|p| - 1], xs1, xs2, ys); }
  }

  lemma {:induction false} CountNone(p: seq<Pair>, xs: set<Label>, ys: set<Label>)
    requires xs == {} || ys == {}
    ensures CountIn(p, xs, ys) == 0
  {
    if p != [] { CountNone(p[..|p| - 1], xs, ys); }
  }

  /** Summing one row of counts over distinct column labels counts the row's observations with any of them. */
  lemma {:induction false} SumAcross(p: seq<Pair>, xs: set<Label>, cols: seq<Label>)
    requires Distinct(cols)
    ensures SumNat(CountsAcross(p, xs, cols)) == CountIn(p, xs, Elements(cols))
  {
    if cols == [] {
      assert Elements(cols) == {};
      CountNone(p, xs, {});
    } else {
      var n := |cols| - 1;
      var front := cols[..n];
      SumAcross(p, xs, front);
      var c := CountsAcross(p, xs, cols);
      assert c[..n] == CountsAcross(p, xs, front);
      assert SumNat(c) == SumNat(c[..n]) + c[n];
      assert Elements(cols) == Elements(front) + {cols[n]};
      CountUnionColumns(p, xs, Elements(front), {cols[n]});
    }
  }

  /** Summing one column of counts over distinct row labels counts the column's observations with any of them. */
  lemma {:induction false} SumDown(p: seq<Pair>, rows: seq<Label>, ys: set<Label>)
    requires Distinct(rows)
    ensures SumNat(CountsDown(p, rows, ys)) == CountIn(p, Elements(rows), ys)
  {
    if rows == [] {
      assert Elements(rows) == {};
      CountNone(p, {}, ys);
    } else {
      var n := |rows| - 1;
      var front := rows[..n];
      SumDown(p, front, ys);
      var c := CountsDown(p, rows, ys);
      assert c[..n] == CountsDown(p, front, ys);
      assert SumNat(c) == SumNat(c[..n]) + c[n];
      assert Elements(rows) == Elements(front) + {rows[n]};
      CountUnionRows(p, Elements(front), {rows[n]}, ys);
    }
  }

  /** When every observation falls inside xs x ys, all of them are counted. */
  lemma {:induction false} CountCover(p: seq<Pair>, xs: set<Label>, ys: set<Label>)
    requires forall k :: 0 <= k < |p| ==> p[k].0 in xs && p[k].1 in ys
    ensures CountIn(p, xs, ys) == |p|
  {
    if p != [] { CountCover(p[..|p| - 1], xs, ys); }
  }

  /** One observation inside xs x ys makes the count positive. */
  lemma {:induction false} CountWitness(p: seq<Pair>, xs: set<Label>, ys: set<Label>, k: nat)
    requires k < |p| && p[k].0 in xs && p[k].1 in ys
    ensures CountIn(p, xs, ys) >= 1
  {
    if k < |p| - 1 { CountWitness(p[..|p| - 1], xs, ys, k); }
  }

  /** The facts about a freshly built table that the margin lemmas below start from. */
  ghost predicate BuiltFrom(p: seq<Pair>, t: Table)
  {
    && Increasing(t.rowLabels) && Elements(t.rowLabels) == Firsts(p)
    && Increasing(t.colLabels) && Elements(t.colLabels) == Seconds(p)
    && t.cells == TableCells(p, t.rowLabels, t.colLabels)
  }

  lemma BuiltShaped(p: seq<Pair>, t: Table)
    requires BuiltFrom(p, t)
    ensures Shaped(t)
    ensures forall i, j :: 0 <= i < t.R() && 0 <= j < t.S() ==> t.cells[i][j] == CountIn(p, {t.rowLabels[i]}, {t.colLabels[j]})
    ensures forall i :: 0 <= i < t.R() ==> t.cells[i][t.S()] == CountIn(p, {t.rowLabels[i]}, Seconds(p))
    ensures forall j :: 0 <= j < t.S() ==> t.cells[t.R()][j] == CountIn(p, Firsts(p), {t.colLabels[j]})
    ensures GrandTotal(t) == |p|
  {
  }

  /** Each row's 'All' cell is the sum of its inner cells. */
  lemma BuiltRowMargins(p: seq<Pair>, t: Table)
    requires BuiltFrom(p, t)
    ensures Shaped(t)
    ensures forall i :: 0 <= i < t.R() ==> t.cells[i][t.S()] == SumNat(InnerRow(t, i))
  {
    BuiltShaped(p, t);
    IncreasingDistinct(t.colLabels);
    forall i | 0 <= i < t.R() ensures t.cells[i][t.S()] == SumNat(InnerRow(t, i)) {
      assert InnerRow(t, i) == CountsAcross(p, {t.rowLabels[i]}, t.colLabels);
      SumAcross(p, {t.rowLabels[i]}, t.colLabels);
    }
  }

  /** Each column's 'All' cell is the sum of its inner cells. */
  lemma BuiltColumnMargins(p: seq<Pair>, t: Table)
    requires BuiltFrom(p, t)
    ensures Shaped(t)
    ensures forall j :: 0 <= j < t.S() ==> t.cells[t.R()][j] == SumNat(InnerColumn(t, j))
  {
    BuiltShaped(p, t);
    IncreasingDistinct(t.rowLabels);
    forall j | 0 <= j < t.S() ensures t.cells[t.R()][j] == SumNat(InnerColumn(t, j)) {
      assert InnerColumn(t, j) == CountsDown(p, t.rowLabels, {t.colLabels[j]});
      SumDown(p, t.rowLabels, {t.colLabels[j]});
    }
  }

  /** The corner is the sum of the 'All' column and the sum of the 'All' row. */
  lemma BuiltCorner(p: seq<Pair>, t: Table)
    requires BuiltFrom(p, t)
    ensures Shaped(t)
    ensures GrandTotal(t) == SumNat(InnerColumn(t, t.S()))
    ensures GrandTotal(t) == SumNat(InnerRow(t, t.R()))
  {
    BuiltColumnCorner(p, t);
    BuiltRowCorner(p, t);
  }

  /** Every observation lies in the labels it contributes. */
  lemma CountAll(p: seq<Pair>)
    ensures CountIn(p, Firsts(p), Seconds(p)) == |p|
  {
    forall k | 0 <= k < |p| ensures p[k].0 in Firsts(p) && p[k].1 in Seconds(p) {
      assert Keys(p)[k] == p[k].0 && SecondValues(p)[k] == p[k].1;
    }
    CountCover(p, Firsts(p), Seconds(p));
  }

  lemma BuiltColumnCorner(p: seq<Pair>, t: Table)
    requires BuiltFrom(p, t)
    ensures Shaped(t) && GrandTotal(t) == SumNat(InnerColumn(t, t.S()))
  {
    BuiltShaped(p, t);
    IncreasingDistinct(t.rowLabels);
    CountAll(p);
    assert InnerColumn(t, t.S()) == CountsDown(p, t.rowLabels, Seconds(p));
    SumDown(p, t.rowLabels, Seconds(p));
  }

  lemma BuiltRowCorner(p: seq<Pair>, t: Table)
    requires BuiltFrom(p, t)
    ensures Shaped(t) && GrandTotal(t) == SumNat(InnerRow(t, t.R()))
  {
    BuiltShaped(p, t);
    IncreasingDistinct(t.colLabels);
    CountAll(p);
    assert InnerRow(t, t.R()) == CountsAcross(p, Firsts(p), t.colLabels);
    SumAcross(p, Firsts(p), t.colLabels);
  }

  /** Every label of the table was observed, so every margin is positive, and a table has labels exactly when it has observations. */
  lemma BuiltPositive(p: seq<Pair>, t: Table)
    requires BuiltFrom(p, t)
    ensures Shaped(t)
    ensures |p| > 0 <==> t.R() >= 1 && t.S() >= 1
    ensures forall i :: 0 <= i < t.R() ==> t.cells[i][t.S()] > 0
    ensures forall j :: 0 <= j < t.S() ==> t.cells[t.R()][j] > 0
  {
    BuiltShaped(p, t);
    forall i | 0 <= i < t.R() ensures t.cells[i][t.S()] > 0 {
      assert t.rowLabels[i] in Firsts(p);
      var k :| 0 <= k < |p| && Keys(p)[k] == t.rowLabels[i];
      assert SecondValues(p)[k] in Seconds(p);
      CountWitness(p, {t.rowLabels[i]}, Seconds(p), k);
    }
    forall j | 0 <= j < t.S() ensures t.cells[t.R()][j] > 0 {
      assert t.colLabels[j] in Seconds(p);
      var k :| 0 <= k < |p| && SecondValues(p)[k] == t.colLabels[j];
      assert Keys(p)[k] in Firsts(p);
      CountWitness(p, Firsts(p), {t.colLabels[j]}, k);
    }
    if t.R() > 0 { assert t.rowLabels[0] in Elements(t.rowLabels); }
    if |p| > 0 {
      assert Keys(p)[0] in Elements(t.rowLabels);
      assert SecondValues(p)[0] in Elements(t.colLabels);
    } else {
      assert Firsts(p) == {};
    }
  }

  /** The margins of a freshly built table are consistent. */
  lemma BuildMargins(p: seq<Pair>, t: Table)
    requires BuiltFrom(p, t)
    ensures MarginsConsistent(t)
  {
    BuiltRowMargins(p, t);
    BuiltColumnMargins(p, t);
    BuiltCorner(p, t);
  }

  /** A freshly built table is well formed exactly when it was built from at least one observation. */
  lemma BuildWellFormed(p: seq<Pair>, t: Table)
    requires BuiltFrom(p, t) && MarginsConsistent(t)
    ensures WellFormed(t) <==> |p| > 0
  {
    BuiltPositive(p, t);
  }
}
