/**
 * Chi-square test, Cramér's V and the contingency coefficient of src/utils/statistic.py.
 *
 * Arithmetic is exact (`real`), so the margin cells, which floating point only brings
 * close to zero, contribute exactly zero here. Cramér's V and the contingency coefficient
 * are modelled by their squares: the source takes a square root as its last step.
 */
module Association {
  import opened Wrappers
  import opened Sequences
  import opened CrossTab

  /** An argument of the three measures: a pandas Series (its values, in index order) or anything else. */
  datatype Arg = Series(values: seq<Option<Label>>) | NotSeries

  /** TypeError is raised by the argument check; NotANumber stands for a float NaN result. */
  datatype StatError = TypeError | NotANumber

  function Total(t: Table): real
    requires Shaped(t)
  {
    GrandTotal(t) as real
  }

  lemma TotalPositive(t: Table)
    requires WellFormed(t)
    ensures Total(t) > 0.0
  {
    var c := InnerColumn(t, t.S());
    assert c[..t.R() - 1] + [c[t.R() - 1]] == c;
    SumNatAppend(c[..t.R() - 1], c[t.R() - 1]);
  }

  // ------------------------------------------------- real arithmetic

  /** Products and squares go through these functions, so that the facts below are stated once. */
  function Mul(a: real, b: real): real
  {
    a * b
  }

  function Sq(x: real): real
  {
    Mul(x, x)
  }

  lemma MulPositive(a: real, b: real)
    requires a > 0.0 && b > 0.0
    ensures Mul(a, b) > 0.0
  {
  }

  lemma MulNegated(a: real, b: real)
    ensures Mul(-a, -b) == Mul(a, b)
  {
  }

  lemma MulZero(a: real, b: real)
    requires a == 0.0
    ensures Mul(a, b) == 0.0
  {
  }

  /** A square is never negative, and it is zero only at zero. */
  lemma Square(x: real)
    ensures Sq(x) >= 0.0
    ensures Sq(x) == 0.0 <==> x == 0.0
  {
    if x > 0.0 {
      MulPositive(x, x);
    } else if x < 0.0 {
      MulPositive(-x, -x);
      MulNegated(x, x);
    } else {
      MulZero(x, x);
    }
  }

  lemma QuotientSign(d: real, e: real)
    requires d >= 0.0 && e > 0.0
    ensures d / e >= 0.0
    ensures d / e == 0.0 <==> d == 0.0
  {
  }

  /** One term of Pearson's sum is never negative, and zero exactly when observed equals expected. */
  lemma TermBounds(o: real, e: real)
    requires e > 0.0
    ensures Sq(o - e) / e >= 0.0
    ensures Sq(o - e) / e == 0.0 <==> o == e
  {
    Square(o - e);
    QuotientSign(Sq(o - e), e);
  }

  // ------------------------------------------------- the statistic as computed

  /** `frequency_row[j]`: the 'All' row divided by the grand total (the 'All' column gives 1). */
  function Frequency(t: Table, j: nat): real
    requires WellFormed(t) && j <= t.S()
  {
    TotalPositive(t);
    t.cells[t.R()][j] as real / Total(t)
  }

  /** An inner expected cell: the row's 'All' count times the column frequency (row i = R is the 'All' row). */
  function InnerExpected(t: Table, i: nat, j: nat): real
    requires WellFormed(t) && i <= t.R() && j < t.S()
  {
    t.cells[i][t.S()] as real * Frequency(t, j)
  }

  function InnerExpectedRow(t: Table, i: nat): (r: seq<real>)
    requires WellFormed(t) && i <= t.R()
    ensures |r| == t.S() && forall j :: 0 <= j < t.S() ==> r[j] == InnerExpected(t, i, j)
  {
    seq(t.S(), j requires 0 <= j < t.S() => InnerExpected(t, i, j))
  }

  /** `expected_values`: inner cells as above; the 'All' column holds the sum of the row's inner cells. */
  function Expected(t: Table, i: nat, j: nat): real
    requires WellFormed(t) && i <= t.R() && j <= t.S()
  {
    if j < t.S() then InnerExpected(t, i, j) else SumReal(InnerExpectedRow(t, i))
  }

  /** `difference_table`: squared deviation over expected value, in every cell, margins included. */
  function Deviation(t: Table, i: nat, j: nat): real
    requires WellFormed(t) && i <= t.R() && j <= t.S()
  {
    ExpectedPositive(t, i, j);
    Sq(t.cells[i][j] as real - Expected(t, i, j)) / Expected(t, i, j)
  }

  function DeviationRow(t: Table, i: nat): (r: seq<real>)
    requires WellFormed(t) && i <= t.R()
    ensures |r| == t.S() + 1 && forall j :: 0 <= j <= t.S() ==> r[j] == Deviation(t, i, j)
  {
    seq(t.S() + 1, j requires 0 <= j <= t.S() => Deviation(t, i, j))
  }

  /** `row.sum()` for every row of `difference_table`. */
  function RowSums(t: Table): (r: seq<real>)
    requires WellFormed(t)
    ensures |r| == t.R() + 1 && forall i :: 0 <= i <= t.R() ==> r[i] == SumReal(DeviationRow(t, i))
  {
    seq(t.R() + 1, i requires 0 <= i <= t.R() => SumReal(DeviationRow(t, i)))
  }

  /** `qui_quadrado`: the whole difference table summed row by row. */
  function ComputedChiSquare(t: Table): real
    requires WellFormed(t)
  {
    SumReal(RowSums(t))
  }

  // ------------------------------------------------- the textbook statistic

  /** Expected count under independence: row total times column total over the grand total. */
  function IndependentExpected(t: Table, i: nat, j: nat): real
    requires WellFormed(t) && i < t.R() && j < t.S()
  {
    TotalPositive(t);
    (t.cells[i][t.S()] * t.cells[t.R()][j]) as real / Total(t)
  }

  function Term(t: Table, i: nat, j: nat): real
    requires WellFormed(t) && i < t.R() && j < t.S()
  {
    IndependentExpectedPositive(t, i, j);
    Sq(t.cells[i][j] as real - IndependentExpected(t, i, j)) / IndependentExpected(t, i, j)
  }

  function TermRow(t: Table, i: nat): (r: seq<real>)
    requires WellFormed(t) && i < t.R()
    ensures |r| == t.S() && forall j :: 0 <= j < t.S() ==> r[j] == Term(t, i, j)
  {
    seq(t.S(), j requires 0 <= j < t.S() => Term(t, i, j))
  }

  function TermRowSums(t: Table): (r: seq<real>)
    requires WellFormed(t)
    ensures |r| == t.R() && forall i :: 0 <= i < t.R() ==> r[i] == SumReal(TermRow(t, i))
  {
    seq(t.R(), i requires 0 <= i < t.R() => SumReal(TermRow(t, i)))
  }

  /** Pearson's statistic: the sum over the inner cells only of (observed - expected)^2 / expected. */
  function ChiSquare(t: Table): real
    requires WellFormed(t)
  {
    SumReal(TermRowSums(t))
  }

  // ------------------------------------------------- expected values

  lemma IndependentExpectedPositive(t: Table, i: nat, j: nat)
    requires WellFormed(t) && i < t.R() && j < t.S()
    ensures IndependentExpected(t, i, j) > 0.0
  {
    TotalPositive(t);
    var m, c := t.cells[i][t.S()], t.cells[t.R()][j];
    assert m * c > 0 by { NatMulPositive(m, c); }
  }

  lemma SumNatSingle(x: nat)
    ensures SumNat([x]) == x
  {
    assert [x][..0] == [];
  }

  lemma NatMulPositive(x: nat, y: nat)
    requires x > 0 && y > 0
    ensures x * y > 0
  {
  }

  /** An inner expected cell is the independence count: row total times column total over the grand total. */
  lemma ExpectedInner(t: Table, i: nat, j: nat)
    requires WellFormed(t) && i < t.R() && j < t.S()
    ensures Expected(t, i, j) == IndependentExpected(t, i, j)
  {
    TotalPositive(t);
    ProductOverTotal(t.cells[i][t.S()], t.cells[t.R()][j], Total(t));
  }

  lemma ProductOverTotal(a: nat, b: nat, n: real)
    requires n > 0.0
    ensures a as real * (b as real / n) == (a * b) as real / n
  {
    assert (a * b) as real == a as real * b as real;
  }

  /** The 'All' row of the expected values repeats the column totals. */
  lemma ExpectedAllRow(t: Table, j: nat)
    requires WellFormed(t) && j < t.S()
    ensures Expected(t, t.R(), j) == t.cells[t.R()][j] as real
  {
    TotalPositive(t);
    assert t.cells[t.R()][t.S()] as real == Total(t);
  }

  /** The 'All' column of the expected values repeats the row totals. */
  lemma ExpectedAllColumn(t: Table, i: nat)
    requires WellFormed(t) && i <= t.R()
    ensures Expected(t, i, t.S()) == t.cells[i][t.S()] as real
  {
    ExpectedRowSum(t, i);
  }

  /** The inner cells of `frequency_row`. */
  function ColumnFrequencies(t: Table): seq<real>
    requires WellFormed(t)
  {
    TotalPositive(t);
    Divide(ToReals(InnerRow(t, t.R())), Total(t))
  }

  /** Row i of the inner expected values is the row's 'All' count times the column frequencies. */
  lemma ExpectedRowScaled(t: Table, i: nat)
    requires WellFormed(t) && i <= t.R()
    ensures InnerExpectedRow(t, i) == Scale(ColumnFrequencies(t), t.cells[i][t.S()] as real)
  {
    TotalPositive(t);
    var totals := ToReals(InnerRow(t, t.R()));
    var freqs := Divide(totals, Total(t));
    var m := t.cells[i][t.S()] as real;
    forall j | 0 <= j < t.S() ensures InnerExpectedRow(t, i)[j] == Scale(freqs, m)[j] {
      assert totals[j] == t.cells[t.R()][j] as real;
    }
  }

  /** The inner expected values of a row add up to the row's 'All' count, because the frequencies add up to 1. */
  lemma ExpectedRowSum(t: Table, i: nat)
    requires WellFormed(t) && i <= t.R()
    ensures SumReal(InnerExpectedRow(t, i)) == t.cells[i][t.S()] as real
  {
    TotalPositive(t);
    var n := Total(t);
    var totals := ToReals(InnerRow(t, t.R()));
    var freqs := Divide(totals, n);
    var m := t.cells[i][t.S()] as real;
    ExpectedRowScaled(t, i);
    assert SumReal(freqs) == 1.0 by {
      SumDivide(totals, n);
      SumToReals(InnerRow(t, t.R()));
      DivSelf(n);
    }
    SumScale(freqs, m);
  }

  lemma DivSelf(n: real)
    requires n != 0.0
    ensures n / n == 1.0
  {
  }

  lemma Cancel(m: real, c: real)
    requires m != 0.0
    ensures (m * c) / m == c
  {
  }

  lemma ExpectedPositive(t: Table, i: nat, j: nat)
    requires WellFormed(t) && i <= t.R() && j <= t.S()
    ensures Expected(t, i, j) > 0.0
  {
    TotalPositive(t);
    if j == t.S() {
      ExpectedAllColumn(t, i);
      if i == t.R() { assert t.cells[i][t.S()] as real == Total(t); }
    } else if i < t.R() {
      IndependentExpectedPositive(t, i, j);
      ExpectedInner(t, i, j);
    } else {
      ExpectedAllRow(t, j);
    }
  }

  // ------------------------------------------------- the margins add nothing

  /** An inner cell of the difference table is the textbook term. */
  lemma DeviationInner(t: Table, i: nat, j: nat)
    requires WellFormed(t) && i < t.R() && j < t.S()
    ensures Deviation(t, i, j) == Term(t, i, j)
  {
    ExpectedInner(t, i, j);
  }

  /** A margin cell of the difference table is zero: the margins are their own expectation. */
  lemma DeviationMargin(t: Table, i: nat, j: nat)
    requires WellFormed(t) && i <= t.R() && j <= t.S() && (i == t.R() || j == t.S())
    ensures Deviation(t, i, j) == 0.0
  {
    ExpectedPositive(t, i, j);
    if j == t.S() {
      ExpectedAllColumn(t, i);
    } else {
      ExpectedAllRow(t, j);
    }
    TermBounds(t.cells[i][j] as real, Expected(t, i, j));
  }

  /** In a row of the inner table, the 'All' cell adds zero to the row's sum. */
  lemma InnerRowDeviations(t: Table, i: nat)
    requires WellFormed(t) && i < t.R()
    ensures SumReal(DeviationRow(t, i)) == SumReal(TermRow(t, i))
  {
    var d := DeviationRow(t, i);
    forall j | 0 <= j < t.S() ensures d[j] == TermRow(t, i)[j] {
      DeviationInner(t, i, j);
    }
    DeviationMargin(t, i, t.S());
    SumRealZeroLast(d, TermRow(t, i));
  }

  /** Every cell of the 'All' row matches its expected value exactly, so the row adds zero. */
  lemma MarginRowDeviations(t: Table)
    requires WellFormed(t)
    ensures SumReal(DeviationRow(t, t.R())) == 0.0
  {
    var d := DeviationRow(t, t.R());
    forall j | 0 <= j < |d| ensures d[j] == 0.0 {
      DeviationMargin(t, t.R(), j);
    }
    SumNonNegative(d);
  }

  /**
   * The loop in chi_square_test sums the whole table, margins included; the margin cells
   * contribute exactly zero, so the result is the textbook sum over the inner cells.
   */
  lemma {:induction false} MarginsContributeZero(t: Table)
    requires WellFormed(t)
    ensures ComputedChiSquare(t) == ChiSquare(t)
  {
    var rows := RowSums(t);
    MarginRowDeviations(t);
    forall i | 0 <= i < t.R() ensures rows[i] == TermRowSums(t)[i] {
      InnerRowDeviations(t, i);
    }
    SumRealZeroLast(rows, TermRowSums(t));
  }

  /**
   * The statistic is never negative, and it is zero exactly when every observed inner count
   * equals its expected count under independence.
   */
  lemma {:induction false} ChiSquareBounds(t: Table)
    requires WellFormed(t)
    ensures ChiSquare(t) >= 0.0
    ensures ChiSquare(t) == 0.0 <==>
      forall i, j :: 0 <= i < t.R() && 0 <= j < t.S() ==> t.cells[i][j] as real == IndependentExpected(t, i, j)
  {
    var sums := TermRowSums(t);
    forall i | 0 <= i < t.R()
      ensures sums[i] >= 0.0
      ensures sums[i] == 0.0 <==> forall j :: 0 <= j < t.S() ==> t.cells[i][j] as real == IndependentExpected(t, i, j)
    {
      TermRowBounds(t, i);
    }
    SumNonNegative(sums);
  }

  /** One row's terms sum to a non-negative value, zero exactly when every count in the row is its expectation. */
  lemma TermRowBounds(t: Table, i: nat)
    requires WellFormed(t) && i < t.R()
    ensures SumReal(TermRow(t, i)) >= 0.0
    ensures SumReal(TermRow(t, i)) == 0.0 <==>
      forall j :: 0 <= j < t.S() ==> t.cells[i][j] as real == IndependentExpected(t, i, j)
  {
    var row := TermRow(t, i);
    forall j | 0 <= j < t.S()
      ensures row[j] >= 0.0 && (row[j] == 0.0 <==> t.cells[i][j] as real == IndependentExpected(t, i, j))
    {
      IndependentExpectedPositive(t, i, j);
      TermBounds(t.cells[i][j] as real, IndependentExpected(t, i, j));
    }
    SumNonNegative(row);
  }

  /** With a single row category, every inner count is its own expectation. */
  lemma SingleRowCell(t: Table, j: nat)
    requires WellFormed(t) && t.R() == 1 && j < t.S()
    ensures t.cells[0][j] as real == IndependentExpected(t, 0, j)
  {
    var o, m, c := t.cells[0][j], t.cells[0][t.S()], t.cells[1][j];
    assert c == o by {
      assert InnerColumn(t, j) == [o];
      SumNatSingle(o);
    }
    assert GrandTotal(t) == m by {
      assert InnerColumn(t, t.S()) == [m];
      SumNatSingle(m);
    }
    assert (m * c) as real == m as real * c as real;
    Cancel(m as real, c as real);
  }

  /** With a single column category, every inner count is its own expectation. */
  lemma SingleColumnCell(t: Table, i: nat)
    requires WellFormed(t) && t.S() == 1 && i < t.R()
    ensures t.cells[i][0] as real == IndependentExpected(t, i, 0)
  {
    var o, m, c := t.cells[i][0], t.cells[i][1], t.cells[t.R()][0];
    assert m == o by {
      assert InnerRow(t, i) == [o];
      SumNatSingle(o);
    }
    assert GrandTotal(t) == c by {
      assert InnerRow(t, t.R()) == [c];
      SumNatSingle(c);
    }
    assert (m * c) as real == c as real * m as real;
    Cancel(c as real, m as real);
  }

  /** With a single category on either side every count is its own expectation, so the statistic is zero. */
  lemma SingleCategoryChiSquare(t: Table)
    requires WellFormed(t)
    requires t.R() == 1 || t.S() == 1
    ensures ChiSquare(t) == 0.0
  {
    forall i, j | 0 <= i < t.R() && 0 <= j < t.S()
      ensures t.cells[i][j] as real == IndependentExpected(t, i, j)
    {
      if t.R() == 1 {
        SingleRowCell(t, j);
      } else {
        SingleColumnCell(t, i);
      }
    }
    ChiSquareBounds(t);
  }

  // ------------------------------------------------- the upper bound

  /** One term expanded: (o - e)^2 / e = n * o^2 / (r * c) - 2 * o + e, with e = r * c / n. */
  lemma TermExpansion(o: real, r: real, c: real, n: real)
    requires r > 0.0 && c > 0.0 && n > 0.0
    ensures Sq(o - Mul(r, c) / n) / (Mul(r, c) / n) == SquareRatioOf(o, r, c, n) - 2.0 * o + Mul(r, c) / n
  {
    var p := Mul(r, c);
    MulPositive(r, c);
    var e := p / n;
    assert Sq(o - e) == Sq(o) - 2.0 * o * e + e * e;
    assert Sq(o - e) / e == Sq(o) / e - 2.0 * o + e;
    assert Sq(o) / e == n * (Sq(o) / p);
  }

  /** n * o^2 / (r * c): the part of a term that depends on the count squared. */
  function SquareRatioOf(o: real, r: real, c: real, n: real): real
    requires r > 0.0 && c > 0.0
  {
    MulPositive(r, c);
    n * (Sq(o) / Mul(r, c))
  }

  /** When o <= c: n * o^2 / (r * c) <= (n / r) * o. */
  lemma SquareRatioByRowTotal(o: real, r: real, c: real, n: real)
    requires 0.0 <= o <= c && r > 0.0 && c > 0.0 && n > 0.0
    ensures SquareRatioOf(o, r, c, n) <= (n / r) * o
  {
    assert Sq(o) / Mul(r, c) == (o / r) * (o / c);
    assert o / c <= 1.0;
    assert (o / r) * (o / c) <= o / r;
  }

  /** When o <= r: n * o^2 / (r * c) <= (n / c) * o. */
  lemma SquareRatioByColumnTotal(o: real, r: real, c: real, n: real)
    requires 0.0 <= o <= r && r > 0.0 && c > 0.0 && n > 0.0
    ensures SquareRatioOf(o, r, c, n) <= (n / c) * o
  {
    assert Sq(o) / Mul(r, c) == (o / c) * (o / r);
    assert o / r <= 1.0;
    assert (o / c) * (o / r) <= o / c;
  }

  /** The square ratio of cell (i, j): n * O^2 / (R_i * C_j). */
  function SquareRatio(t: Table, i: nat, j: nat): real
    requires WellFormed(t) && i < t.R() && j < t.S()
  {
    SquareRatioOf(t.cells[i][j] as real, t.cells[i][t.S()] as real, t.cells[t.R()][j] as real, Total(t))
  }

  function SquareRatioRow(t: Table, i: nat): (r: seq<real>)
    requires WellFormed(t) && i < t.R()
    ensures |r| == t.S() && forall j :: 0 <= j < t.S() ==> r[j] == SquareRatio(t, i, j)
  {
    seq(t.S(), j requires 0 <= j < t.S() => SquareRatio(t, i, j))
  }

  function SquareRatioColumn(t: Table, j: nat): (r: seq<real>)
    requires WellFormed(t) && j < t.S()
    ensures |r| == t.R() && forall i :: 0 <= i < t.R() ==> r[i] == SquareRatio(t, i, j)
  {
    seq(t.R(), i requires 0 <= i < t.R() => SquareRatio(t, i, j))
  }

  function SquareRatios(t: Table): (m: seq<seq<real>>)
    requires WellFormed(t)
    ensures |m| == t.R() && RowsOfWidth(m, t.S()) && forall i :: 0 <= i < t.R() ==> m[i] == SquareRatioRow(t, i)
  {
    seq(t.R(), i requires 0 <= i < t.R() => SquareRatioRow(t, i))
  }

  /** A term is its square-ratio part, less twice the count, plus the expectation. */
  lemma TermSplit(t: Table, i: nat, j: nat)
    requires WellFormed(t) && i < t.R() && j < t.S()
    ensures Term(t, i, j) == SquareRatio(t, i, j) - 2.0 * t.cells[i][j] as real + IndependentExpected(t, i, j)
  {
    var r, c := t.cells[i][t.S()], t.cells[t.R()][j];
    TotalPositive(t);
    assert (r * c) as real == Mul(r as real, c as real);
    TermExpansion(t.cells[i][j] as real, r as real, c as real, Total(t));
  }

  /** Term by term, a row is its square ratios, less twice its counts, plus its expectations. */
  lemma TermRowPointwise(t: Table, i: nat)
    requires WellFormed(t) && i < t.R()
    ensures forall j :: 0 <= j < t.S() ==>
      TermRow(t, i)[j] == SquareRatioRow(t, i)[j] + -2.0 * ToReals(InnerRow(t, i))[j] + InnerExpectedRow(t, i)[j]
  {
    forall j | 0 <= j < t.S()
      ensures TermRow(t, i)[j] == SquareRatioRow(t, i)[j] + -2.0 * ToReals(InnerRow(t, i))[j] + InnerExpectedRow(t, i)[j]
    {
      TermSplit(t, i, j);
      ExpectedInner(t, i, j);
    }
  }

  /** The counts of a row, read as reals, add up to the row total. */
  lemma RowCountsSum(t: Table, i: nat)
    requires WellFormed(t) && i <= t.R()
    ensures SumReal(ToReals(InnerRow(t, i))) == t.cells[i][t.S()] as real
  {
    SumToReals(InnerRow(t, i));
  }

  /** A row's terms add up to its square ratios less the row total. */
  lemma TermRowSplit(t: Table, i: nat)
    requires WellFormed(t) && i < t.R()
    ensures SumReal(TermRow(t, i)) == SumReal(SquareRatioRow(t, i)) - t.cells[i][t.S()] as real
  {
    TermRowPointwise(t, i);
    RowCountsSum(t, i);
    ExpectedRowSum(t, i);
    SumCombine(TermRow(t, i), SquareRatioRow(t, i), ToReals(InnerRow(t, i)), InnerExpectedRow(t, i));
  }

  /** The row totals, read as reals, add up to n. */
  lemma RowTotalsSum(t: Table)
    requires WellFormed(t)
    ensures SumReal(ToReals(InnerColumn(t, t.S()))) == Total(t)
  {
    SumToReals(InnerColumn(t, t.S()));
  }

  /** Row by row, chi-square is the square ratios less the row totals. */
  lemma TermRowSumsPointwise(t: Table)
    requires WellFormed(t)
    ensures |TermRowSums(t)| == |RowTotals(SquareRatios(t))| == |ToReals(InnerColumn(t, t.S()))| == t.R()
    ensures forall i :: 0 <= i < t.R() ==>
      TermRowSums(t)[i] == RowTotals(SquareRatios(t))[i] - ToReals(InnerColumn(t, t.S()))[i]
  {
    forall i | 0 <= i < t.R()
      ensures TermRowSums(t)[i] == RowTotals(SquareRatios(t))[i] - ToReals(InnerColumn(t, t.S()))[i]
    {
      TermRowSplit(t, i);
    }
  }

  /** Chi-square is the sum of all square ratios less n. */
  lemma ChiSquareSplit(t: Table)
    requires WellFormed(t)
    ensures ChiSquare(t) == SumReal(RowTotals(SquareRatios(t))) - Total(t)
  {
    var sums, ratios, totals := TermRowSums(t), RowTotals(SquareRatios(t)), ToReals(InnerColumn(t, t.S()));
    TermRowSumsPointwise(t);
    RowTotalsSum(t);
    SumDifference(sums, ratios, totals);
  }

  /** Each term is at most n / r times its weight, and the weights add up to r > 0. */
  predicate Shares(terms: seq<real>, weights: seq<real>, n: real, r: real)
  {
    && r > 0.0 && |terms| == |weights| && SumReal(weights) == r
    && forall k :: 0 <= k < |terms| ==> terms[k] <= (n / r) * weights[k]
  }

  /** Terms each at most n / r times a weight, with weights adding up to r, add up to at most n. */
  lemma ShareBound(terms: seq<real>, weights: seq<real>, n: real, r: real)
    requires Shares(terms, weights, n, r)
    ensures SumReal(terms) <= n
  {
    SumScaledBound(terms, weights, n / r);
    assert (n / r) * r == n;
  }

  /** One square ratio is at most n / R_i times its count, because the count is at most its column total. */
  lemma SquareRatioByRow(t: Table, i: nat, j: nat)
    requires WellFormed(t) && i < t.R() && j < t.S()
    ensures SquareRatio(t, i, j) <= (Total(t) / t.cells[i][t.S()] as real) * t.cells[i][j] as real
  {
    var o, r, c, n := t.cells[i][j] as real, t.cells[i][t.S()] as real, t.cells[t.R()][j] as real, Total(t);
    TotalPositive(t);
    SumNatElement(InnerColumn(t, j), i);
    SquareRatioByRowTotal(o, r, c, n);
  }

  /** One square ratio is at most n / C_j times its count, because the count is at most its row total. */
  lemma SquareRatioByColumn(t: Table, i: nat, j: nat)
    requires WellFormed(t) && i < t.R() && j < t.S()
    ensures SquareRatio(t, i, j) <= (Total(t) / t.cells[t.R()][j] as real) * t.cells[i][j] as real
  {
    var o, r, c, n := t.cells[i][j] as real, t.cells[i][t.S()] as real, t.cells[t.R()][j] as real, Total(t);
    TotalPositive(t);
    SumNatElement(InnerRow(t, i), j);
    SquareRatioByColumnTotal(o, r, c, n);
  }

  /** Cell by cell, a row of square ratios is at most n / R_i times the row's counts, which add up to R_i. */
  lemma SquareRatioRowShares(t: Table, i: nat)
    requires WellFormed(t) && i < t.R()
    ensures Shares(SquareRatioRow(t, i), ToReals(InnerRow(t, i)), Total(t), t.cells[i][t.S()] as real)
  {
    RowCountsSum(t, i);
    forall j | 0 <= j < t.S()
      ensures SquareRatioRow(t, i)[j] <= (Total(t) / t.cells[i][t.S()] as real) * ToReals(InnerRow(t, i))[j]
    {
      SquareRatioByRow(t, i, j);
    }
  }

  /** The square ratios of a row add up to at most n. */
  lemma SquareRatioRowBound(t: Table, i: nat)
    requires WellFormed(t) && i < t.R()
    ensures SumReal(SquareRatioRow(t, i)) <= Total(t)
  {
    SquareRatioRowShares(t, i);
    ShareBound(SquareRatioRow(t, i), ToReals(InnerRow(t, i)), Total(t), t.cells[i][t.S()] as real);
  }

  /** Cell by cell, a column of square ratios is at most n / C_j times the column's counts, which add up to C_j. */
  lemma SquareRatioColumnShares(t: Table, j: nat)
    requires WellFormed(t) && j < t.S()
    ensures Shares(SquareRatioColumn(t, j), ToReals(InnerColumn(t, j)), Total(t), t.cells[t.R()][j] as real)
  {
    ColumnCountsSum(t, j);
    forall i | 0 <= i < t.R()
      ensures SquareRatioColumn(t, j)[i] <= (Total(t) / t.cells[t.R()][j] as real) * ToReals(InnerColumn(t, j))[i]
    {
      SquareRatioByColumn(t, i, j);
    }
  }

  /** The counts of a column, read as reals, add up to the column total. */
  lemma ColumnCountsSum(t: Table, j: nat)
    requires WellFormed(t) && j <= t.S()
    ensures SumReal(ToReals(InnerColumn(t, j))) == t.cells[t.R()][j] as real
  {
    SumToReals(InnerColumn(t, j));
  }

  /** The square ratios of a column add up to at most n. */
  lemma SquareRatioColumnBound(t: Table, j: nat)
    requires WellFormed(t) && j < t.S()
    ensures SumReal(SquareRatioColumn(t, j)) <= Total(t)
  {
    SquareRatioColumnShares(t, j);
    ShareBound(SquareRatioColumn(t, j), ToReals(InnerColumn(t, j)), Total(t), t.cells[t.R()][j] as real);
  }

  /** Column j of the square-ratio matrix is the column of square ratios. */
  lemma SquareRatioColumnIs(t: Table, j: nat)
    requires WellFormed(t) && j < t.S()
    ensures ColumnOf(SquareRatios(t), t.S(), j) == SquareRatioColumn(t, j)
  {
  }

  /**
   * Chi-square never exceeds n * (r - 1), nor n * (s - 1): summed by rows the square ratios are
   * at most r * n, summed by columns at most s * n, and chi-square is their sum less n.
   */
  lemma ChiSquareAtMost(t: Table)
    requires WellFormed(t)
    ensures ChiSquare(t) + Total(t) <= t.R() as real * Total(t)
    ensures ChiSquare(t) + Total(t) <= t.S() as real * Total(t)
  {
    SquareRatiosByRows(t);
    SquareRatiosByColumns(t);
    ChiSquareSplit(t);
  }

  /** All square ratios together are at most r * n: each row adds at most n. */
  lemma SquareRatiosByRows(t: Table)
    requires WellFormed(t)
    ensures SumReal(RowTotals(SquareRatios(t))) <= t.R() as real * Total(t)
  {
    var m, n := SquareRatios(t), Total(t);
    assert |m| == t.R();
    SquareRatiosEachRow(t);
    RowsBound(m, t.R(), n);
  }

  /** All square ratios together are at most s * n: each column adds at most n. */
  lemma SquareRatiosByColumns(t: Table)
    requires WellFormed(t)
    ensures SumReal(RowTotals(SquareRatios(t))) <= t.S() as real * Total(t)
  {
    var m, n := SquareRatios(t), Total(t);
    assert RowsOfWidth(m, t.S());
    SquareRatiosEachColumn(t);
    SwapBound(m, t.S(), n);
  }

  /** Each row of square ratios adds up to at most n. */
  lemma SquareRatiosEachRow(t: Table)
    requires WellFormed(t)
    ensures forall i :: 0 <= i < t.R() ==> SumReal(SquareRatios(t)[i]) <= Total(t)
  {
    forall i | 0 <= i < t.R() ensures SumReal(SquareRatios(t)[i]) <= Total(t) {
      SquareRatioRowBound(t, i);
    }
  }

  /** Each column of square ratios adds up to at most n. */
  lemma SquareRatiosEachColumn(t: Table)
    requires WellFormed(t)
    ensures forall j :: 0 <= j < t.S() ==> SumReal(ColumnOf(SquareRatios(t), t.S(), j)) <= Total(t)
  {
    forall j | 0 <= j < t.S() ensures SumReal(ColumnOf(SquareRatios(t), t.S(), j)) <= Total(t) {
      SquareRatioColumnIs(t, j);
      SquareRatioColumnBound(t, j);
    }
  }

  // ------------------------------------------------- chi_square_test

  /** The first w cells of row i of m, as pandas' `.loc[row]` hands them to `.sum()`. */
  function RowOf(m: array2<real>, i: nat, w: nat): (r: seq<real>)
    requires i < m.Length0 && w <= m.Length1
    reads m
    ensures |r| == w && forall k :: 0 <= k < w ==> r[k] == m[i, k]
  {
    seq(w, k requires 0 <= k < w reads m => m[i, k])
  }

  /** Fills `frequency_row`: each 'All'-row cell divided by the grand total. */
  method FillFrequencyRow(t: Table) returns (freq: array<real>)
    requires WellFormed(t)
    ensures fresh(freq) && freq.Length == t.S() + 1
    ensures forall j :: 0 <= j <= t.S() ==> freq[j] == Frequency(t, j)
  {
    TotalPositive(t);
    var n := t.cells[t.R()][t.S()];
    freq := new real[t.S() + 1];
    for j := 0 to t.S() + 1
      invariant forall k :: 0 <= k < j ==> freq[k] == Frequency(t, k)
    {
      freq[j] := t.cells[t.R()][j] as real / n as real;
    }
  }

  /** Fills `expected_values` row by row. */
  method FillExpectedValues(t: Table, freq: array<real>) returns (e: array2<real>)
    requires WellFormed(t)
    requires freq.Length == t.S() + 1 && forall j :: 0 <= j <= t.S() ==> freq[j] == Frequency(t, j)
    ensures fresh(e) && e.Length0 == t.R() + 1 && e.Length1 == t.S() + 1
    ensures forall i, j :: 0 <= i <= t.R() && 0 <= j <= t.S() ==> e[i, j] == Expected(t, i, j)
  {
    e := new real[t.R() + 1, t.S() + 1];
    for i := 0 to t.R() + 1
      invariant forall i', j' :: 0 <= i' < i && 0 <= j' <= t.S() ==> e[i', j'] == Expected(t, i', j')
    {
      FillExpectedRow(t, freq, e, i);
    }
  }

  /** Fills row i of `expected_values`; the 'All' column, visited last, takes the sum of the row so far. */
  method FillExpectedRow(t: Table, freq: array<real>, e: array2<real>, i: nat)
    requires WellFormed(t) && i <= t.R()
    requires freq.Length == t.S() + 1 && forall j :: 0 <= j <= t.S() ==> freq[j] == Frequency(t, j)
    requires e.Length0 == t.R() + 1 && e.Length1 == t.S() + 1
    modifies e
    ensures forall j :: 0 <= j <= t.S() ==> e[i, j] == Expected(t, i, j)
    ensures forall i', j' :: 0 <= i' <= t.R() && 0 <= j' <= t.S() && i' != i ==> e[i', j'] == old(e[i', j'])
  {
    var S := t.S();
    for j := 0 to S + 1
      invariant forall j' :: 0 <= j' < j ==> e[i, j'] == Expected(t, i, j')
      invariant forall i', j' :: 0 <= i' <= t.R() && 0 <= j' <= S && i' != i ==> e[i', j'] == old(e[i', j'])
    {
      var v;
      if j == S {
        assert RowOf(e, i, S) == InnerExpectedRow(t, i);
        v := SumReal(RowOf(e, i, S));
      } else {
        v := t.cells[i][S] as real * freq[j];
      }
      assert v == Expected(t, i, j);
      e[i, j] := v;
    }
  }

  /** Fills `difference_table` column by column with (observed - expected)^2 / expected. */
  method FillDifferenceTable(t: Table, e: array2<real>) returns (d: array2<real>)
    requires WellFormed(t)
    requires e.Length0 == t.R() + 1 && e.Length1 == t.S() + 1
    requires forall i, j :: 0 <= i <= t.R() && 0 <= j <= t.S() ==> e[i, j] == Expected(t, i, j)
    ensures fresh(d) && d.Length0 == t.R() + 1 && d.Length1 == t.S() + 1
    ensures forall i, j :: 0 <= i <= t.R() && 0 <= j <= t.S() ==> d[i, j] == Deviation(t, i, j)
  {
    var R, S := t.R(), t.S();
    d := new real[R + 1, S + 1];
    for j := 0 to S + 1
      invariant forall i', j' :: 0 <= i' <= R && 0 <= j' < j ==> d[i', j'] == Deviation(t, i', j')
    {
      for i := 0 to R + 1
        invariant forall i', j' :: 0 <= i' <= R && 0 <= j' <= S && (j' < j || (j' == j && i' < i)) ==>
          d[i', j'] == Deviation(t, i', j')
      {
        ExpectedPositive(t, i, j);
        d[i, j] := Sq(t.cells[i][j] as real - e[i, j]) / e[i, j];
      }
    }
  }

  /** Row i of a filled difference table, as `.loc[i]` reads it. */
  lemma DifferenceRow(t: Table, d: array2<real>, i: nat)
    requires WellFormed(t) && i <= t.R()
    requires d.Length0 == t.R() + 1 && d.Length1 == t.S() + 1
    requires forall i, j :: 0 <= i <= t.R() && 0 <= j <= t.S() ==> d[i, j] == Deviation(t, i, j)
    ensures RowOf(d, i, t.S() + 1) == DeviationRow(t, i)
  {
  }

  /** Accumulates `qui_quadrado` from the row sums of the difference table. */
  method SumDifferenceTable(t: Table, d: array2<real>) returns (chi: real)
    requires WellFormed(t)
    requires d.Length0 == t.R() + 1 && d.Length1 == t.S() + 1
    requires forall i, j :: 0 <= i <= t.R() && 0 <= j <= t.S() ==> d[i, j] == Deviation(t, i, j)
    ensures chi == ChiSquare(t)
  {
    var sums := RowSums(t);
    chi := 0.0;
    for i := 0 to t.R() + 1
      invariant chi == SumReal(sums[..i])
    {
      DifferenceRow(t, d, i);
      chi := chi + SumReal(RowOf(d, i, t.S() + 1));
      SumRealPrefix(sums, i);
    }
    assert sums[..t.R() + 1] == sums;
    MarginsContributeZero(t);
  }

  /**
   * `chi_square_test(x, y)`: TypeError unless both arguments are Series; a NaN result when no
   * position has both values; otherwise Pearson's statistic of their cross table, which is
   * never negative.
   */
  method ChiSquareTest(a: Arg, b: Arg) returns (r: Result<real, StatError>)
    ensures !(a.Series? && b.Series?) ==> r == Failure(TypeError)
    ensures a.Series? && b.Series? && GrandTotal(Build(a.values, b.values)) == 0 ==> r == Failure(NotANumber)
    ensures a.Series? && b.Series? && GrandTotal(Build(a.values, b.values)) > 0 ==>
      r == Success(ChiSquare(Build(a.values, b.values))) && r.value >= 0.0
  {
    if !a.Series? || !b.Series? {
      return Failure(TypeError);
    }
    var t := Build(a.values, b.values);
    if t.cells[t.R()][t.S()] == 0 {
      // No observation: every frequency is 0/0, and NaN spreads to the sum.
      return Failure(NotANumber);
    }
    var freq := FillFrequencyRow(t);
    var expected := FillExpectedValues(t, freq);
    var difference := FillDifferenceTable(t, expected);
    var chi := SumDifferenceTable(t, difference);
    ChiSquareBounds(t);
    return Success(chi);
  }

  // ------------------------------------------------- crammer_V and contigency_coefficient

  lemma QuotientNonNegative(x: real, d: int)
    requires x >= 0.0 && d > 0
    ensures x / d as real >= 0.0
  {
  }

  lemma RatioBelowOne(x: real, n: real)
    requires x >= 0.0 && n > 0.0
    ensures 0.0 <= x / (x + n) < 1.0
  {
  }

  /**
   * The closed form of `crammer_V`, squared, over the chi-square value and the rebuilt table:
   * chi^2 / (n * min(r - 1, s - 1)), with r and s the table's dimensions less the margin.
   * A zero denominator gives NaN.
   */
  function CramerQuotient(chi: real, t: Table): Result<real, StatError>
    requires Shaped(t)
  {
    var n := t.cells[t.R()][t.S()];
    var rows := |t.cells| - 1;
    var cols := |t.cells[0]| - 1;
    var denominator := n * Min(rows - 1, cols - 1);
    if denominator == 0 then Failure(NotANumber) else Success(chi / denominator as real)
  }

  /** The closed form of `contigency_coefficient`, squared: chi^2 / (chi^2 + n). */
  function ContingencyQuotient(chi: real, t: Table): Result<real, StatError>
    requires Shaped(t)
  {
    var n := t.cells[t.R()][t.S()];
    if chi + n as real == 0.0 then Failure(NotANumber) else Success(chi / (chi + n as real))
  }

  /** With one category on either side, chi^2 is 0 and the denominator is 0: V^2 is NaN (0/0). */
  lemma CramerUndefined(t: Table)
    requires WellFormed(t)
    requires t.R() == 1 || t.S() == 1
    ensures ChiSquare(t) == 0.0
    ensures CramerQuotient(ChiSquare(t), t) == Failure(NotANumber)
  {
    SingleCategoryChiSquare(t);
    CramerZeroDenominator(ChiSquare(t), t);
  }

  /** With one category on either side the denominator n * min(r - 1, s - 1) is 0, whatever chi^2 is. */
  lemma CramerZeroDenominator(chi: real, t: Table)
    requires Shaped(t) && t.R() >= 1 && t.S() >= 1
    requires t.R() == 1 || t.S() == 1
    ensures CramerQuotient(chi, t) == Failure(NotANumber)
  {
    assert Min(t.R() - 1, t.S() - 1) == 0;
  }

  /** With at least two categories on both sides, V^2 = chi^2 / (n * min(r - 1, s - 1)) and it lies in [0, 1]. */
  lemma CramerDefined(t: Table)
    requires WellFormed(t)
    requires t.R() >= 2 && t.S() >= 2
    ensures CramerQuotient(ChiSquare(t), t).Success?
    ensures CramerQuotient(ChiSquare(t), t).value == ChiSquare(t) / (GrandTotal(t) * Min(t.R() - 1, t.S() - 1)) as real
    ensures 0.0 <= CramerQuotient(ChiSquare(t), t).value <= 1.0
  {
    var n, k := GrandTotal(t), Min(t.R() - 1, t.S() - 1);
    TotalPositive(t);
    NatMulPositive(n, k);
    ChiSquareBounds(t);
    QuotientNonNegative(ChiSquare(t), n * k);
    CramerAtMostOne(t);
  }

  /** With at least two categories on both sides, V^2 <= 1: Cramer's V is normalised. */
  lemma CramerAtMostOne(t: Table)
    requires WellFormed(t) && t.R() >= 2 && t.S() >= 2
    ensures CramerQuotient(ChiSquare(t), t).Success?
    ensures CramerQuotient(ChiSquare(t), t).value <= 1.0
  {
    TotalPositive(t);
    ChiSquareAtMost(t);
    CramerBound(ChiSquare(t), t);
  }

  /** Any value with chi + n <= r * n and chi + n <= s * n gives a quotient of at most 1. */
  lemma CramerBound(chi: real, t: Table)
    requires Shaped(t) && t.R() >= 2 && t.S() >= 2 && GrandTotal(t) > 0
    requires chi + Total(t) <= t.R() as real * Total(t)
    requires chi + Total(t) <= t.S() as real * Total(t)
    ensures CramerQuotient(chi, t).Success?
    ensures CramerQuotient(chi, t).value <= 1.0
  {
    CramerArith(chi, GrandTotal(t), t.R(), t.S());
  }

  /** chi + n <= a * n and chi + n <= b * n give chi / (n * min(a - 1, b - 1)) <= 1. */
  lemma CramerArith(chi: real, n: nat, a: int, b: int)
    requires a >= 2 && b >= 2 && n > 0
    requires chi + n as real <= a as real * n as real && chi + n as real <= b as real * n as real
    ensures chi / (n * Min(a - 1, b - 1)) as real <= 1.0
  {
    var k := Min(a - 1, b - 1);
    var d := (n * k) as real;
    assert chi <= d by {
      if k == a - 1 {
        assert (a - 1) as real * n as real == a as real * n as real - n as real;
      } else {
        assert (b - 1) as real * n as real == b as real * n as real - n as real;
      }
      assert d == k as real * n as real;
    }
    AtMostOne(chi, d);
  }

  lemma AtMostOne(x: real, d: real)
    requires d > 0.0 && x <= d
    ensures x / d <= 1.0
  {
  }

  /** On a table with observations, 0 <= C^2 < 1. */
  lemma ContingencyQuotientBounds(t: Table)
    requires WellFormed(t)
    ensures ContingencyQuotient(ChiSquare(t), t).Success?
    ensures 0.0 <= ContingencyQuotient(ChiSquare(t), t).value < 1.0
  {
    TotalPositive(t);
    ChiSquareBounds(t);
    RatioBelowOne(ChiSquare(t), Total(t));
  }

  /**
   * The worked numbers of a 4 x 4 table with n = 100 and chi^2 = 7.2: V^2 = 7.2 / 300 and
   * C^2 = 7.2 / 107.2, so V and C lie within 0.01 of the expected 0.1549 and 0.2592
   * (compared through their squares, all four quantities being non-negative).
   */
  lemma WorkedExample(t: Table)
    requires Shaped(t) && t.R() == 4 && t.S() == 4 && GrandTotal(t) == 100
    ensures CramerQuotient(7.2, t) == Success(0.024)
    ensures ContingencyQuotient(7.2, t) == Success(7.2 / 107.2)
    ensures 0.1449 * 0.1449 <= CramerQuotient(7.2, t).value <= 0.1649 * 0.1649
    ensures 0.2492 * 0.2492 <= ContingencyQuotient(7.2, t).value <= 0.2692 * 0.2692
  {
  }

  /**
   * `crammer_V(x, y)` squared: TypeError unless both arguments are Series, NaN when the
   * chi-square test gives NaN, otherwise the closed form over the chi-square value and the
   * rebuilt cross table.
   */
  method CramerVSquared(a: Arg, b: Arg) returns (r: Result<real, StatError>)
    ensures !(a.Series? && b.Series?) ==> r == Failure(TypeError)
    ensures a.Series? && b.Series? && GrandTotal(Build(a.values, b.values)) == 0 ==> r == Failure(NotANumber)
    ensures a.Series? && b.Series? && GrandTotal(Build(a.values, b.values)) > 0 ==>
      r == CramerQuotient(ChiSquare(Build(a.values, b.values)), Build(a.values, b.values))
  {
    if !a.Series? || !b.Series? {
      return Failure(TypeError);
    }
    var chi := ChiSquareTest(a, b);
    if chi.Failure? {
      return Failure(chi.error);
    }
    var t := Build(a.values, b.values);
    return CramerQuotient(chi.value, t);
  }

  /**
   * `contigency_coefficient(x, y)` squared: TypeError unless both arguments are Series, NaN when
   * the chi-square test gives NaN, otherwise chi^2 / (chi^2 + n).
   */
  method ContingencyCoefficientSquared(a: Arg, b: Arg) returns (r: Result<real, StatError>)
    ensures !(a.Series? && b.Series?) ==> r == Failure(TypeError)
    ensures a.Series? && b.Series? && GrandTotal(Build(a.values, b.values)) == 0 ==> r == Failure(NotANumber)
    ensures a.Series? && b.Series? && GrandTotal(Build(a.values, b.values)) > 0 ==>
      r == ContingencyQuotient(ChiSquare(Build(a.values, b.values)), Build(a.values, b.values))
  {
    if !a.Series? || !b.Series? {
      return Failure(TypeError);
    }
    var chi := ChiSquareTest(a, b);
    if chi.Failure? {
      return Failure(chi.error);
    }
    var t := Build(a.values, b.values);
    return ContingencyQuotient(chi.value, t);
  }
}
