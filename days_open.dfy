/**
 * `analyze_case_days_open` of src/hypothesis/hypothesis_5.py: how many days each case stayed
 * open (closing date minus notification date), summarised for the cases notified up to, or
 * after, a cut-off date. Dates are day numbers; a missing date is None (NaT).
 */
module DaysOpen {
  import opened Wrappers
  import opened Sequences
  import opened Frames

  /** The closing date column. */
  const Closed: Name := "DT_ENCERRA"
  /** The notification date column. */
  const Opened: Name := "DT_NOTIFIC"
  /** The column the function adds. */
  const DaysName: Name := "number of days case open"

  /** The three ValueErrors: a missing required column, an unparseable cut-off, an unknown period. */
  datatype DaysError = MissingColumn(name: Name) | InvalidDate | InvalidPeriod

  /**
   * `pd.to_datetime(date_limit)`: a day number, NaT (what '', 'NaT' or 'nan' parse to), or a
   * string it rejects with ValueError.
   */
  datatype Cutoff = Day(day: int) | NaT | Unparseable

  /** The integer part of the returned dict; std_dev, median, q1 and q3 are not modelled. */
  datatype Stats = Stats(totalRecords: nat, sumOfDays: int, averageDays: real, minDays: int, maxDays: int)

  // ---------------------------------------------- the column operations

  /** `(pd.to_datetime(DT_ENCERRA) - pd.to_datetime(DT_NOTIFIC)).dt.days`: NaT on either side gives NaN. */
  function DaysBetween(closing: seq<Option<int>>, notified: seq<Option<int>>): (r: seq<Option<int>>)
    requires |closing| == |notified|
    ensures |r| == |closing|
    ensures forall k :: 0 <= k < |r| ==>
      r[k] == if closing[k].Some? && notified[k].Some? then Some(closing[k].value - notified[k].value) else None
  {
    seq(|closing|, k requires 0 <= k < |closing| =>
      if closing[k].Some? && notified[k].Some? then Some(closing[k].value - notified[k].value) else None)
  }

  /** `days >= 0`, where NaN compares false. */
  function NonNegative(days: seq<Option<int>>): (m: seq<bool>)
    ensures |m| == |days| && forall k :: 0 <= k < |m| ==> (m[k] <==> days[k].Some? && days[k].value >= 0)
  {
    seq(|days|, k requires 0 <= k < |days| => days[k].Some? && days[k].value >= 0)
  }

  /** The notification date is on the requested side of the cut-off; any comparison with NaT is false. */
  predicate OnSide(notified: Option<int>, limit: Cutoff, before: bool)
  {
    notified.Some? && limit.Day? && (if before then notified.value <= limit.day else notified.value > limit.day)
  }

  /** `DT_NOTIFIC <= limit` for 'before' and `DT_NOTIFIC > limit` for 'after'. */
  function InPeriod(notified: seq<Option<int>>, limit: Cutoff, before: bool): (m: seq<bool>)
    ensures |m| == |notified| && forall k :: 0 <= k < |m| ==> (m[k] <==> OnSide(notified[k], limit, before))
  {
    seq(|notified|, k requires 0 <= k < |notified| => OnSide(notified[k], limit, before))
  }

  /** The value of a cell, reading a missing one as 0 (no retained day count is missing; see Retained). */
  function Value(c: Option<int>): int
  {
    if c.Some? then c.value else 0
  }

  /** The values of a column. */
  function Values(cells: seq<Option<int>>): (r: seq<int>)
    ensures |r| == |cells| && forall k :: 0 <= k < |r| ==> cells[k].Some? ==> cells[k] == Some(r[k])
  {
    seq(|cells|, k requires 0 <= k < |cells| => Value(cells[k]))
  }

  // ---------------------------------------------- the pipeline

  /** Duplicate index labels and duplicate column names dropped, first kept, then the index reset. */
  function Cleaned(df: Frame): (r: Frame)
    requires Rectangular(df)
    ensures Rectangular(r) && r.index == Range(|r.index|)
  {
    ResetIndex(DropDuplicateColumns(DropDuplicateRows(df)))
  }

  /** The required columns survive cleaning. */
  lemma CleanedNames(df: Frame)
    requires Rectangular(df) && Closed in Names(df) && Opened in Names(df)
    ensures Closed in Names(Cleaned(df)) && Opened in Names(Cleaned(df))
  {
    DropDuplicateColumnsKeepsFirst(DropDuplicateRows(df));
  }

  /** The cleaned frame with its day counts added. */
  function WithDays(df: Frame): (r: Frame)
    requires Rectangular(df) && Closed in Names(df) && Opened in Names(df)
    ensures Rectangular(r)
  {
    var clean := Cleaned(df);
    CleanedNames(df);
    CellsLength(clean, Closed);
    CellsLength(clean, Opened);
    SetColumn(clean, DaysName, DaysBetween(Cells(clean, Closed), Cells(clean, Opened)))
  }

  /** The three columns of WithDays: the two dates as cleaned, and their difference. */
  lemma WithDaysCells(df: Frame)
    requires Rectangular(df) && Closed in Names(df) && Opened in Names(df)
    ensures var w, clean := WithDays(df), Cleaned(df);
      && Closed in Names(clean) && Opened in Names(clean)
      && Closed in Names(w) && Opened in Names(w) && DaysName in Names(w)
      && |Cells(clean, Closed)| == |Cells(clean, Opened)| == |clean.index|
      && w.index == clean.index
      && Cells(w, Closed) == Cells(clean, Closed)
      && Cells(w, Opened) == Cells(clean, Opened)
      && Cells(w, DaysName) == DaysBetween(Cells(clean, Closed), Cells(clean, Opened))
  {
    var clean := Cleaned(df);
    CleanedNames(df);
    CellsLength(clean, Closed);
    CellsLength(clean, Opened);
    var days := DaysBetween(Cells(clean, Closed), Cells(clean, Opened));
    SetColumnCells(clean, DaysName, days, Closed);
    SetColumnCells(clean, DaysName, days, Opened);
    SetColumnCells(clean, DaysName, days, DaysName);
  }

  /** `df = df[df['number of days case open'] >= 0]`. */
  function Retained(df: Frame): (r: Frame)
    requires Rectangular(df) && Closed in Names(df) && Opened in Names(df)
    ensures Rectangular(r) && Closed in Names(r) && Opened in Names(r) && DaysName in Names(r)
  {
    var w := WithDays(df);
    WithDaysCells(df);
    CellsLength(w, DaysName);
    SelectRows(w, NonNegative(Cells(w, DaysName)))
  }

  /** Row k of the retained frame is row r.index[k] of the cleaned frame, with both dates present and a day count of at least 0. */
  predicate RetainedRow(r: Frame, clean: Frame, k: int)
    requires Closed in Names(r) && Opened in Names(r) && DaysName in Names(r)
    requires Closed in Names(clean) && Opened in Names(clean)
    requires 0 <= k < |r.index|
  {
    KeptRow(r.index, Cells(r, Closed), Cells(r, Opened), Cells(r, DaysName), Cells(clean, Closed), Cells(clean, Opened), |clean.index|, k)
  }

  /** RetainedRow on the columns themselves: row k points at row j = index[k] of the n cleaned rows. */
  predicate KeptRow(index: seq<int>, closing: seq<Option<int>>, notified: seq<Option<int>>, days: seq<Option<int>>,
                    cleanClosing: seq<Option<int>>, cleanNotified: seq<Option<int>>, n: nat, k: int)
    requires 0 <= k < |index|
  {
    var j := index[k];
    && 0 <= j < n
    && j < |cleanClosing| && j < |cleanNotified|
    && k < |closing| && k < |notified| && k < |days|
    && closing[k] == cleanClosing[j] && cleanClosing[j].Some?
    && notified[k] == cleanNotified[j] && cleanNotified[j].Some?
    && days[k] == Some(cleanClosing[j].value - cleanNotified[j].value)
    && days[k].value >= 0
  }

  /**
   * The retained rows, described row by row: row k of the result is row j = index[k] of the
   * cleaned frame, both its dates are present, and its day count is closing minus notification,
   * never negative.
   */
  lemma RetainedRows(df: Frame)
    requires Rectangular(df) && Closed in Names(df) && Opened in Names(df)
    ensures Closed in Names(Cleaned(df)) && Opened in Names(Cleaned(df))
    ensures forall k :: 0 <= k < |Retained(df).index| ==> RetainedRow(Retained(df), Cleaned(df), k)
  {
    CleanedNames(df);
    forall k | 0 <= k < |Retained(df).index| ensures RetainedRow(Retained(df), Cleaned(df), k) {
      RetainedRowAt(df, k);
    }
  }

  lemma RetainedRowAt(df: Frame, k: int)
    requires Rectangular(df) && Closed in Names(df) && Opened in Names(df)
    requires 0 <= k < |Retained(df).index|
    ensures Closed in Names(Cleaned(df)) && Opened in Names(Cleaned(df))
    ensures RetainedRow(Retained(df), Cleaned(df), k)
  {
    var w, clean := WithDays(df), Cleaned(df);
    WithDaysCells(df);
    CellsLength(w, DaysName);
    SelectedRow(w, clean, k);
  }

  /**
   * Row k of w[days >= 0], where w is a frame of the cleaned rows with the day counts added:
   * it is row index[k] of the cleaned frame, with both dates present and a count of at least 0.
   */
  lemma SelectedRow(w: Frame, clean: Frame, k: int)
    requires Rectangular(w) && Closed in Names(w) && Opened in Names(w) && DaysName in Names(w)
    requires Closed in Names(clean) && Opened in Names(clean)
    requires |Cells(clean, Closed)| == |Cells(clean, Opened)| == |clean.index| == |w.index|
    requires w.index == clean.index == Range(|clean.index|)
    requires Cells(w, Closed) == Cells(clean, Closed) && Cells(w, Opened) == Cells(clean, Opened)
    requires Cells(w, DaysName) == DaysBetween(Cells(clean, Closed), Cells(clean, Opened))
    requires 0 <= k < |SelectRows(w, NonNegative(Cells(w, DaysName))).index|
    ensures RetainedRow(SelectRows(w, NonNegative(Cells(w, DaysName))), clean, k)
  {
    var closing, notified := Cells(clean, Closed), Cells(clean, Opened);
    var m := NonNegative(Cells(w, DaysName));
    var r, p := SelectRows(w, m), Positions(m);
    SelectRowsAt(w, m, Closed);
    SelectRowsAt(w, m, Opened);
    SelectRowsAt(w, m, DaysName);
    var j := p[k];
    assert r.index[k] == w.index[j] == j;
    KeptRowAt(r.index, Cells(r, Closed), Cells(r, Opened), Cells(r, DaysName), closing, notified, |clean.index|, k, j);
  }

  /** The facts about row k of a selection that make it a kept row. */
  lemma KeptRowAt(index: seq<int>, closing: seq<Option<int>>, notified: seq<Option<int>>, days: seq<Option<int>>,
                  cleanClosing: seq<Option<int>>, cleanNotified: seq<Option<int>>, n: nat, k: int, j: int)
    requires 0 <= k < |index| == |closing| == |notified| == |days| && index[k] == j
    requires |cleanClosing| == |cleanNotified| == n && 0 <= j < n
    requires closing[k] == cleanClosing[j] && notified[k] == cleanNotified[j]
    requires days[k] == DaysBetween(cleanClosing, cleanNotified)[j]
    requires NonNegative(DaysBetween(cleanClosing, cleanNotified))[j]
    ensures KeptRow(index, closing, notified, days, cleanClosing, cleanNotified, n, k)
  {
    KeptDays(cleanClosing, cleanNotified, j);
  }

  /** A day count that passes `>= 0` comes from two present dates, closing not before notification. */
  lemma KeptDays(closing: seq<Option<int>>, notified: seq<Option<int>>, j: int)
    requires |closing| == |notified| && 0 <= j < |closing|
    requires NonNegative(DaysBetween(closing, notified))[j]
    ensures closing[j].Some? && notified[j].Some? && closing[j].value - notified[j].value >= 0
    ensures DaysBetween(closing, notified)[j] == Some(closing[j].value - notified[j].value)
  {
  }

  /** A row of the cleaned frame is retained exactly when both its dates are present and closing is not before notification. */
  lemma RetainedExactly(df: Frame, j: int)
    requires Rectangular(df) && Closed in Names(df) && Opened in Names(df)
    requires 0 <= j < |Cleaned(df).index|
    ensures var clean := Cleaned(df);
      Closed in Names(clean) && Opened in Names(clean) &&
      |Cells(clean, Closed)| == |Cells(clean, Opened)| == |clean.index| &&
      (j in Retained(df).index <==>
        Cells(clean, Closed)[j].Some? && Cells(clean, Opened)[j].Some?
        && Cells(clean, Closed)[j].value >= Cells(clean, Opened)[j].value)
  {
    var w, clean := WithDays(df), Cleaned(df);
    WithDaysCells(df);
    CellsLength(w, DaysName);
    var m := NonNegative(Cells(w, DaysName));
    SelectRangeMember(|w.index|, m, j);
  }

  /** `df_filtered`: the rows whose notification date is up to (before) or after the cut-off. */
  function Period(kept: Frame, limit: Cutoff, before: bool): (r: Frame)
    requires Rectangular(kept) && Opened in Names(kept)
    ensures Rectangular(r) && Names(r) == Names(kept)
  {
    CellsLength(kept, Opened);
    SelectRows(kept, InPeriod(Cells(kept, Opened), limit, before))
  }

  /** `df_filtered['number of days case open']`: the day counts of the rows in the period. */
  function PeriodDays(kept: Frame, limit: Cutoff, before: bool): seq<int>
    requires Rectangular(kept) && Opened in Names(kept) && DaysName in Names(kept)
  {
    Values(Cells(Period(kept, limit, before), DaysName))
  }

  /**
   * A row of the cleaned frame is in the period exactly when it was retained and its
   * notification date is up to the cut-off ('before') or after it ('after'); with a NaT
   * cut-off no row is.
   */
  lemma PeriodExactly(df: Frame, limit: Cutoff, before: bool, j: int)
    requires Rectangular(df) && Closed in Names(df) && Opened in Names(df)
    requires 0 <= j < |Cleaned(df).index|
    ensures var clean := Cleaned(df);
      Opened in Names(clean) && |Cells(clean, Opened)| == |clean.index| &&
      (j in Period(Retained(df), limit, before).index <==>
        j in Retained(df).index && OnSide(Cells(clean, Opened)[j], limit, before))
  {
    RetainedRows(df);
    CellsLength(Cleaned(df), Opened);
    PeriodRows(Retained(df), Cleaned(df), limit, before, j);
  }

  /** On rows taken from `clean`, the period filter keeps exactly the rows on the requested side. */
  lemma PeriodRows(kept: Frame, clean: Frame, limit: Cutoff, before: bool, j: int)
    requires Rectangular(kept) && Closed in Names(kept) && Opened in Names(kept) && DaysName in Names(kept)
    requires Closed in Names(clean) && Opened in Names(clean) && 0 <= j < |Cells(clean, Opened)|
    requires forall k :: 0 <= k < |kept.index| ==> RetainedRow(kept, clean, k)
    ensures j in Period(kept, limit, before).index <==>
      j in kept.index && OnSide(Cells(clean, Opened)[j], limit, before)
  {
    CellsLength(kept, Opened);
    var notified := Cells(kept, Opened);
    var m := InPeriod(notified, limit, before);
    var c := Cells(clean, Opened)[j];
    var inPeriod := OnSide(c, limit, before);
    assert Period(kept, limit, before).index == Select(kept.index, m);
    SelectElements(kept.index, m, j);
    if j in Select(kept.index, m) {
      var k :| 0 <= k < |kept.index| && m[k] && kept.index[k] == j;
      assert RetainedRow(kept, clean, k);
      assert notified[k] == c;
    }
    if j in kept.index && inPeriod {
      var k :| 0 <= k < |kept.index| && kept.index[k] == j;
      assert RetainedRow(kept, clean, k);
      assert notified[k] == c;
      assert m[k];
    }
  }

  // ---------------------------------------------- the summary

  function MinOf(s: seq<int>): (m: int)
    requires s != []
    ensures m in s && forall k :: 0 <= k < |s| ==> m <= s[k]
  {
    if |s| == 1 then s[0]
    else
      var p := MinOf(s[..|s| - 1]);
      assert s == s[..|s| - 1] + [s[|s| - 1]];
      if s[|s| - 1] < p then s[|s| - 1] else p
  }

  function MaxOf(s: seq<int>): (m: int)
    requires s != []
    ensures m in s && forall k :: 0 <= k < |s| ==> s[k] <= m
  {
    if |s| == 1 then s[0]
    else
      var p := MaxOf(s[..|s| - 1]);
      assert s == s[..|s| - 1] + [s[|s| - 1]];
      if s[|s| - 1] > p then s[|s| - 1] else p
  }

  /** `record_count`, `sum_of_days`, `average_days` (0 when empty), and `min` and `max` (0 when empty). */
  function Summarize(days: seq<int>): Stats
  {
    var n := |days|;
    var total := SumInt(days);
    Stats(n, total,
          if n > 0 then total as real / n as real else 0.0,
          if n > 0 then MinOf(days) else 0,
          if n > 0 then MaxOf(days) else 0)
  }

  lemma {:induction false} SumBounds(s: seq<int>, lo: int, hi: int)
    requires forall k :: 0 <= k < |s| ==> lo <= s[k] <= hi
    ensures |s| * lo <= SumInt(s) <= |s| * hi
  {
    if s != [] {
      var n := |s| - 1;
      SumBounds(s[..n], lo, hi);
      assert (n + 1) * lo == n * lo + lo;
      assert (n + 1) * hi == n * hi + hi;
    }
  }

  lemma DivBounds(sum: int, n: int, lo: int, hi: int)
    requires n > 0 && n * lo <= sum <= n * hi
    ensures lo as real <= sum as real / n as real <= hi as real
  {
    assert (n * lo) as real == n as real * lo as real;
    assert (n * hi) as real == n as real * hi as real;
  }

  /**
   * An empty selection summarises to zeros; otherwise the count and sum are those of the days,
   * min and max are attained, and min <= average <= max.
   */
  lemma SummarizeBounds(days: seq<int>)
    ensures var st := Summarize(days);
      && st.totalRecords == |days| && st.sumOfDays == SumInt(days)
      && (days == [] ==> st == Stats(0, 0, 0.0, 0, 0))
      && (days != [] ==>
            && st.minDays in days && st.maxDays in days
            && (forall k :: 0 <= k < |days| ==> st.minDays <= days[k] <= st.maxDays)
            && st.minDays as real <= st.averageDays <= st.maxDays as real)
  {
    if days != [] {
      var lo, hi := MinOf(days), MaxOf(days);
      SumBounds(days, lo, hi);
      DivBounds(SumInt(days), |days|, lo, hi);
    }
  }

  // ---------------------------------------------- analyze_case_days_open

  /**
   * `analyze_case_days_open(df, date_limit, period)`. The cut-off arrives already parsed (see
   * Cutoff). Checks run in the source's order: the two columns, then the cut-off, then the period.
   */
  function AnalyzeCaseDaysOpen(df: Frame, dateLimit: Cutoff, period: string): (r: Result<Stats, DaysError>)
    requires Rectangular(df)
    ensures Closed !in Names(df) ==> r == Failure(MissingColumn(Closed))
    ensures Closed in Names(df) && Opened !in Names(df) ==> r == Failure(MissingColumn(Opened))
    ensures Closed in Names(df) && Opened in Names(df) && dateLimit.Unparseable? ==> r == Failure(InvalidDate)
    ensures Closed in Names(df) && Opened in Names(df) && !dateLimit.Unparseable? && period != "before" && period != "after"
      ==> r == Failure(InvalidPeriod)
    ensures r.Success? <==>
      Closed in Names(df) && Opened in Names(df) && !dateLimit.Unparseable? && (period == "before" || period == "after")
  {
    if Closed !in Names(df) then Failure(MissingColumn(Closed))
    else if Opened !in Names(df) then Failure(MissingColumn(Opened))
    else if dateLimit.Unparseable? then Failure(InvalidDate)
    else
      var kept := Retained(df);
      if period == "before" then Success(Summarize(PeriodDays(kept, dateLimit, true)))
      else if period == "after" then Success(Summarize(PeriodDays(kept, dateLimit, false)))
      else Failure(InvalidPeriod)
  }

  /** A cut-off that parses to NaT compares false with every date: either period is empty and summarises to zeros. */
  lemma NaTCutoff(df: Frame, period: string)
    requires Rectangular(df) && Closed in Names(df) && Opened in Names(df)
    requires period == "before" || period == "after"
    ensures AnalyzeCaseDaysOpen(df, NaT, period) == Success(Stats(0, 0, 0.0, 0, 0))
  {
    var kept := Retained(df);
    NaTPeriodEmpty(kept, period == "before");
    assert AnalyzeCaseDaysOpen(df, NaT, period) == Success(Summarize(PeriodDays(kept, NaT, period == "before")));
  }

  /** With a NaT cut-off the period holds no row. */
  lemma NaTPeriodEmpty(kept: Frame, before: bool)
    requires Rectangular(kept) && Opened in Names(kept) && DaysName in Names(kept)
    ensures PeriodDays(kept, NaT, before) == []
  {
    CellsLength(kept, Opened);
    CellsLength(kept, DaysName);
    var m := InPeriod(Cells(kept, Opened), NaT, before);
    SelectRowsCells(kept, m, DaysName);
    SelectNone(Cells(kept, DaysName), m);
  }

  /**
   * 'before' and 'after' split the retained rows: every retained row lands in exactly one of
   * them, so their day counts together are the retained day counts.
   */
  lemma PeriodsPartition(df: Frame, limit: int)
    requires Rectangular(df) && Closed in Names(df) && Opened in Names(df)
    ensures var kept := Retained(df);
      && |PeriodDays(kept, Day(limit), true)| + |PeriodDays(kept, Day(limit), false)| == |kept.index|
      && multiset(PeriodDays(kept, Day(limit), true)) + multiset(PeriodDays(kept, Day(limit), false))
           == multiset(Values(Cells(kept, DaysName)))
      && SumInt(PeriodDays(kept, Day(limit), true)) + SumInt(PeriodDays(kept, Day(limit), false))
           == SumInt(Values(Cells(kept, DaysName)))
  {
    var kept := Retained(df);
    RetainedNotified(df);
    PeriodSplit(kept, limit);
  }

  /** Every retained row has a notification date. */
  lemma RetainedNotified(df: Frame)
    requires Rectangular(df) && Closed in Names(df) && Opened in Names(df)
    ensures forall k :: 0 <= k < |Cells(Retained(df), Opened)| ==> Cells(Retained(df), Opened)[k].Some?
  {
    var kept := Retained(df);
    RetainedRows(df);
    CellsLength(kept, Opened);
    forall k | 0 <= k < |Cells(kept, Opened)| ensures Cells(kept, Opened)[k].Some? {
      assert RetainedRow(kept, Cleaned(df), k);
    }
  }

  /** When every row has a notification date, 'before' and 'after' take complementary rows. */
  lemma PeriodSplit(kept: Frame, limit: int)
    requires Rectangular(kept) && Opened in Names(kept) && DaysName in Names(kept)
    requires forall k :: 0 <= k < |Cells(kept, Opened)| ==> Cells(kept, Opened)[k].Some?
    ensures |PeriodDays(kept, Day(limit), true)| + |PeriodDays(kept, Day(limit), false)| == |kept.index|
    ensures multiset(PeriodDays(kept, Day(limit), true)) + multiset(PeriodDays(kept, Day(limit), false))
      == multiset(Values(Cells(kept, DaysName)))
    ensures SumInt(PeriodDays(kept, Day(limit), true)) + SumInt(PeriodDays(kept, Day(limit), false))
      == SumInt(Values(Cells(kept, DaysName)))
  {
    CellsLength(kept, Opened);
    CellsLength(kept, DaysName);
    var notified, days := Cells(kept, Opened), Cells(kept, DaysName);
    var before, after := InPeriod(notified, Day(limit), true), InPeriod(notified, Day(limit), false);
    SelectSplit(Values(days), before, after);
    SelectSplitSum(Values(days), before, after);
    SelectRowsCells(kept, before, DaysName);
    SelectRowsCells(kept, after, DaysName);
    assert Period(kept, Day(limit), true) == SelectRows(kept, before);
    assert Period(kept, Day(limit), false) == SelectRows(kept, after);
    SelectValues(days, before);
    SelectValues(days, after);
  }

  /** Selecting cells and then taking values is taking values and then selecting. */
  lemma SelectValues(cells: seq<Option<int>>, m: seq<bool>)
    requires |m| == |cells|
    ensures Values(Select(cells, m)) == Select(Values(cells), m)
  {
    SelectMapped(cells, Values(cells), m, Value);
  }

  /**
   * For one frame and one cut-off, the 'before' and 'after' results together count every
   * retained case once: their record counts and their sums of days add up to the retained ones.
   */
  lemma BeforeAfterTotals(df: Frame, limit: int)
    requires Rectangular(df) && Closed in Names(df) && Opened in Names(df)
    ensures var b, a := AnalyzeCaseDaysOpen(df, Day(limit), "before"), AnalyzeCaseDaysOpen(df, Day(limit), "after");
      var days := Values(Cells(Retained(df), DaysName));
      && b.Success? && a.Success?
      && b.value.totalRecords + a.value.totalRecords == |days| == |Retained(df).index|
      && b.value.sumOfDays + a.value.sumOfDays == SumInt(days)
  {
    var kept := Retained(df);
    var before, after := PeriodDays(kept, Day(limit), true), PeriodDays(kept, Day(limit), false);
    assert AnalyzeCaseDaysOpen(df, Day(limit), "before") == Success(Summarize(before));
    assert AnalyzeCaseDaysOpen(df, Day(limit), "after") == Success(Summarize(after));
    PeriodsPartition(df, limit);
    CellsLength(kept, DaysName);
  }

  /**
   * A successful result summarises its period: all zeros when no case falls in it, and
   * otherwise 0 <= min <= average <= max with the count and sum of the period's day counts.
   */
  lemma AnalyzeCaseDaysOpenBounds(df: Frame, dateLimit: Cutoff, period: string)
    requires Rectangular(df)
    requires AnalyzeCaseDaysOpen(df, dateLimit, period).Success?
    ensures var st := AnalyzeCaseDaysOpen(df, dateLimit, period).value;
      && (st.totalRecords == 0 ==> st == Stats(0, 0, 0.0, 0, 0))
      && (st.totalRecords > 0 ==>
            0 <= st.minDays && st.minDays as real <= st.averageDays <= st.maxDays as real && 0 <= st.sumOfDays)
  {
    var kept := Retained(df);
    RetainedRows(df);
    var before := period == "before";
    var days := PeriodDays(kept, dateLimit, before);
    assert AnalyzeCaseDaysOpen(df, dateLimit, period).value == Summarize(days);
    PeriodDaysNonNegative(df, dateLimit, before);
    SummarizeBounds(days);
    if days != [] {
      SumBounds(days, 0, MaxOf(days));
    }
  }

  /** Every day count in a period is at least 0. */
  lemma PeriodDaysNonNegative(df: Frame, limit: Cutoff, before: bool)
    requires Rectangular(df) && Closed in Names(df) && Opened in Names(df)
    ensures forall k :: 0 <= k < |PeriodDays(Retained(df), limit, before)| ==> PeriodDays(Retained(df), limit, before)[k] >= 0
  {
    var kept := Retained(df);
    RetainedDaysNonNegative(df);
    CellsLength(kept, Opened);
    CellsLength(kept, DaysName);
    var days := Cells(kept, DaysName);
    var m := InPeriod(Cells(kept, Opened), limit, before);
    SelectRowsCells(kept, m, DaysName);
    SelectValues(days, m);
    SelectAt(Values(days), m);
  }

  /** Every retained day count is present and at least 0. */
  lemma RetainedDaysNonNegative(df: Frame)
    requires Rectangular(df) && Closed in Names(df) && Opened in Names(df)
    ensures forall k :: 0 <= k < |Cells(Retained(df), DaysName)| ==>
      Cells(Retained(df), DaysName)[k].Some? && Values(Cells(Retained(df), DaysName))[k] >= 0
  {
    var kept := Retained(df);
    RetainedRows(df);
    CellsLength(kept, DaysName);
    forall k | 0 <= k < |Cells(kept, DaysName)|
      ensures Cells(kept, DaysName)[k].Some? && Values(Cells(kept, DaysName))[k] >= 0
    {
      assert RetainedRow(kept, Cleaned(df), k);
    }
  }
}
