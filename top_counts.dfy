/**
 * `top_3_counts_numpy`, which src/utils/statistic.py and src/hypothesis/hypothesis_5.py define
 * identically: check that every requested column exists, count each one's non-missing cells
 * into a dict, sort the dict's items by count, largest first and stably, and keep three.
 */
module TopCounts {
  import opened Wrappers
  import opened Sequences
  import opened Frames

  /** TypeError("Missing column in DataFrame: <name>"). */
  datatype TopError = MissingColumn(name: Name)

  /** One item of the `counts` dict: a column name and its number of non-missing cells. */
  type Entry = (Name, nat)

  // ---------------------------------------------- counting

  /** `np.count_nonzero(~pd.isna(cells))`. */
  function NonMissing(cells: seq<Option<int>>): (n: nat)
    ensures n <= |cells|
  {
    if cells == [] then 0
    else NonMissing(cells[..|cells| - 1]) + (if cells[|cells| - 1].Some? then 1 else 0)
  }

  /**
   * The non-missing cells of `df[name].to_numpy()`. When several columns share the name,
   * `df[name]` is all of them, so all of them are counted.
   */
  function CountColumn(columns: seq<Column>, name: Name): nat
  {
    if columns == [] then 0
    else
      var c := columns[|columns| - 1];
      CountColumn(columns[..|columns| - 1], name) + (if c.name == name then NonMissing(c.cells) else 0)
  }

  /** A count never exceeds the number of rows times the number of columns with that name. */
  lemma {:induction false} CountColumnBound(f: Frame, name: Name)
    requires Rectangular(f)
    ensures CountColumn(f.columns, name) <= |f.index| * Count(Names(f), name)
  {
    CountPrefixBound(f.columns, Names(f), |f.index|, name);
  }

  lemma {:induction false} CountPrefixBound(columns: seq<Column>, names: seq<Name>, rows: nat, name: Name)
    requires |names| == |columns|
    requires forall k :: 0 <= k < |columns| ==> names[k] == columns[k].name && |columns[k].cells| == rows
    ensures CountColumn(columns, name) <= rows * Count(names, name)
  {
    if columns != [] {
      var n := |columns| - 1;
      CountPrefixBound(columns[..n], names[..n], rows, name);
      var o := Count(names[..n], name);
      assert rows * (o + 1) == rows * o + rows;
    }
  }

  /** Without repeated names, a name occurs at most once. */
  lemma {:induction false} CountDistinct(names: seq<Name>, name: Name)
    requires Distinct(names)
    ensures Count(names, name) <= 1
    ensures Count(names, name) == 1 <==> name in names
  {
    if names != [] {
      var n := |names| - 1;
      CountDistinct(names[..n], name);
      assert names == names[..n] + [names[n]];
      if names[n] == name {
        assert name !in names[..n];
      }
    }
  }

  /** With unique column names, a count never exceeds the number of rows. */
  lemma CountAtMostRows(f: Frame, name: Name)
    requires Rectangular(f) && Distinct(Names(f))
    ensures CountColumn(f.columns, name) <= |f.index|
  {
    CountColumnBound(f, name);
    CountDistinct(Names(f), name);
  }

  // ---------------------------------------------- the counts dict

  /** `counts[key] = value` on an insertion-ordered dict: a present key keeps its place. */
  function Put(d: seq<Entry>, key: Name, value: nat): (r: seq<Entry>)
    requires Distinct(Keys(d))
    ensures Keys(r) == if key in Keys(d) then Keys(d) else Keys(d) + [key]
    ensures Distinct(Keys(r))
    ensures forall k :: 0 <= k < |r| ==> r[k].1 == if r[k].0 == key then value else d[k].1
  {
    if key in Keys(d) then
      var k := ColumnIndex(Keys(d), key);
      var r := d[k := (key, value)];
      assert Keys(r) == Keys(d);
      r
    else
      var r := d + [(key, value)];
      assert Keys(r) == Keys(d) + [key];
      r
  }

  /** `counts` after the counting loop has visited the given names. */
  function CountsOf(f: Frame, names: seq<Name>): (d: seq<Entry>)
    ensures Distinct(Keys(d))
  {
    if names == [] then []
    else
      var n := |names| - 1;
      Put(CountsOf(f, names[..n]), names[n], CountColumn(f.columns, names[n]))
  }

  /**
   * The dict holds each requested name once, in order of first request, with its count.
   */
  lemma {:induction false} CountsOfEntries(f: Frame, names: seq<Name>)
    ensures Keys(CountsOf(f, names)) == Select(names, FirstMask(names))
    ensures forall k :: 0 <= k < |CountsOf(f, names)| ==>
      CountsOf(f, names)[k].1 == CountColumn(f.columns, CountsOf(f, names)[k].0)
  {
    if names != [] {
      var n := |names| - 1;
      CountsOfEntries(f, names[..n]);
      KeepFirstStep(names);
      KeepFirstMembers(names[..n]);
    }
  }

  // ---------------------------------------------- the stable descending sort

  /** Entry e goes before the first entry whose count is not larger: equal counts keep e first. */
  function InsertByCount(e: Entry, s: seq<Entry>): (r: seq<Entry>)
    ensures |r| == |s| + 1
  {
    if s == [] || s[0].1 <= e.1 then [e] + s
    else [s[0]] + InsertByCount(e, s[1..])
  }

  /** `sorted(items, key=lambda x: x[1], reverse=True)`. */
  function SortByCount(s: seq<Entry>): (r: seq<Entry>)
    ensures |r| == |s|
  {
    if s == [] then [] else InsertByCount(s[0], SortByCount(s[1..]))
  }

  predicate Descending(s: seq<Entry>)
  {
    forall i, j :: 0 <= i < j < |s| ==> s[i].1 >= s[j].1
  }

  /** The entries with count v, in order. */
  function WithCount(s: seq<Entry>, v: nat): seq<Entry>
  {
    if s == [] then []
    else (if s[0].1 == v then [s[0]] else []) + WithCount(s[1..], v)
  }

  lemma {:induction false} InsertPermutation(e: Entry, s: seq<Entry>)
    ensures multiset(InsertByCount(e, s)) == multiset(s) + multiset{e}
  {
    if s != [] && s[0].1 > e.1 {
      InsertPermutation(e, s[1..]);
      assert s == [s[0]] + s[1..];
    }
  }

  lemma {:induction false} InsertDescending(e: Entry, s: seq<Entry>)
    requires Descending(s)
    ensures Descending(InsertByCount(e, s))
  {
    if s != [] && s[0].1 > e.1 {
      var t := s[1..];
      assert forall k :: 0 <= k < |t| ==> t[k] == s[k + 1];
      InsertDescending(e, t);
      InsertBounded(e, t, s[0].1);
      ConsDescending(s[0], InsertByCount(e, t));
    }
  }

  /** Inserting an entry below a bound into entries below it keeps every count below it. */
  lemma {:induction false} InsertBounded(e: Entry, s: seq<Entry>, b: nat)
    requires e.1 <= b && forall k :: 0 <= k < |s| ==> s[k].1 <= b
    ensures forall k :: 0 <= k < |InsertByCount(e, s)| ==> InsertByCount(e, s)[k].1 <= b
  {
    if s != [] && s[0].1 > e.1 {
      InsertBounded(e, s[1..], b);
    }
  }

  /** An entry whose count is at least every later count can head a descending sequence. */
  lemma ConsDescending(h: Entry, r: seq<Entry>)
    requires Descending(r) && forall k :: 0 <= k < |r| ==> r[k].1 <= h.1
    ensures Descending([h] + r)
  {
    var c := [h] + r;
    forall i, j | 0 <= i < j < |c| ensures c[i].1 >= c[j].1 {
      assert c[j] == r[j - 1];
      if i > 0 { assert c[i] == r[i - 1]; }
    }
  }

  lemma {:induction false} InsertStable(e: Entry, s: seq<Entry>, v: nat)
    ensures WithCount(InsertByCount(e, s), v) == (if e.1 == v then [e] else []) + WithCount(s, v)
  {
    if s != [] && s[0].1 > e.1 {
      InsertStable(e, s[1..], v);
    }
  }

  /** The sort loses and adds nothing. */
  lemma {:induction false} SortPermutation(s: seq<Entry>)
    ensures multiset(SortByCount(s)) == multiset(s)
  {
    if s != [] {
      SortPermutation(s[1..]);
      InsertPermutation(s[0], SortByCount(s[1..]));
      assert s == [s[0]] + s[1..];
    }
  }

  /** The sort puts larger counts first. */
  lemma {:induction false} SortDescending(s: seq<Entry>)
    ensures Descending(SortByCount(s))
  {
    if s != [] {
      SortDescending(s[1..]);
      InsertDescending(s[0], SortByCount(s[1..]));
    }
  }

  /** The sort is stable: entries with equal counts keep their dict order. */
  lemma {:induction false} SortStable(s: seq<Entry>, v: nat)
    ensures WithCount(SortByCount(s), v) == WithCount(s, v)
  {
    if s != [] {
      SortStable(s[1..], v);
      InsertStable(s[0], SortByCount(s[1..]), v);
    }
  }

  // ---------------------------------------------- the first three

  /** `sorted(...)[:3]`. */
  function Top3(d: seq<Entry>): seq<Entry>
  {
    SortByCount(d)[..Min(3, |d|)]
  }

  /** The result holds min(3, |d|) entries of d, largest count first. */
  lemma Top3Ranking(d: seq<Entry>)
    ensures |Top3(d)| == Min(3, |d|)
    ensures Descending(Top3(d))
    ensures multiset(Top3(d)) <= multiset(d)
  {
    var s := SortByCount(d);
    var k := Min(3, |d|);
    SortDescending(d);
    SortPermutation(d);
    assert s == s[..k] + s[k..];
    assert multiset(s) == multiset(s[..k]) + multiset(s[k..]);
  }

  /**
   * What the function returns on valid input: min(3, number of distinct requested names)
   * entries, each a requested name paired with its count, no name twice, largest count first.
   */
  lemma Top3Entries(f: Frame, names: seq<Name>)
    ensures var top := Top3(CountsOf(f, names));
      && |top| == Min(3, |Select(names, FirstMask(names))|)
      && Descending(top)
      && (forall e :: e in top ==> e.0 in names && e.1 == CountColumn(f.columns, e.0))
      && (forall i, j :: 0 <= i < j < |top| ==> top[i].0 != top[j].0)
  {
    var d := CountsOf(f, names);
    var top := Top3(d);
    CountsOfEntries(f, names);
    KeepFirstMembers(names);
    Top3Ranking(d);
    forall e | e in top ensures e in d {
      assert e in multiset(top);
    }
    forall e | e in d ensures e.0 in names && e.1 == CountColumn(f.columns, e.0) {
      var k :| 0 <= k < |d| && d[k] == e;
      assert Keys(d)[k] == e.0;
    }
    forall i, j | 0 <= i < j < |top| ensures top[i].0 != top[j].0 {
      TopDistinct(d, i, j);
    }
  }

  /** Two places of the sorted dict hold different keys when the dict's keys are distinct. */
  lemma TopDistinct(d: seq<Entry>, i: int, j: int)
    requires Distinct(Keys(d))
    requires 0 <= i < j < |Top3(d)|
    ensures Top3(d)[i].0 != Top3(d)[j].0
  {
    var s := SortByCount(d);
    SortPermutation(d);
    assert Distinct(d) by {
      forall p, q | 0 <= p < q < |d| ensures d[p] != d[q] {
        assert Keys(d)[p] != Keys(d)[q];
      }
    }
    PermutationDistinct(d, s);
    assert s[i] != s[j];
    assert s[i] in multiset(d) && s[j] in multiset(d);
    var a :| 0 <= a < |d| && d[a] == s[i];
    var b :| 0 <= b < |d| && d[b] == s[j];
    assert Keys(d)[a] != Keys(d)[b];
  }

  /** No entry the cut drops has a larger count than an entry it keeps. */
  lemma Top3KeepsLargest(d: seq<Entry>)
    ensures forall i, j :: 0 <= i < Min(3, |d|) <= j < |d| ==> SortByCount(d)[i].1 >= SortByCount(d)[j].1
  {
    SortDescending(d);
  }

  /** When every count is the same, the sort changes nothing and the first three requested columns win. */
  lemma AllTiedKeepOrder(d: seq<Entry>, v: nat)
    requires forall k :: 0 <= k < |d| ==> d[k].1 == v
    ensures Top3(d) == d[..Min(3, |d|)]
  {
    SortStable(d, v);
    SortPermutation(d);
    AllWithCount(d, v);
    forall k | 0 <= k < |d| ensures SortByCount(d)[k].1 == v {
      assert SortByCount(d)[k] in multiset(d);
    }
    AllWithCount(SortByCount(d), v);
  }

  lemma {:induction false} AllWithCount(s: seq<Entry>, v: nat)
    requires forall k :: 0 <= k < |s| ==> s[k].1 == v
    ensures WithCount(s, v) == s
  {
    if s != [] {
      AllWithCount(s[1..], v);
    }
  }

  // ---------------------------------------------- the function

  /** Some requested name is not a column of the frame. */
  predicate SomeMissing(f: Frame, names: seq<Name>)
  {
    exists k :: 0 <= k < |names| && names[k] !in Names(f)
  }

  /** names[k] is the first requested name that is not a column. */
  predicate FirstMissingAt(f: Frame, names: seq<Name>, k: nat)
  {
    k < |names| && names[k] !in Names(f) && forall j :: 0 <= j < k ==> names[j] in Names(f)
  }

  /**
   * `top_3_counts_numpy(df, columns)`: a TypeError naming the first requested column that is
   * missing, checked before any counting; otherwise the counts dict ranked and cut to three.
   */
  method Top3Counts(f: Frame, names: seq<Name>) returns (r: Result<seq<Entry>, TopError>)
    ensures r.Failure? <==> SomeMissing(f, names)
    ensures r.Failure? ==> exists k: nat :: FirstMissingAt(f, names, k) && r.error == MissingColumn(names[k])
    ensures r.Success? ==> r.value == Top3(CountsOf(f, names))
  {
    for i := 0 to |names|
      invariant forall j :: 0 <= j < i ==> names[j] in Names(f)
    {
      if names[i] !in Names(f) {
        assert FirstMissingAt(f, names, i);
        return Failure(MissingColumn(names[i]));
      }
    }
    var counts: seq<Entry> := [];
    for i := 0 to |names|
      invariant counts == CountsOf(f, names[..i])
    {
      assert names[..i + 1][..i] == names[..i];
      counts := Put(counts, names[i], CountColumn(f.columns, names[i]));
    }
    assert names[..|names|] == names;
    var ranked := SortByCount(counts);
    return Success(ranked[..Min(3, |ranked|)]);
  }
}
