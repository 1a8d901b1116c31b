/** Sums over sequences and the "keep the first occurrence" selection shared by the pandas operations modelled here. */
module Sequences {

  // ---------------------------------------------------------------- sums

  /** Sum of a sequence of counts, accumulated left to right. */
  function SumNat(s: seq<nat>): nat
  {
    if s == [] then 0 else SumNat(s[..|s| - 1]) + s[|s| - 1]
  }

  /** Sum of a sequence of integers, accumulated left to right. */
  function SumInt(s: seq<int>): int
  {
    if s == [] then 0 else SumInt(s[..|s| - 1]) + s[|s| - 1]
  }

  /** Sum of a sequence of reals, accumulated left to right (exact: no rounding). */
  function SumReal(s: seq<real>): real
  {
    if s == [] then 0.0 else SumReal(s[..|s| - 1]) + s[|s| - 1]
  }

  /** Counts read as reals. */
  function ToReals(s: seq<nat>): (r: seq<real>)
    ensures |r| == |s| && forall k :: 0 <= k < |s| ==> r[k] == s[k] as real
  {
    seq(|s|, k requires 0 <= k < |s| => s[k] as real)
  }

  /** Every element multiplied by c. */
  function Scale(s: seq<real>, c: real): (r: seq<real>)
    ensures |r| == |s| && forall k :: 0 <= k < |s| ==> r[k] == c * s[k]
  {
    seq(|s|, k requires 0 <= k < |s| => c * s[k])
  }

  /** Every element divided by d. */
  function Divide(s: seq<real>, d: real): (r: seq<real>)
    requires d != 0.0
    ensures |r| == |s| && forall k :: 0 <= k < |s| ==> r[k] == s[k] / d
  {
    seq(|s|, k requires 0 <= k < |s| => s[k] / d)
  }

  lemma {:induction false} SumDivide(s: seq<real>, d: real)
    requires d != 0.0
    ensures SumReal(Divide(s, d)) == SumReal(s) / d
  {
    if s != [] {
      var p := s[..|s| - 1];
      SumDivide(p, d);
      assert Divide(s, d)[..|p|] == Divide(p, d);
    }
  }

  lemma {:induction false} SumToReals(s: seq<nat>)
    ensures SumReal(ToReals(s)) == SumNat(s) as real
  {
    if s != [] {
      SumToReals(s[..|s| - 1]);
      assert ToReals(s)[..|s| - 1] == ToReals(s[..|s| - 1]);
    }
  }

  lemma {:induction false} SumScale(s: seq<real>, c: real)
    ensures SumReal(Scale(s, c)) == c * SumReal(s)
  {
    if s != [] {
      var n := |s| - 1;
      var p := s[..n];
      SumScale(p, c);
      assert forall k :: 0 <= k < n ==> Scale(s, c)[..n][k] == Scale(p, c)[k];
      assert Scale(s, c)[..n] == Scale(p, c);
      assert SumReal(Scale(s, c)) == c * SumReal(p) + c * s[n];
      assert SumReal(s) == SumReal(p) + s[n];
      assert c * SumReal(p) + c * s[n] == c * (SumReal(p) + s[n]);
    }
  }

  /** A sum of non-negative terms is non-negative, and it is zero exactly when every term is zero. */
  lemma {:induction false} SumNonNegative(s: seq<real>)
    requires forall k :: 0 <= k < |s| ==> s[k] >= 0.0
    ensures SumReal(s) >= 0.0
    ensures SumReal(s) == 0.0 <==> forall k :: 0 <= k < |s| ==> s[k] == 0.0
  {
    if s != [] {
      var p := s[..|s| - 1];
      assert forall k :: 0 <= k < |p| ==> p[k] == s[k];
      SumNonNegative(p);
    }
  }

  lemma {:induction false} SumNatAppend(s: seq<nat>, x: nat)
    ensures SumNat(s + [x]) == SumNat(s) + x
  {
    assert (s + [x])[..|s|] == s;
  }

  lemma {:induction false} SumRealAppend(s: seq<real>, x: real)
    ensures SumReal(s + [x]) == SumReal(s) + x
  {
    assert (s + [x])[..|s|] == s;
  }

  /** Summing one more element of a prefix. */
  lemma SumRealPrefix(s: seq<real>, i: nat)
    requires i < |s|
    ensures SumReal(s[..i + 1]) == SumReal(s[..i]) + s[i]
  {
    assert s[..i + 1] == s[..i] + [s[i]];
    SumRealAppend(s[..i], s[i]);
  }

  /** A sequence that is another one followed by a zero has the same sum. */
  lemma SumRealZeroLast(a: seq<real>, b: seq<real>)
    requires |a| == |b| + 1 && a[|b|] == 0.0
    requires forall i :: 0 <= i < |b| ==> a[i] == b[i]
    ensures SumReal(a) == SumReal(b)
  {
    assert a == b + [0.0];
    SumRealAppend(b, 0.0);
  }

  lemma {:induction false} SumIntAppend(s: seq<int>, x: int)
    ensures SumInt(s + [x]) == SumInt(s) + x
  {
    assert (s + [x])[..|s|] == s;
  }

  /** Element-wise sum of two sequences of the same length. */
  function Add(a: seq<real>, b: seq<real>): (r: seq<real>)
    requires |a| == |b|
    ensures |r| == |a| && forall k :: 0 <= k < |a| ==> r[k] == a[k] + b[k]
  {
    seq(|a|, k requires 0 <= k < |a| => a[k] + b[k])
  }

  lemma {:induction false} SumAdd(a: seq<real>, b: seq<real>)
    requires |a| == |b|
    ensures SumReal(Add(a, b)) == SumReal(a) + SumReal(b)
  {
    if a != [] {
      var n := |a| - 1;
      SumAdd(a[..n], b[..n]);
      assert Add(a, b)[..n] == Add(a[..n], b[..n]);
    }
  }

  /** If every s[k] is a[k] - b[k], the sums are related the same way. */
  lemma {:induction false} SumDifference(s: seq<real>, a: seq<real>, b: seq<real>)
    requires |s| == |a| == |b| && forall k :: 0 <= k < |s| ==> s[k] == a[k] - b[k]
    ensures SumReal(s) == SumReal(a) - SumReal(b)
  {
    if s != [] {
      var n := |s| - 1;
      assert forall k :: 0 <= k < n ==> s[..n][k] == a[..n][k] - b[..n][k];
      SumDifference(s[..n], a[..n], b[..n]);
    }
  }

  /** If every s[k] is a[k] - 2 * b[k] + d[k], the sums are related the same way. */
  lemma {:induction false} SumCombine(s: seq<real>, a: seq<real>, b: seq<real>, d: seq<real>)
    requires |s| == |a| == |b| == |d|
    requires forall k :: 0 <= k < |s| ==> s[k] == a[k] + -2.0 * b[k] + d[k]
    ensures SumReal(s) == SumReal(a) + -2.0 * SumReal(b) + SumReal(d)
  {
    if s != [] {
      var n := |s| - 1;
      assert forall k :: 0 <= k < n ==> s[..n][k] == a[..n][k] + -2.0 * b[..n][k] + d[..n][k];
      SumCombine(s[..n], a[..n], b[..n], d[..n]);
    }
  }

  /** Sums respect the element-wise order. */
  lemma {:induction false} SumMonotone(a: seq<real>, b: seq<real>)
    requires |a| == |b| && forall k :: 0 <= k < |a| ==> a[k] <= b[k]
    ensures SumReal(a) <= SumReal(b)
  {
    if a != [] {
      var n := |a| - 1;
      assert forall k :: 0 <= k < n ==> a[..n][k] <= b[..n][k];
      SumMonotone(a[..n], b[..n]);
    }
  }

  /** If every s[k] is at most c * b[k], the sum of s is at most c times the sum of b. */
  lemma {:induction false} SumScaledBound(s: seq<real>, b: seq<real>, c: real)
    requires |s| == |b| && forall k :: 0 <= k < |s| ==> s[k] <= c * b[k]
    ensures SumReal(s) <= c * SumReal(b)
  {
    if s != [] {
      var n := |s| - 1;
      assert forall k :: 0 <= k < n ==> s[..n][k] <= c * b[..n][k];
      SumScaledBound(s[..n], b[..n], c);
    }
  }

  /** A sum of terms bounded by c is bounded by the number of terms times c. */
  lemma {:induction false} SumAtMost(s: seq<real>, c: real)
    requires forall k :: 0 <= k < |s| ==> s[k] <= c
    ensures SumReal(s) <= |s| as real * c
  {
    if s != [] {
      var n := |s| - 1;
      assert forall k :: 0 <= k < n ==> s[..n][k] <= c;
      SumAtMost(s[..n], c);
    }
  }

  /** No count exceeds the sum of the counts. */
  lemma {:induction false} SumNatElement(s: seq<nat>, k: nat)
    requires k < |s|
    ensures s[k] <= SumNat(s)
  {
    if k < |s| - 1 {
      SumNatElement(s[..|s| - 1], k);
    }
  }

  // ---------------------------------------------------------------- double sums

  /** Every row of m has w entries. */
  predicate RowsOfWidth(m: seq<seq<real>>, w: nat)
  {
    forall i :: 0 <= i < |m| ==> |m[i]| == w
  }

  /** The sum of each row. */
  function RowTotals(m: seq<seq<real>>): (r: seq<real>)
    ensures |r| == |m| && forall i :: 0 <= i < |m| ==> r[i] == SumReal(m[i])
  {
    seq(|m|, i requires 0 <= i < |m| => SumReal(m[i]))
  }

  /** Entry j of every row. */
  function ColumnOf(m: seq<seq<real>>, w: nat, j: nat): (r: seq<real>)
    requires RowsOfWidth(m, w) && j < w
    ensures |r| == |m| && forall i :: 0 <= i < |m| ==> r[i] == m[i][j]
  {
    seq(|m|, i requires 0 <= i < |m| => m[i][j])
  }

  /** The sum of each column. */
  function ColumnTotals(m: seq<seq<real>>, w: nat): (r: seq<real>)
    requires RowsOfWidth(m, w)
    ensures |r| == w && forall j :: 0 <= j < w ==> r[j] == SumReal(ColumnOf(m, w, j))
  {
    seq(w, j requires 0 <= j < w => SumReal(ColumnOf(m, w, j)))
  }

  /** Dropping the last row drops its sum from the row totals. */
  lemma RowTotalsAppend(m: seq<seq<real>>)
    requires m != []
    ensures RowTotals(m) == RowTotals(m[..|m| - 1]) + [SumReal(m[|m| - 1])]
  {
  }

  /** Dropping the last row takes its entries off the column totals. */
  lemma ColumnTotalsAppend(m: seq<seq<real>>, w: nat)
    requires RowsOfWidth(m, w) && m != []
    ensures ColumnTotals(m, w) == Add(ColumnTotals(m[..|m| - 1], w), m[|m| - 1])
  {
    var n := |m| - 1;
    forall j | 0 <= j < w ensures ColumnTotals(m, w)[j] == Add(ColumnTotals(m[..n], w), m[n])[j] {
      assert ColumnOf(m, w, j) == ColumnOf(m[..n], w, j) + [m[n][j]];
      SumRealAppend(ColumnOf(m[..n], w, j), m[n][j]);
    }
  }

  /** A double sum does not depend on the order of summation. */
  lemma {:induction false} SumSwap(m: seq<seq<real>>, w: nat)
    requires RowsOfWidth(m, w)
    ensures SumReal(RowTotals(m)) == SumReal(ColumnTotals(m, w))
  {
    if m == [] {
      SumNonNegative(ColumnTotals(m, w));
    } else {
      var n := |m| - 1;
      var p, last := m[..n], m[n];
      SumSwap(p, w);
      RowTotalsAppend(m);
      SumRealAppend(RowTotals(p), SumReal(last));
      ColumnTotalsAppend(m, w);
      SumAdd(ColumnTotals(p, w), last);
    }
  }

  /** If every row sums to at most c, the whole double sum is at most the number of rows times c. */
  lemma RowsBound(m: seq<seq<real>>, h: nat, c: real)
    requires |m| == h && forall i :: 0 <= i < h ==> SumReal(m[i]) <= c
    ensures SumReal(RowTotals(m)) <= h as real * c
  {
    SumAtMost(RowTotals(m), c);
  }

  /** If every column sums to at most c, the whole double sum is at most the number of columns times c. */
  lemma SwapBound(m: seq<seq<real>>, w: nat, c: real)
    requires RowsOfWidth(m, w) && forall j :: 0 <= j < w ==> SumReal(ColumnOf(m, w, j)) <= c
    ensures SumReal(RowTotals(m)) <= w as real * c
  {
    SumAtMost(ColumnTotals(m, w), c);
    SumSwap(m, w);
  }

  // ---------------------------------------------- keeping first occurrences

  /** No element occurs twice. */
  predicate Distinct<T(==)>(s: seq<T>)
  {
    forall i, j :: 0 <= i < j < |s| ==> s[i] != s[j]
  }

  /** The first components of a sequence of pairs, in order: the keys of a dict's items, or one side of paired observations. */
  function Keys<K, V>(d: seq<(K, V)>): (r: seq<K>)
    ensures |r| == |d| && forall k :: 0 <= k < |d| ==> r[k] == d[k].0
  {
    seq(|d|, k requires 0 <= k < |d| => d[k].0)
  }

  /** Python's `min` of two integers. */
  function Min(x: int, y: int): int
  {
    if x <= y then x else y
  }

  /** A sequence without repeats holds each element at most once. */
  lemma {:induction false} DistinctOnce<T>(s: seq<T>, x: T)
    requires Distinct(s)
    ensures multiset(s)[x] <= 1
  {
    if s != [] {
      var n := |s| - 1;
      assert Distinct(s[..n]);
      DistinctOnce(s[..n], x);
      assert s == s[..n] + [s[n]];
      assert multiset(s) == multiset(s[..n]) + multiset{s[n]};
      if s[n] == x {
        assert x !in s[..n];
      }
    }
  }

  /** An element found at two positions occurs at least twice. */
  lemma RepeatCounted<T>(s: seq<T>, i: int, j: int)
    requires 0 <= i < j < |s|
    ensures s[i] == s[j] ==> multiset(s)[s[i]] >= 2
  {
    var a, b := s[..j], s[j..];
    assert s == a + b;
    assert s[i] == a[i] && s[j] == b[0];
    assert multiset(s) == multiset(a) + multiset(b);
  }

  /** Rearranging a sequence without repetitions leaves it without repetitions. */
  lemma PermutationDistinct<T>(a: seq<T>, b: seq<T>)
    requires Distinct(a) && multiset(a) == multiset(b)
    ensures Distinct(b)
  {
    forall i, j | 0 <= i < j < |b| ensures b[i] != b[j] {
      RepeatCounted(b, i, j);
      DistinctOnce(a, b[i]);
    }
  }

  /** Position i is kept exactly when its key did not occur before it: pandas' `~duplicated(keep='first')`. */
  function FirstMask<T(==)>(keys: seq<T>): (m: seq<bool>)
    ensures |m| == |keys|
    ensures forall i :: 0 <= i < |keys| ==> (m[i] <==> keys[i] !in keys[..i])
  {
    seq(|keys|, i requires 0 <= i < |keys| => keys[i] !in keys[..i])
  }

  /** The elements whose mask entry is true, in their original order: boolean indexing `s[m]`. */
  function Select<T>(s: seq<T>, m: seq<bool>): (r: seq<T>)
    requires |m| == |s|
    ensures |r| <= |s|
  {
    if s == [] then []
    else Select(s[..|s| - 1], m[..|s| - 1]) + (if m[|s| - 1] then [s[|s| - 1]] else [])
  }

  lemma {:induction false} SelectElements<T>(s: seq<T>, m: seq<bool>, x: T)
    requires |m| == |s|
    ensures x in Select(s, m) <==> exists k :: 0 <= k < |s| && m[k] && s[k] == x
  {
    if s != [] {
      var n := |s| - 1;
      var q := Select(s[..n], m[..n]);
      SelectElements(s[..n], m[..n], x);
      assert Select(s, m) == q + (if m[n] then [s[n]] else []);
      if x in Select(s, m) {
        if x in q {
          var k :| 0 <= k < n && m[..n][k] && s[..n][k] == x;
          assert m[k] && s[k] == x;
        } else {
          assert m[n] && s[n] == x;
        }
      }
      if exists k :: 0 <= k < |s| && m[k] && s[k] == x {
        var k :| 0 <= k < |s| && m[k] && s[k] == x;
        if k < n {
          assert s[..n][k] == x && m[..n][k];
          assert x in q;
        }
      }
    }
  }

  lemma {:induction false} FirstMaskPrefix<T>(keys: seq<T>, n: nat)
    requires n <= |keys|
    ensures FirstMask(keys)[..n] == FirstMask(keys[..n])
  {
    assert forall i :: 0 <= i < n ==> keys[..n][..i] == keys[..i];
  }

  /** Keeping first occurrences, one key at a time: the last key survives exactly when it is new. */
  lemma KeepFirstStep<T>(keys: seq<T>)
    requires keys != []
    ensures var n := |keys| - 1;
      Select(keys, FirstMask(keys))
        == Select(keys[..n], FirstMask(keys[..n])) + (if keys[n] in keys[..n] then [] else [keys[n]])
  {
    FirstMaskPrefix(keys, |keys| - 1);
  }

  /** Keeping the first occurrence of every key loses no key. */
  lemma {:induction false} KeepFirstMembers<T>(keys: seq<T>)
    ensures forall x :: x in Select(keys, FirstMask(keys)) <==> x in keys
  {
    if keys != [] {
      var n := |keys| - 1;
      var p := keys[..n];
      KeepFirstStep(keys);
      KeepFirstMembers(p);
      LastMembers(keys);
    }
  }

  /** The members of a non-empty sequence are those of its prefix and its last element. */
  lemma LastMembers<T>(s: seq<T>)
    requires s != []
    ensures forall x :: x in s <==> x in s[..|s| - 1] || x == s[|s| - 1]
  {
    assert s == s[..|s| - 1] + [s[|s| - 1]];
  }

  /** Keeping the first occurrence of every key leaves each key exactly once. */
  lemma {:induction false} KeepFirstDistinct<T>(keys: seq<T>)
    ensures Distinct(Select(keys, FirstMask(keys)))
  {
    if keys != [] {
      var n := |keys| - 1;
      var p := keys[..n];
      KeepFirstStep(keys);
      KeepFirstDistinct(p);
      KeepFirstMembers(p);
    }
  }

  /** On a sequence without repetitions nothing is a repeat. */
  lemma DistinctFirstMask<T>(keys: seq<T>)
    requires Distinct(keys)
    ensures forall i :: 0 <= i < |keys| ==> FirstMask(keys)[i]
  {
    forall i | 0 <= i < |keys| ensures keys[i] !in keys[..i] {
      assert forall j :: 0 <= j < i ==> keys[..i][j] == keys[j];
    }
  }

  lemma {:induction false} SelectAll<T>(s: seq<T>, m: seq<bool>)
    requires |m| == |s| && forall k :: 0 <= k < |m| ==> m[k]
    ensures Select(s, m) == s
  {
    if s != [] {
      SelectAll(s[..|s| - 1], m[..|s| - 1]);
    }
  }

  /** A mask with no true entry selects nothing. */
  lemma {:induction false} SelectNone<T>(s: seq<T>, m: seq<bool>)
    requires |m| == |s| && forall k :: 0 <= k < |m| ==> !m[k]
    ensures Select(s, m) == []
  {
    if s != [] {
      SelectNone(s[..|s| - 1], m[..|s| - 1]);
    }
  }

  /** Selecting once with a mask and once with its complement splits the sequence without loss or overlap. */
  lemma SelectSplit<T>(s: seq<T>, m1: seq<bool>, m2: seq<bool>)
    requires |m1| == |s| && |m2| == |s|
    requires forall k :: 0 <= k < |s| ==> m1[k] != m2[k]
    ensures multiset(Select(s, m1)) + multiset(Select(s, m2)) == multiset(s)
    ensures |Select(s, m1)| + |Select(s, m2)| == |s|
  {
    SelectSplitLength(s, m1, m2);
    forall x ensures Count(Select(s, m1), x) + Count(Select(s, m2), x) == Count(s, x) {
      SelectSplitCount(s, m1, m2, x);
    }
    CountsAddUp(Select(s, m1), Select(s, m2), s);
  }

  /** Two sequences whose counts add up to those of a third together hold its elements. */
  lemma CountsAddUp<T>(a1: seq<T>, a2: seq<T>, s: seq<T>)
    requires forall x :: Count(a1, x) + Count(a2, x) == Count(s, x)
    ensures multiset(a1) + multiset(a2) == multiset(s)
  {
    forall x ensures (multiset(a1) + multiset(a2))[x] == multiset(s)[x] {
      CountMultiplicity(a1, x);
      CountMultiplicity(a2, x);
      CountMultiplicity(s, x);
    }
  }

  /** How many times x occurs in s. */
  function Count<T(==)>(s: seq<T>, x: T): nat
  {
    if s == [] then 0 else Count(s[..|s| - 1], x) + (if s[|s| - 1] == x then 1 else 0)
  }

  /** Count agrees with the multiplicity in the multiset of the sequence. */
  lemma {:induction false} CountMultiplicity<T>(s: seq<T>, x: T)
    ensures Count(s, x) == multiset(s)[x]
  {
    if s != [] {
      CountMultiplicity(s[..|s| - 1], x);
      assert s == s[..|s| - 1] + [s[|s| - 1]];
    }
  }

  /** Each element is counted once, in whichever half keeps it. */
  lemma {:induction false} SelectSplitCount<T>(s: seq<T>, m1: seq<bool>, m2: seq<bool>, x: T)
    requires |m1| == |s| && |m2| == |s|
    requires forall k :: 0 <= k < |s| ==> m1[k] != m2[k]
    ensures Count(Select(s, m1), x) + Count(Select(s, m2), x) == Count(s, x)
  {
    if s != [] {
      var n := |s| - 1;
      var p1, p2 := m1[..n], m2[..n];
      assert forall k :: 0 <= k < n ==> p1[k] != p2[k];
      SelectSplitCount(s[..n], p1, p2, x);
      var a1, a2 := Select(s[..n], p1), Select(s[..n], p2);
      if m1[n] {
        assert Select(s, m1) == a1 + [s[n]] && Select(s, m2) == a2;
        CountAppend(a1, s[n], x);
      } else {
        assert Select(s, m1) == a1 && Select(s, m2) == a2 + [s[n]];
        CountAppend(a2, s[n], x);
      }
    }
  }

  /** Appending one element adds one to its count. */
  lemma CountAppend<T>(a: seq<T>, y: T, x: T)
    ensures Count(a + [y], x) == Count(a, x) + (if y == x then 1 else 0)
  {
    assert (a + [y])[..|a|] == a;
  }

  /** The two halves of a split add up to the whole length. */
  lemma {:induction false} SelectSplitLength<T>(s: seq<T>, m1: seq<bool>, m2: seq<bool>)
    requires |m1| == |s| && |m2| == |s|
    requires forall k :: 0 <= k < |s| ==> m1[k] != m2[k]
    ensures |Select(s, m1)| + |Select(s, m2)| == |s|
  {
    if s != [] {
      var n := |s| - 1;
      assert forall k :: 0 <= k < n ==> m1[..n][k] == m1[k] && m2[..n][k] == m2[k];
      SelectSplitLength(s[..n], m1[..n], m2[..n]);
    }
  }

  /** The two halves of a split add up to the whole sum. */
  lemma {:induction false} SelectSplitSum(s: seq<int>, m1: seq<bool>, m2: seq<bool>)
    requires |m1| == |s| && |m2| == |s|
    requires forall k :: 0 <= k < |s| ==> m1[k] != m2[k]
    ensures SumInt(Select(s, m1)) + SumInt(Select(s, m2)) == SumInt(s)
  {
    if s != [] {
      var n := |s| - 1;
      assert forall k :: 0 <= k < n ==> m1[..n][k] == m1[k] && m2[..n][k] == m2[k];
      SelectSplitSum(s[..n], m1[..n], m2[..n]);
      var a1, a2 := Select(s[..n], m1[..n]), Select(s[..n], m2[..n]);
      if m1[n] {
        assert Select(s, m1) == a1 + [s[n]] && Select(s, m2) == a2;
        SumIntAppend(a1, s[n]);
      } else {
        assert Select(s, m2) == a2 + [s[n]] && Select(s, m1) == a1;
        SumIntAppend(a2, s[n]);
      }
      assert SumInt(s) == SumInt(s[..n]) + s[n];
    }
  }

  /** Selecting from a sequence and from its image under f, with one mask, gives corresponding elements. */
  lemma {:induction false} SelectMapped<T, U>(s: seq<T>, t: seq<U>, m: seq<bool>, f: T -> U)
    requires |s| == |t| == |m|
    requires forall k :: 0 <= k < |s| ==> t[k] == f(s[k])
    ensures |Select(t, m)| == |Select(s, m)|
    ensures forall k :: 0 <= k < |Select(s, m)| ==> Select(t, m)[k] == f(Select(s, m)[k])
  {
    if s != [] {
      var n := |s| - 1;
      SelectMapped(s[..n], t[..n], m[..n], f);
    }
  }

  /** The positions whose mask entry is true, in increasing order: the rows boolean indexing keeps. */
  function Positions(m: seq<bool>): (p: seq<nat>)
    ensures forall k :: 0 <= k < |p| ==> p[k] < |m| && m[p[k]]
    ensures forall i, j :: 0 <= i < j < |p| ==> p[i] < p[j]
  {
    if m == [] then []
    else
      var n := |m| - 1;
      var q := Positions(m[..n]);
      assert forall k :: 0 <= k < |q| ==> q[k] < n && m[q[k]];
      q + (if m[n] then [n] else [])
  }

  /** Element k of `s[m]` is the element of s at the k-th kept position. */
  lemma {:induction false} SelectAt<T>(s: seq<T>, m: seq<bool>)
    requires |m| == |s|
    ensures |Select(s, m)| == |Positions(m)|
    ensures forall k :: 0 <= k < |Positions(m)| ==> Select(s, m)[k] == s[Positions(m)[k]]
  {
    if s != [] {
      var n := |s| - 1;
      SelectAt(s[..n], m[..n]);
    }
  }

  /** Every kept position appears among the positions. */
  lemma {:induction false} PositionsComplete(m: seq<bool>, i: nat)
    requires i < |m| && m[i]
    ensures i in Positions(m)
  {
    var n := |m| - 1;
    if i < n {
      PositionsComplete(m[..n], i);
    }
  }
}
