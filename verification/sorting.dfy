/** The value-level merge sort of q_sort: the split point and the merge rule
    of queue.c's `mergesort`, over sequences of strings. */
module Sorting {
  import opened StrOrder

  /** Ascending by strcmp: every element sorts no later than each one after it. */
  predicate Sorted(s: seq<string>) {
    forall i, j :: 0 <= i < j < |s| ==> LessEq(s[i], s[j])
  }

  /** Length of the first run when `mergesort` splits `n >= 2` nodes: the slow
      pointer stops at position (n-1)/2 and the first run ends there. */
  function SplitPoint(n: nat): (k: nat)
    requires n >= 2
    ensures 1 <= k < n
  {
    (n - 1) / 2 + 1
  }

  /** The merge loop: take from the left run only when its head sorts strictly
      first, otherwise from the right run; then append what remains. */
  function Merge(a: seq<string>, b: seq<string>): (r: seq<string>)
    ensures multiset(r) == multiset(a) + multiset(b)
    decreases |a| + |b|
  {
    if |a| == 0 then b
    else if |b| == 0 then a
    else if Compare(a[0], b[0]) < 0 then
      assert a == [a[0]] + a[1..];
      [a[0]] + Merge(a[1..], b)
    else
      assert b == [b[0]] + b[1..];
      [b[0]] + Merge(a, b[1..])
  }

  function MergeSort(s: seq<string>): (r: seq<string>)
    ensures multiset(r) == multiset(s)
    decreases |s|
  {
    if |s| <= 1 then s
    else
      var k := SplitPoint(|s|);
      assert s == s[..k] + s[k..];
      Merge(MergeSort(s[..k]), MergeSort(s[k..]))
  }

  /** A sorted sequence extended at the front by an element that sorts no
      later than any of its elements is sorted. */
  lemma SortedCons(x: string, s: seq<string>)
    requires Sorted(s)
    requires forall y :: y in s ==> LessEq(x, y)
    ensures Sorted([x] + s)
  {
    var t := [x] + s;
    forall i, j | 0 <= i < j < |t|
      ensures LessEq(t[i], t[j])
    {
      if i == 0 {
        assert t[j] == s[j - 1] && t[j] in s;
      } else {
        assert t[i] == s[i - 1] && t[j] == s[j - 1];
      }
    }
  }

  /** Merging two sorted runs gives a sorted run. */
  lemma {:induction false} MergeSorted(a: seq<string>, b: seq<string>)
    requires Sorted(a) && Sorted(b)
    ensures Sorted(Merge(a, b))
    decreases |a| + |b|
  {
    if |a| == 0 || |b| == 0 {
    } else if Compare(a[0], b[0]) < 0 {
      MergeSorted(a[1..], b);
      var m := Merge(a[1..], b);
      forall y | y in m
        ensures LessEq(a[0], y)
      {
        assert y in multiset(m);
        if y in a[1..] {
          var j :| 0 <= j < |a[1..]| && a[1..][j] == y;
          assert a[j + 1] == y;
        } else {
          assert y in b;
          var j :| 0 <= j < |b| && b[j] == y;
          if j > 0 {
            LessEqTransitive(a[0], b[0], y);
          }
        }
      }
      SortedCons(a[0], m);
    } else {
      MergeSorted(a, b[1..]);
      var m := Merge(a, b[1..]);
      LessEqTotal(a[0], b[0]);
      forall y | y in m
        ensures LessEq(b[0], y)
      {
        assert y in multiset(m);
        if y in b[1..] {
          var j :| 0 <= j < |b[1..]| && b[1..][j] == y;
          assert b[j + 1] == y;
        } else {
          assert y in a;
          var j :| 0 <= j < |a| && a[j] == y;
          if j > 0 {
            LessEqTransitive(b[0], a[0], y);
          }
        }
      }
      SortedCons(b[0], m);
    }
  }

  /** The merge sort returns its input in ascending order. */
  lemma {:induction false} MergeSortSorted(s: seq<string>)
    ensures Sorted(MergeSort(s))
    decreases |s|
  {
    if |s| > 1 {
      var k := SplitPoint(|s|);
      MergeSortSorted(s[..k]);
      MergeSortSorted(s[k..]);
      MergeSorted(MergeSort(s[..k]), MergeSort(s[k..]));
    }
  }

  /** The head of a sorted sequence sorts no later than any of its elements. */
  lemma SortedHeadFirst(s: seq<string>, y: string)
    requires Sorted(s) && y in s
    ensures LessEq(s[0], y)
  {
    var j :| 0 <= j < |s| && s[j] == y;
    if j == 0 {
      assert Compare(y, y) == 0;
    }
  }

  lemma TailMultiset(s: seq<string>)
    requires |s| > 0
    ensures multiset(s[1..]) == multiset(s) - multiset{s[0]}
  {
    assert s == [s[0]] + s[1..];
  }

  /** Two sorted arrangements of the same multiset of strings are the same
      sequence: the order has no ties between different strings. */
  lemma {:induction false} SortedUnique(a: seq<string>, b: seq<string>)
    requires Sorted(a) && Sorted(b)
    requires multiset(a) == multiset(b)
    ensures a == b
    decreases |a|
  {
    assert |a| == |multiset(a)| == |multiset(b)| == |b|;
    if |a| > 0 {
      SameHeads(a, b);
      SortedTail(a);
      SortedTail(b);
      SortedUnique(a[1..], b[1..]);
      assert a == [a[0]] + a[1..] && b == [b[0]] + b[1..];
    }
  }

  /** Two sorted arrangements of one multiset start with the same string,
      and what follows it is again one multiset. */
  lemma SameHeads(a: seq<string>, b: seq<string>)
    requires Sorted(a) && Sorted(b) && |a| > 0 && |b| > 0
    requires multiset(a) == multiset(b)
    ensures a[0] == b[0] && multiset(a[1..]) == multiset(b[1..])
  {
    assert a[0] in multiset(b) && b[0] in multiset(a);
    SortedHeadFirst(a, b[0]);
    SortedHeadFirst(b, a[0]);
    LessEqAntisymmetric(a[0], b[0]);
    TailMultiset(a);
    TailMultiset(b);
  }

  lemma SortedTail(s: seq<string>)
    requires Sorted(s) && |s| > 0
    ensures Sorted(s[1..])
  {
    forall i, j | 0 <= i < j < |s| - 1
      ensures LessEq(s[1..][i], s[1..][j])
    {
      assert s[1..][i] == s[i + 1] && s[1..][j] == s[j + 1];
    }
  }

  /** Sorting sorted input changes nothing. */
  lemma {:induction false} MergeSortOfSorted(s: seq<string>)
    requires Sorted(s)
    ensures MergeSort(s) == s
  {
    MergeSortSorted(s);
    SortedUnique(MergeSort(s), s);
  }

  /** Sorting twice is sorting once. */
  lemma {:induction false} MergeSortIdempotent(s: seq<string>)
    ensures MergeSort(MergeSort(s)) == MergeSort(s)
  {
    MergeSortSorted(s);
    MergeSortOfSorted(MergeSort(s));
  }
}
