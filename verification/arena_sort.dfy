/** q_sort on the node arena: the cycle is cut into a NULL-terminated chain
    of `next` links, `mergesort` sorts that chain by relinking nodes, and a
    final pass re-creates the `prev` links and closes the cycle. */
module ArenaSort {
  import opened SeqOps
  import opened StrOrder
  import opened Sorting
  import opened Arena
  import QueueSpec
  import ArenaOps

  /** `mergesort`'s merge loop on nodes: the left run's node goes first only
      when its string sorts strictly before the right run's. */
  function MergeNodes(val: seq<string>, a: seq<int>, b: seq<int>): (r: seq<int>)
    requires Within(val, a) && Within(val, b)
    ensures Within(val, r)
    decreases |a| + |b|
  {
    if |a| == 0 then b
    else if |b| == 0 then a
    else if Compare(val[a[0]], val[b[0]]) < 0 then
      var rest := MergeNodes(val, a[1..], b);
      ConsFacts(val, a, rest);
      [a[0]] + rest
    else
      var rest := MergeNodes(val, a, b[1..]);
      ConsFacts(val, b, rest);
      [b[0]] + rest
  }

  /** On equal strings the merge takes the right run's node first, so
      `mergesort` is not stable: of two nodes holding the same string, the
      later one ends up in front. */
  lemma MergeTieTakesRight(val: seq<string>, a: seq<int>, b: seq<int>)
    requires Within(val, a) && Within(val, b) && |a| > 0 && |b| > 0
    requires val[a[0]] == val[b[0]]
    ensures MergeNodes(val, a, b)[0] == b[0]
  {
    assert Compare(val[a[0]], val[b[0]]) == 0;
  }

  /** Two nodes holding the same string leave `mergesort` in the opposite
      order. */
  lemma SortNotStable(val: seq<string>, x: int, y: int)
    requires 0 <= x < |val| && 0 <= y < |val| && val[x] == val[y]
    ensures MergeSortNodes(val, [x, y]) == [y, x]
  {
    PairSortIsMerge(val, x, y);
    TieMerge(val, x, y);
  }

  /** A chain of two nodes is split into one node each and merged. */
  lemma PairSortIsMerge(val: seq<string>, x: int, y: int)
    requires 0 <= x < |val| && 0 <= y < |val|
    ensures MergeSortNodes(val, [x, y]) == MergeNodes(val, [x], [y])
  {
    var s := [x, y];
    assert SplitPoint(2) == 1;
    assert s[..1] == [x] && s[1..] == [y];
  }

  /** Merging two single nodes with equal strings puts the right one first. */
  lemma TieMerge(val: seq<string>, x: int, y: int)
    requires 0 <= x < |val| && 0 <= y < |val| && val[x] == val[y]
    ensures MergeNodes(val, [x], [y]) == [y, x]
  {
    MergeTieTakesRight(val, [x], [y]);
    assert MergeNodes(val, [x], [y]) == [y] + MergeNodes(val, [x], []);
  }

  /** Merging loses no node and adds none. */
  lemma {:induction false} MergeNodesPerm(val: seq<string>, a: seq<int>, b: seq<int>)
    requires Within(val, a) && Within(val, b)
    ensures multiset(MergeNodes(val, a, b)) == multiset(a) + multiset(b)
    decreases |a| + |b|
  {
    if |a| == 0 || |b| == 0 {
    } else if Compare(val[a[0]], val[b[0]]) < 0 {
      MergeNodesPerm(val, a[1..], b);
      ConsFacts(val, a, MergeNodes(val, a[1..], b));
    } else {
      MergeNodesPerm(val, a, b[1..]);
      ConsFacts(val, b, MergeNodes(val, a, b[1..]));
    }
  }

  /** Putting the head of `s` in front of `rest` adds that one node. */
  lemma ConsFacts(val: seq<string>, s: seq<int>, rest: seq<int>)
    requires Within(val, s) && Within(val, rest) && |s| > 0
    ensures Within(val, [s[0]] + rest)
    ensures multiset([s[0]] + rest) == multiset{s[0]} + multiset(rest)
    ensures multiset(s) == multiset{s[0]} + multiset(s[1..])
  {
    assert s == [s[0]] + s[1..];
  }

  /** `mergesort` on nodes: split after position SplitPoint, sort both runs,
      merge. */
  function MergeSortNodes(val: seq<string>, s: seq<int>): (r: seq<int>)
    requires Within(val, s)
    ensures multiset(r) == multiset(s)
    ensures Within(val, r)
    decreases |s|
  {
    if |s| <= 1 then s
    else
      var k := SplitPoint(|s|);
      assert s == s[..k] + s[k..];
      MergeNodesPerm(val, MergeSortNodes(val, s[..k]), MergeSortNodes(val, s[k..]));
      MergeNodes(val, MergeSortNodes(val, s[..k]), MergeSortNodes(val, s[k..]))
  }

  /** Merging nodes and reading their strings is merging the strings. */
  lemma {:induction false} MergeNodesStrings(val: seq<string>, a: seq<int>, b: seq<int>)
    requires Within(val, a) && Within(val, b)
    ensures Strings(val, MergeNodes(val, a, b)) == Merge(Strings(val, a), Strings(val, b))
    decreases |a| + |b|
  {
    if |a| == 0 || |b| == 0 {
    } else if Compare(val[a[0]], val[b[0]]) < 0 {
      MergeNodesStrings(val, a[1..], b);
      StringsCons(val, a);
      StringsCons(val, b);
      StringsPrepend(val, a[0], MergeNodes(val, a[1..], b));
    } else {
      MergeNodesStrings(val, a, b[1..]);
      StringsCons(val, a);
      StringsCons(val, b);
      StringsPrepend(val, b[0], MergeNodes(val, a, b[1..]));
    }
  }

  lemma StringsCons(val: seq<string>, s: seq<int>)
    requires Within(val, s) && |s| > 0
    ensures Strings(val, s)[0] == val[s[0]] && Strings(val, s)[1..] == Strings(val, s[1..])
  {
  }

  lemma StringsPrepend(val: seq<string>, x: int, s: seq<int>)
    requires Within(val, s) && 0 <= x < |val|
    ensures Within(val, [x] + s) && Strings(val, [x] + s) == [val[x]] + Strings(val, s)
  {
  }

  /** The node-level sort puts the strings in the order the string-level
      merge sort does. */
  lemma {:induction false} MergeSortNodesStrings(val: seq<string>, s: seq<int>)
    requires Within(val, s)
    ensures Strings(val, MergeSortNodes(val, s)) == MergeSort(Strings(val, s))
    decreases |s|
  {
    if |s| > 1 {
      var k := SplitPoint(|s|);
      MergeSortNodesStrings(val, s[..k]);
      MergeSortNodesStrings(val, s[k..]);
      StringsSlices(val, s, k);
      MergeNodesStrings(val, MergeSortNodes(val, s[..k]), MergeSortNodes(val, s[k..]));
    }
  }

  /** Reading the strings of a slice is slicing the strings. */
  lemma StringsSlices(val: seq<string>, s: seq<int>, k: int)
    requires Within(val, s) && 0 <= k <= |s|
    ensures Strings(val, s[..k]) == Strings(val, s)[..k]
    ensures Strings(val, s[k..]) == Strings(val, s)[k..]
  {
  }

  /** Merging two disjoint runs of distinct nodes loses no node and
      duplicates none. */
  lemma {:induction false} MergeNodesDistinct(val: seq<string>, a: seq<int>, b: seq<int>)
    requires Within(val, a) && Within(val, b)
    requires Distinct(a) && Distinct(b) && Disjoint(a, b)
    ensures Distinct(MergeNodes(val, a, b))
    decreases |a| + |b|
  {
    if |a| == 0 || |b| == 0 {
    } else if Compare(val[a[0]], val[b[0]]) < 0 {
      MergeNodesDistinct(val, a[1..], b);
      var m := MergeNodes(val, a[1..], b);
      MergeNodesPerm(val, a[1..], b);
      assert a[0] !in a[1..] && a[0] !in b;
      assert a[0] !in multiset(m);
      ConsDistinct(a[0], m);
    } else {
      MergeNodesDistinct(val, a, b[1..]);
      var m := MergeNodes(val, a, b[1..]);
      MergeNodesPerm(val, a, b[1..]);
      assert b[0] !in b[1..] && b[0] !in a;
      assert b[0] !in multiset(m);
      ConsDistinct(b[0], m);
    }
  }

  lemma ConsDistinct(x: int, s: seq<int>)
    requires Distinct(s) && x !in s
    ensures Distinct([x] + s)
  {
    var t := [x] + s;
    forall i, j | 0 <= i < j < |t|
      ensures t[i] != t[j]
    {
      assert t[j] == s[j - 1];
      if i > 0 {
        assert t[i] == s[i - 1];
      }
    }
  }

  /** Sorting distinct nodes gives distinct nodes. */
  lemma {:induction false} MergeSortNodesDistinct(val: seq<string>, s: seq<int>)
    requires Within(val, s) && Distinct(s)
    ensures Distinct(MergeSortNodes(val, s))
    decreases |s|
  {
    if |s| > 1 {
      var k := SplitPoint(|s|);
      DistinctSlices(s, k);
      MergeSortNodesDistinct(val, s[..k]);
      MergeSortNodesDistinct(val, s[k..]);
      var a, b := MergeSortNodes(val, s[..k]), MergeSortNodes(val, s[k..]);
      SortedRunsDisjoint(val, s, k);
      MergeNodesDistinct(val, a, b);
    }
  }

  lemma DistinctSlices(s: seq<int>, k: int)
    requires Distinct(s) && 0 <= k <= |s|
    ensures Distinct(s[..k]) && Distinct(s[k..])
  {
    forall a, b | 0 <= a < b < |s| - k
      ensures s[k..][a] != s[k..][b]
    {
      assert s[k..][a] == s[k + a] && s[k..][b] == s[k + b];
    }
  }

  /** Rearranging one side keeps two runs disjoint. */
  lemma PermDisjoint(a: seq<int>, a': seq<int>, b: seq<int>)
    requires multiset(a') == multiset(a) && Disjoint(a, b)
    ensures Disjoint(a', b) && Disjoint(b, a')
  {
    forall p, q | 0 <= p < |a'| && 0 <= q < |b|
      ensures a'[p] != b[q]
    {
      assert a'[p] in multiset(a);
      assert a'[p] in a;
    }
  }

  lemma SlicesDisjoint(s: seq<int>, k: int)
    requires Distinct(s) && 0 <= k <= |s|
    ensures Disjoint(s[..k], s[k..])
  {
    forall p, q | 0 <= p < k && 0 <= q < |s| - k
      ensures s[..k][p] != s[k..][q]
    {
      assert s[..k][p] == s[p] && s[k..][q] == s[k + q];
    }
  }

  /** The two sorted runs of distinct nodes share no node. */
  lemma {:induction false} SortedRunsDisjoint(val: seq<string>, s: seq<int>, k: int)
    requires Within(val, s) && Distinct(s) && 0 <= k <= |s|
    ensures Disjoint(MergeSortNodes(val, s[..k]), MergeSortNodes(val, s[k..]))
  {
    var a, b := MergeSortNodes(val, s[..k]), MergeSortNodes(val, s[k..]);
    SlicesDisjoint(s, k);
    PermDisjoint(s[..k], a, s[k..]);
    PermDisjoint(s[k..], b, a);
  }

  /** `s` is a NULL-terminated chain along `next`: the shape `mergesort`
      works on. */
  predicate Chain(h: Heap, s: seq<int>) {
    && (forall i :: 0 <= i < |s| ==> 0 <= s[i] < |h.next|)
    && Distinct(s)
    && (forall i {:trigger h.next[s[i]]} :: 0 <= i < |s| ==> h.next[s[i]] == if i + 1 < |s| then s[i + 1] else NIL)
  }

  /** A chain survives any change of `next` outside its nodes. */
  lemma ChainFrame(h: Heap, h': Heap, s: seq<int>)
    requires Chain(h, s) && |h'.next| == |h.next|
    requires forall i :: 0 <= i < |s| ==> h'.next[s[i]] == h.next[s[i]]
    ensures Chain(h', s)
  {
    forall i | 0 <= i < |s|
      ensures h'.next[s[i]] == if i + 1 < |s| then s[i + 1] else NIL
    {
      assert h.next[s[i]] == if i + 1 < |s| then s[i + 1] else NIL;
    }
  }

  /** Cutting the chain after position `k - 1` leaves two chains. */
  lemma SplitChain(h: Heap, s: seq<int>, k: int)
    requires WellSized(h) && Chain(h, s) && 1 <= k < |s|
    ensures Chain(h.(next := h.next[s[k - 1] := NIL]), s[..k])
    ensures Chain(h.(next := h.next[s[k - 1] := NIL]), s[k..])
  {
    var h1 := h.(next := h.next[s[k - 1] := NIL]);
    var a, b := s[..k], s[k..];
    forall i | 0 <= i < |a|
      ensures h1.next[a[i]] == if i + 1 < |a| then a[i + 1] else NIL
    {
      assert h.next[s[i]] == if i + 1 < |s| then s[i + 1] else NIL;
    }
    forall i | 0 <= i < |b|
      ensures h1.next[b[i]] == if i + 1 < |b| then b[i + 1] else NIL
    {
      assert b[i] == s[k + i] && s[k + i] != s[k - 1];
      assert h.next[s[k + i]] == if k + i + 1 < |s| then s[k + i + 1] else NIL;
    }
  }

  /** The split loop of `mergesort`: `flag` moves two nodes for each node
      `mid` moves, until `flag` has fewer than two nodes after it. */
  method Middle(h: Heap, start: int, ghost s: seq<int>) returns (mid: int)
    requires Chain(h, s) && |s| >= 2 && start == s[0]
    ensures mid == s[SplitPoint(|s|) - 1]
  {
    mid := start;
    var flag := start;
    ghost var t := 0;
    while h.next[flag] != NIL && h.next[h.next[flag]] != NIL
      invariant 0 <= t && 2 * t < |s| && flag == s[2 * t] && mid == s[t]
      decreases |s| - 2 * t
    {
      assert h.next[s[2 * t]] == s[2 * t + 1];
      assert h.next[s[2 * t + 1]] == s[2 * t + 2];
      flag := h.next[h.next[flag]];
      mid := h.next[mid];
      assert h.next[s[t]] == s[t + 1];
      t := t + 1;
    }
    assert h.next[s[2 * t]] == if 2 * t + 1 < |s| then s[2 * t + 1] else NIL;
    if 2 * t + 1 < |s| {
      assert h.next[s[2 * t + 1]] == NIL;
    }
    assert 2 * t == |s| - 1 || 2 * t == |s| - 2;
  }

  /** The merge of what is left of the two runs once `i` nodes of `a` and
      `j` of `b` have been taken. */
  function MergeFrom(val: seq<string>, a: seq<int>, b: seq<int>, i: int, j: int): (r: seq<int>)
    requires Within(val, a) && Within(val, b) && 0 <= i <= |a| && 0 <= j <= |b|
    decreases |a| - i + |b| - j
  {
    if i == |a| then b[j..]
    else if j == |b| then a[i..]
    else if Compare(val[a[i]], val[b[j]]) < 0 then [a[i]] + MergeFrom(val, a, b, i + 1, j)
    else [b[j]] + MergeFrom(val, a, b, i, j + 1)
  }

  /** Merging what is left is merging the two suffixes. */
  lemma {:induction false} MergeFromSlices(val: seq<string>, a: seq<int>, b: seq<int>, i: int, j: int)
    requires Within(val, a) && Within(val, b) && 0 <= i <= |a| && 0 <= j <= |b|
    ensures MergeFrom(val, a, b, i, j) == MergeNodes(val, a[i..], b[j..])
    decreases |a| - i + |b| - j
  {
    if i == |a| || j == |b| {
    } else if Compare(val[a[i]], val[b[j]]) < 0 {
      MergeFromSlices(val, a, b, i + 1, j);
      MergeLeftStep(val, a, b, i, j);
    } else {
      MergeFromSlices(val, a, b, i, j + 1);
      MergeRightStep(val, a, b, i, j);
    }
  }

  lemma MergeLeftStep(val: seq<string>, a: seq<int>, b: seq<int>, i: int, j: int)
    requires Within(val, a) && Within(val, b) && 0 <= i < |a| && 0 <= j < |b|
    requires Compare(val[a[i]], val[b[j]]) < 0
    ensures MergeNodes(val, a[i..], b[j..]) == [a[i]] + MergeNodes(val, a[i + 1..], b[j..])
  {
    assert a[i..][1..] == a[i + 1..];
  }

  lemma MergeRightStep(val: seq<string>, a: seq<int>, b: seq<int>, i: int, j: int)
    requires Within(val, a) && Within(val, b) && 0 <= i < |a| && 0 <= j < |b|
    requires Compare(val[a[i]], val[b[j]]) >= 0
    ensures MergeNodes(val, a[i..], b[j..]) == [b[j]] + MergeNodes(val, a[i..], b[j + 1..])
  {
    assert b[j..][1..] == b[j + 1..];
  }

  /** No node is in both runs. */
  predicate Disjoint(a: seq<int>, b: seq<int>) {
    forall p, q :: 0 <= p < |a| && 0 <= q < |b| ==> a[p] != b[q]
  }

  /** The state of the merge loop after `i` nodes of the left run and `j`
      of the right run have been taken: `acc` is the merged prefix, each of
      its nodes but the last already points at the next, and the nodes not
      yet taken still have their old `next`. */
  predicate MergeInv(h: Heap, h': Heap, lo: seq<int>, ro: seq<int>, acc: seq<int>, i: int, j: int)
    requires WellSized(h) && Within(h.val, lo) && Within(h.val, ro)
  {
    && 0 <= i <= |lo| && 0 <= j <= |ro| && |acc| == i + j
    && |h'.next| == |h.next|
    && acc + MergeFrom(h.val, lo, ro, i, j) == MergeNodes(h.val, lo, ro)
    && (forall k :: 0 <= k < |acc| ==> 0 <= acc[k] < |h.next|)
    && (forall k :: 0 <= k < |acc| - 1 ==> h'.next[acc[k]] == acc[k + 1])
    && (forall x {:trigger h'.next[x]} :: 0 <= x < |h.next| && x !in acc ==> h'.next[x] == h.next[x])
  }

  /** What the merge invariant implies: the merged prefix repeats no node,
      shares none with the nodes not yet taken, and holds only nodes of the
      two runs, so the nodes not yet taken and those outside both runs still
      have their old `next`. */
  lemma MergeInvFacts(h: Heap, h': Heap, lo: seq<int>, ro: seq<int>, acc: seq<int>, i: int, j: int)
    requires WellSized(h) && Chain(h, lo) && Chain(h, ro) && Disjoint(lo, ro)
    requires Within(h.val, lo) && Within(h.val, ro) && MergeInv(h, h', lo, ro, acc, i, j)
    ensures Distinct(acc)
    ensures forall k, t :: 0 <= k < |acc| && i <= t < |lo| ==> acc[k] != lo[t]
    ensures forall k, t :: 0 <= k < |acc| && j <= t < |ro| ==> acc[k] != ro[t]
    ensures forall k :: 0 <= k < |acc| ==> 0 <= acc[k] < |h.next| && (acc[k] in lo || acc[k] in ro)
    ensures forall t :: i <= t < |lo| ==> h'.next[lo[t]] == h.next[lo[t]]
    ensures forall t :: j <= t < |ro| ==> h'.next[ro[t]] == h.next[ro[t]]
    ensures forall x {:trigger h'.next[x]} :: 0 <= x < |h.next| && x !in lo && x !in ro ==> h'.next[x] == h.next[x]
  {
    var rest := MergeFrom(h.val, lo, ro, i, j);
    MergeNodesDistinct(h.val, lo, ro);
    MergeNodesPerm(h.val, lo, ro);
    MergeFromSlices(h.val, lo, ro, i, j);
    MergeNodesPerm(h.val, lo[i..], ro[j..]);
    MergePrefixFacts(lo, ro, acc, rest, i, j);
  }

  /** The sequence half of `MergeInvFacts`: a prefix of a repetition-free
      arrangement of two runs, whose rest holds the runs' untaken suffixes. */
  lemma MergePrefixFacts(lo: seq<int>, ro: seq<int>, acc: seq<int>, rest: seq<int>, i: int, j: int)
    requires 0 <= i <= |lo| && 0 <= j <= |ro|
    requires Distinct(acc + rest) && multiset(acc + rest) == multiset(lo) + multiset(ro)
    requires multiset(rest) == multiset(lo[i..]) + multiset(ro[j..])
    ensures Distinct(acc)
    ensures forall k, t :: 0 <= k < |acc| && i <= t < |lo| ==> acc[k] != lo[t]
    ensures forall k, t :: 0 <= k < |acc| && j <= t < |ro| ==> acc[k] != ro[t]
    ensures forall t :: i <= t < |lo| ==> lo[t] !in acc
    ensures forall t :: j <= t < |ro| ==> ro[t] !in acc
    ensures forall k :: 0 <= k < |acc| ==> acc[k] in lo || acc[k] in ro
  {
    var m := acc + rest;
    forall k | 0 <= k < |acc|
      ensures m[k] == acc[k] && acc[k] in multiset(lo) + multiset(ro)
    {
      assert m[k] in multiset(m);
    }
    forall k, t | 0 <= k < |acc| && i <= t < |lo|
      ensures acc[k] != lo[t]
    {
      RestIndex(lo, i, t, m, acc, rest, multiset(ro[j..]));
    }
    forall k, t | 0 <= k < |acc| && j <= t < |ro|
      ensures acc[k] != ro[t]
    {
      RestIndex(ro, j, t, m, acc, rest, multiset(lo[i..]));
    }
  }

  /** A node not yet taken from a run sits in the unmerged rest, so after
      the merged prefix. */
  lemma RestIndex(run: seq<int>, i: int, t: int, m: seq<int>, acc: seq<int>, rest: seq<int>, other: multiset<int>)
    requires 0 <= i <= t < |run| && m == acc + rest && Distinct(m)
    requires multiset(rest) == multiset(run[i..]) + other
    ensures forall k :: 0 <= k < |acc| ==> acc[k] != run[t]
  {
    assert run[i..][t - i] == run[t];
    assert run[t] in multiset(rest);
    var u :| 0 <= u < |rest| && rest[u] == run[t];
    assert m[|acc| + u] == run[t];
    forall k | 0 <= k < |acc|
      ensures acc[k] != run[t]
    {
      assert m[k] == acc[k];
    }
  }

  lemma MergeInit(h: Heap, lo: seq<int>, ro: seq<int>)
    requires WellSized(h) && Chain(h, lo) && Chain(h, ro)
    ensures Within(h.val, lo) && Within(h.val, ro) && MergeInv(h, h, lo, ro, [], 0, 0)
  {
    MergeFromSlices(h.val, lo, ro, 0, 0);
    assert lo[0..] == lo && ro[0..] == ro;
  }

  /** One iteration of the merge loop: the chosen node `pick` is written
      into `*phead` (the `next` of the last merged node, or `new_head`), then
      its run advances along its unchanged `next`. */
  lemma MergeStep(h: Heap, h0: Heap, h1: Heap, lo: seq<int>, ro: seq<int>, acc: seq<int>, i: int, j: int,
                  takeLeft: bool, pick: int)
    requires WellSized(h) && Chain(h, lo) && Chain(h, ro) && Disjoint(lo, ro)
    requires Within(h.val, lo) && Within(h.val, ro) && MergeInv(h, h0, lo, ro, acc, i, j)
    requires i < |lo| && j < |ro| && takeLeft == (Compare(h.val[lo[i]], h.val[ro[j]]) < 0)
    requires pick == if takeLeft then lo[i] else ro[j]
    requires h1 == if |acc| == 0 then h0 else h0.(next := h0.next[acc[|acc| - 1] := pick])
    ensures MergeInv(h, h1, lo, ro, acc + [pick], if takeLeft then i + 1 else i, if takeLeft then j else j + 1)
    ensures 0 <= pick < |h1.next|
    ensures h1.next[pick] == if takeLeft then (if i + 1 < |lo| then lo[i + 1] else NIL)
                             else (if j + 1 < |ro| then ro[j + 1] else NIL)
  {
    MergeInvFacts(h, h0, lo, ro, acc, i, j);
    assert h.next[lo[i]] == if i + 1 < |lo| then lo[i + 1] else NIL;
    assert h.next[ro[j]] == if j + 1 < |ro| then ro[j + 1] else NIL;
    assert forall k :: 0 <= k < |acc| ==> acc[k] != pick;
    MergeSeqStep(h.val, lo, ro, acc, i, j, takeLeft, pick);
    MergeLinkStep(h0, h1, acc, pick);
    MergeFrameStep(h, h0, h1, acc, pick);
  }

  /** Nodes outside the grown prefix still have their old `next`. */
  lemma MergeFrameStep(h: Heap, h0: Heap, h1: Heap, acc: seq<int>, pick: int)
    requires |h0.next| == |h.next| && (|acc| > 0 ==> 0 <= acc[|acc| - 1] < |h.next|)
    requires forall x {:trigger h0.next[x]} :: 0 <= x < |h.next| && x !in acc ==> h0.next[x] == h.next[x]
    requires h1 == if |acc| == 0 then h0 else h0.(next := h0.next[acc[|acc| - 1] := pick])
    ensures forall x {:trigger h1.next[x]} :: 0 <= x < |h.next| && x !in acc + [pick] ==> h1.next[x] == h.next[x]
  {
    forall x | 0 <= x < |h.next| && x !in acc + [pick]
      ensures h1.next[x] == h.next[x]
    {
      assert x !in acc;
      if |acc| > 0 {
        assert x != acc[|acc| - 1];
      }
    }
  }

  lemma MergeSeqStep(val: seq<string>, lo: seq<int>, ro: seq<int>, acc: seq<int>, i: int, j: int,
                     takeLeft: bool, pick: int)
    requires Within(val, lo) && Within(val, ro) && 0 <= i < |lo| && 0 <= j < |ro|
    requires takeLeft == (Compare(val[lo[i]], val[ro[j]]) < 0)
    requires pick == if takeLeft then lo[i] else ro[j]
    requires acc + MergeFrom(val, lo, ro, i, j) == MergeNodes(val, lo, ro)
    ensures (acc + [pick]) + MergeFrom(val, lo, ro, if takeLeft then i + 1 else i, if takeLeft then j else j + 1)
            == MergeNodes(val, lo, ro)
  {
    if takeLeft {
      SnocAssoc(acc, pick, MergeFrom(val, lo, ro, i + 1, j));
    } else {
      SnocAssoc(acc, pick, MergeFrom(val, lo, ro, i, j + 1));
    }
  }

  lemma SnocAssoc(a: seq<int>, x: int, b: seq<int>)
    ensures a + ([x] + b) == (a + [x]) + b
  {
  }

  lemma MergeLinkStep(h0: Heap, h1: Heap, acc: seq<int>, pick: int)
    requires Distinct(acc) && (forall k :: 0 <= k < |acc| ==> 0 <= acc[k] < |h0.next|)
    requires forall k :: 0 <= k < |acc| - 1 ==> h0.next[acc[k]] == acc[k + 1]
    requires h1 == if |acc| == 0 then h0 else h0.(next := h0.next[acc[|acc| - 1] := pick])
    ensures forall k :: 0 <= k < |acc + [pick]| - 1 ==> h1.next[(acc + [pick])[k]] == (acc + [pick])[k + 1]
  {
    var acc' := acc + [pick];
    if |acc| > 0 {
      var last := acc[|acc| - 1];
      forall k | 0 <= k < |acc'| - 1
        ensures h1.next[acc'[k]] == acc'[k + 1]
      {
        if k < |acc| - 1 {
          assert acc'[k] == acc[k] && acc'[k + 1] == acc[k + 1] && acc[k] != last;
        } else {
          assert acc'[k] == last && acc'[k + 1] == pick;
        }
      }
    }
  }

  /** The merge loop of `mergesort`. `tail` stands for `phead`: NIL while it
      points at the local `new_head`, otherwise the node whose `next` field
      it points at. The ghost `acc` is the merged prefix built so far. */
  method MergeChains(h: Heap, left0: int, right0: int, ghost lo: seq<int>, ghost ro: seq<int>)
    returns (h': Heap, first: int)
    requires WellSized(h) && Chain(h, lo) && Chain(h, ro) && |lo| >= 1 && |ro| >= 1
    requires left0 == lo[0] && right0 == ro[0]
    requires Disjoint(lo, ro)
    ensures Within(h.val, lo) && Within(h.val, ro)
    ensures WellSized(h') && h'.val == h.val && h'.prev == h.prev
    ensures Chain(h', MergeNodes(h.val, lo, ro)) && first == MergeNodes(h.val, lo, ro)[0]
    ensures forall x {:trigger h'.next[x]} :: 0 <= x < |h.next| && x !in lo && x !in ro ==> h'.next[x] == h.next[x]
  {
    MergeInit(h, lo, ro);
    h' := h;
    var left, right := left0, right0;
    var newHead := left0;
    var tail := NIL;
    ghost var i, j := 0, 0;
    ghost var acc: seq<int> := [];
    while left != NIL && right != NIL
      invariant MergeInv(h, h', lo, ro, acc, i, j)
      invariant h'.val == h.val && h'.prev == h.prev
      invariant left == (if i < |lo| then lo[i] else NIL)
      invariant right == (if j < |ro| then ro[j] else NIL)
      invariant tail == (if |acc| > 0 then acc[|acc| - 1] else NIL)
      invariant |acc| > 0 ==> newHead == acc[0]
      decreases |lo| - i + |ro| - j
    {
      var takeLeft := Compare(h'.val[left], h'.val[right]) < 0;
      var pick := if takeLeft then left else right;
      ghost var h0 := h';
      // *phead = *next;
      if tail == NIL {
        newHead := pick;
      } else {
        h' := h'.(next := h'.next[tail := pick]);
      }
      MergeStep(h, h0, h', lo, ro, acc, i, j, takeLeft, pick);
      // *next = (*next)->next;
      if takeLeft {
        left := h'.next[left];
        i := i + 1;
      } else {
        right := h'.next[right];
        j := j + 1;
      }
      // phead = &(*phead)->next;
      tail := pick;
      acc := acc + [pick];
    }
    h', first := MergeRest(h, h', left, right, tail, newHead, lo, ro, acc, i, j);
  }

  /** The end of the merge, `*phead = left ? left : right`: the run that is
      not yet exhausted is hung after the last merged node. */
  method MergeRest(h: Heap, hm: Heap, left: int, right: int, tail: int, newHead: int,
                   ghost lo: seq<int>, ghost ro: seq<int>, ghost acc: seq<int>, ghost i: int, ghost j: int)
    returns (h': Heap, first: int)
    requires WellSized(h) && Chain(h, lo) && Chain(h, ro) && Disjoint(lo, ro)
    requires |lo| >= 1 && |ro| >= 1
    requires Within(h.val, lo) && Within(h.val, ro) && MergeInv(h, hm, lo, ro, acc, i, j)
    requires hm.val == h.val && hm.prev == h.prev
    requires left == (if i < |lo| then lo[i] else NIL)
    requires right == (if j < |ro| then ro[j] else NIL)
    requires tail == (if |acc| > 0 then acc[|acc| - 1] else NIL)
    requires |acc| > 0 ==> newHead == acc[0]
    requires left == NIL || right == NIL
    ensures WellSized(h') && h'.val == h.val && h'.prev == h.prev
    ensures Chain(h', MergeNodes(h.val, lo, ro)) && first == MergeNodes(h.val, lo, ro)[0]
    ensures forall x {:trigger h'.next[x]} :: 0 <= x < |h.next| && x !in lo && x !in ro ==> h'.next[x] == h.next[x]
  {
    var rest := if left != NIL then left else right;
    if tail == NIL {
      h' := hm;
    } else {
      h' := hm.(next := hm.next[tail := rest]);
    }
    first := newHead;
    MergeDone(h, hm, h', lo, ro, acc, i, j);
  }

  lemma SnocDistinct(s: seq<int>, x: int)
    requires Distinct(s) && forall k :: 0 <= k < |s| ==> s[k] != x
    ensures Distinct(s + [x])
  {
  }

  /** After the final `*phead = left ? left : right`, the merged prefix and
      the leftover run form one chain. */
  lemma {:induction false} MergeDone(h: Heap, hm: Heap, h': Heap, lo: seq<int>, ro: seq<int>, acc: seq<int>, i: int, j: int)
    requires WellSized(h) && Chain(h, lo) && Chain(h, ro) && Disjoint(lo, ro)
    requires |lo| >= 1 && |ro| >= 1
    requires Within(h.val, lo) && Within(h.val, ro) && MergeInv(h, hm, lo, ro, acc, i, j)
    requires i == |lo| || j == |ro|
    requires h' == if |acc| == 0 then hm else
      hm.(next := hm.next[acc[|acc| - 1] := if i < |lo| then lo[i] else if j < |ro| then ro[j] else NIL])
    ensures |acc| > 0 && MergeNodes(h.val, lo, ro)[0] == acc[0]
    ensures Chain(h', MergeNodes(h.val, lo, ro))
    ensures forall x {:trigger h'.next[x]} :: 0 <= x < |h.next| && x !in lo && x !in ro ==> h'.next[x] == h.next[x]
  {
    MergeDoneSeq(h.val, lo, ro, acc, i, j);
    MergeDoneLinks(h, hm, h', lo, ro, acc, i, j);
    MergeDoneFrame(h, hm, h', lo, ro, acc, i, j);
  }

  /** When one run is exhausted the merge is what was taken followed by
      the rest of the other run. */
  lemma MergeDoneSeq(val: seq<string>, lo: seq<int>, ro: seq<int>, acc: seq<int>, i: int, j: int)
    requires Within(val, lo) && Within(val, ro) && |lo| >= 1 && |ro| >= 1
    requires 0 <= i <= |lo| && 0 <= j <= |ro| && |acc| == i + j && (i == |lo| || j == |ro|)
    requires acc + MergeFrom(val, lo, ro, i, j) == MergeNodes(val, lo, ro)
    ensures MergeNodes(val, lo, ro) == acc + (if i < |lo| then lo[i..] else ro[j..])
    ensures |acc| > 0 && MergeNodes(val, lo, ro)[0] == acc[0]
  {
  }

  /** A chain from the link of each of its nodes. */
  lemma ChainIntro(h: Heap, s: seq<int>)
    requires Distinct(s)
    requires forall t :: 0 <= t < |s| ==> && 0 <= s[t] < |h.next| && h.next[s[t]] == if t + 1 < |s| then s[t + 1] else NIL
    ensures Chain(h, s)
  {
  }

  /** After the final write every node of the merge points at its successor. */
  lemma {:induction false} MergeDoneLinks(h: Heap, hm: Heap, h': Heap, lo: seq<int>, ro: seq<int>, acc: seq<int>, i: int, j: int)
    requires WellSized(h) && Chain(h, lo) && Chain(h, ro) && Disjoint(lo, ro)
    requires |lo| >= 1 && |ro| >= 1
    requires Within(h.val, lo) && Within(h.val, ro) && MergeInv(h, hm, lo, ro, acc, i, j)
    requires i == |lo| || j == |ro|
    requires |acc| > 0
    requires h' == hm.(next := hm.next[acc[|acc| - 1] := if i < |lo| then lo[i] else if j < |ro| then ro[j] else NIL])
    requires MergeNodes(h.val, lo, ro) == acc + (if i < |lo| then lo[i..] else ro[j..])
    ensures Chain(h', MergeNodes(h.val, lo, ro))
  {
    var m := MergeNodes(h.val, lo, ro);
    var r := if i < |lo| then lo[i..] else ro[j..];
    MergeNodesDistinct(h.val, lo, ro);
    forall t | 0 <= t < |m|
      ensures && 0 <= m[t] < |h'.next| && h'.next[m[t]] == if t + 1 < |m| then m[t + 1] else NIL
    {
      MergeDoneAt(h, hm, h', lo, ro, acc, i, j, m, r, t);
    }
    ChainIntro(h', m);
  }

  /** Nodes outside both runs keep their `next` through the final write. */
  lemma MergeDoneFrame(h: Heap, hm: Heap, h': Heap, lo: seq<int>, ro: seq<int>, acc: seq<int>, i: int, j: int)
    requires WellSized(h) && Chain(h, lo) && Chain(h, ro) && Disjoint(lo, ro)
    requires Within(h.val, lo) && Within(h.val, ro) && MergeInv(h, hm, lo, ro, acc, i, j)
    requires h' == if |acc| == 0 then hm else
      hm.(next := hm.next[acc[|acc| - 1] := if i < |lo| then lo[i] else if j < |ro| then ro[j] else NIL])
    ensures forall x {:trigger h'.next[x]} :: 0 <= x < |h.next| && x !in lo && x !in ro ==> h'.next[x] == h.next[x]
  {
    MergeInvFacts(h, hm, lo, ro, acc, i, j);
    forall x | 0 <= x < |h.next| && x !in lo && x !in ro
      ensures h'.next[x] == h.next[x]
    {
      if |acc| > 0 {
        assert acc[|acc| - 1] in lo || acc[|acc| - 1] in ro;
      }
    }
  }

  lemma MergeDoneAt(h: Heap, hm: Heap, h': Heap, lo: seq<int>, ro: seq<int>, acc: seq<int>, i: int, j: int,
                    m: seq<int>, r: seq<int>, t: int)
    requires WellSized(h) && Chain(h, lo) && Chain(h, ro) && Disjoint(lo, ro)
    requires Within(h.val, lo) && Within(h.val, ro) && MergeInv(h, hm, lo, ro, acc, i, j)
    requires |acc| > 0 && (i == |lo| || j == |ro|)
    requires r == (if i < |lo| then lo[i..] else ro[j..]) && m == acc + r
    requires h' == hm.(next := hm.next[acc[|acc| - 1] := if i < |lo| then lo[i] else if j < |ro| then ro[j] else NIL])
    requires 0 <= t < |m|
    ensures 0 <= m[t] < |h'.next|
    ensures h'.next[m[t]] == if t + 1 < |m| then m[t + 1] else NIL
  {
    MergeInvFacts(h, hm, lo, ro, acc, i, j);
    var nx := if i < |lo| then lo[i] else if j < |ro| then ro[j] else NIL;
    assert nx == if |r| > 0 then r[0] else NIL;
    if t < |acc| {
      MergeDonePrefix(hm, h', acc, r, nx, t);
    } else if i < |lo| {
      MergeDoneRest(h, hm, h', lo, i, acc, nx, t);
    } else {
      MergeDoneRest(h, hm, h', ro, j, acc, nx, t);
    }
  }

  /** The merged prefix: each node points at the next, the last one at the
      leftover run. */
  lemma MergeDonePrefix(hm: Heap, h': Heap, acc: seq<int>, r: seq<int>, nx: int, t: int)
    requires Distinct(acc) && (forall k :: 0 <= k < |acc| ==> 0 <= acc[k] < |hm.next|)
    requires forall k :: 0 <= k < |acc| - 1 ==> hm.next[acc[k]] == acc[k + 1]
    requires nx == (if |r| > 0 then r[0] else NIL)
    requires 0 <= t < |acc| && h' == hm.(next := hm.next[acc[|acc| - 1] := nx])
    ensures 0 <= (acc + r)[t] < |h'.next|
    ensures h'.next[(acc + r)[t]] == if t + 1 < |acc + r| then (acc + r)[t + 1] else NIL
  {
    AppendIndex(acc, r, t);
    if t + 1 < |acc + r| {
      AppendIndex(acc, r, t + 1);
    }
    if t < |acc| - 1 {
      assert acc[t] != acc[|acc| - 1];
    }
  }

  /** The leftover run keeps the links it had. */
  lemma MergeDoneRest(h: Heap, hm: Heap, h': Heap, run: seq<int>, i: int, acc: seq<int>, nx: int, t: int)
    requires Chain(h, run) && 0 <= i <= |run| && |acc| > 0
    requires |hm.next| == |h.next|
    requires forall k, u :: 0 <= k < |acc| && i <= u < |run| ==> acc[k] != run[u]
    requires forall u :: i <= u < |run| ==> hm.next[run[u]] == h.next[run[u]]
    requires 0 <= acc[|acc| - 1] < |hm.next| && h' == hm.(next := hm.next[acc[|acc| - 1] := nx])
    requires |acc| <= t < |acc| + |run| - i
    ensures 0 <= (acc + run[i..])[t] < |h'.next|
    ensures h'.next[(acc + run[i..])[t]] == if t + 1 < |acc + run[i..]| then (acc + run[i..])[t + 1] else NIL
  {
    var r := run[i..];
    var u := t - |acc|;
    AppendIndex(acc, r, t);
    if t + 1 < |acc + r| {
      AppendIndex(acc, r, t + 1);
    }
    assert r[u] == run[i + u] && run[i + u] != acc[|acc| - 1];
    assert h.next[run[i + u]] == if i + u + 1 < |run| then run[i + u + 1] else NIL;
  }

  lemma AppendIndex(a: seq<int>, b: seq<int>, t: int)
    requires 0 <= t < |a| + |b|
    ensures (a + b)[t] == if t < |a| then a[t] else b[t - |a|]
  {
  }

  /** A chain survives a call that writes `next` only on nodes of another,
      disjoint run. */
  lemma ChainFrameOut(h: Heap, h': Heap, a: seq<int>, b: seq<int>)
    requires Chain(h, b) && Disjoint(a, b) && |h'.next| == |h.next|
    requires forall x {:trigger h'.next[x]} :: 0 <= x < |h.next| && x !in a ==> h'.next[x] == h.next[x]
    ensures Chain(h', b)
  {
    forall t | 0 <= t < |b|
      ensures h'.next[b[t]] == h.next[b[t]]
    {
      assert forall p :: 0 <= p < |a| ==> a[p] != b[t];
      assert b[t] !in a;
    }
    ChainFrame(h, h', b);
  }

  /** The splitting half of `mergesort`: find the middle node with the slow
      and fast pointers, then cut the chain after it. Returns the last node
      of the left half and the first node of the right half. */
  method Halve(h: Heap, start: int, ghost s: seq<int>) returns (h1: Heap, mid: int, flag: int)
    requires WellSized(h) && Chain(h, s) && |s| >= 2 && start == s[0]
    ensures WellSized(h1) && h1.val == h.val && h1.prev == h.prev && |h1.next| == |h.next|
    ensures Chain(h1, s[..SplitPoint(|s|)]) && Chain(h1, s[SplitPoint(|s|)..])
    ensures mid == s[SplitPoint(|s|) - 1] && flag == s[SplitPoint(|s|)]
    ensures forall x {:trigger h1.next[x]} :: 0 <= x < |h.next| && x !in s ==> h1.next[x] == h.next[x]
    ensures Disjoint(s[..SplitPoint(|s|)], s[SplitPoint(|s|)..])
  {
    SlicesDisjoint(s, SplitPoint(|s|));
    mid := Middle(h, start, s);
    flag := h.next[mid];
    // mid->next = NULL;
    h1 := h.(next := h.next[mid := NIL]);
    SplitChain(h, s, SplitPoint(|s|));
  }

    /** `mergesort(start, end)`: sort the chain `s` running from `start` to
      `end` and return the first node of the sorted chain. */
  method MergeSortChain(h: Heap, start: int, end: int, ghost s: seq<int>) returns (h': Heap, first: int)
    requires WellSized(h) && Chain(h, s) && |s| >= 1 && start == s[0] && end == s[|s| - 1]
    ensures Within(h.val, s)
    ensures WellSized(h') && h'.val == h.val && h'.prev == h.prev
    ensures Chain(h', MergeSortNodes(h.val, s)) && first == MergeSortNodes(h.val, s)[0]
    ensures forall x {:trigger h'.next[x]} :: 0 <= x < |h.next| && x !in s ==> h'.next[x] == h.next[x]
    decreases |s|, 1
  {
    if start == end {
      assert |s| == 1;
      return h, start;
    }
    ghost var k := SplitPoint(|s|);
    var h1, mid, flag := Halve(h, start, s);
    LastOfTail(s, k);
    var h3, left, right := SortHalves(h1, start, mid, flag, end, s[..k], s[k..]);
    ghost var lo := MergeSortNodes(h.val, s[..k]);
    ghost var ro := MergeSortNodes(h.val, s[k..]);
    SortedRunsDisjoint(h.val, s, k);
    h', first := MergeChains(h3, left, right, lo, ro);
    MergedHalves(h.val, h', s, lo, ro, first);
    SortFrame(h, h1, h3, h', s, k, lo, ro);
  }

  /** The two recursive calls of `mergesort`, on the runs `a` (from `start`
      to `mid`) and `b` (from `flag` to `end`) left by the split. */
  method SortHalves(h: Heap, start: int, mid: int, flag: int, end: int, ghost a: seq<int>, ghost b: seq<int>)
    returns (h': Heap, left: int, right: int)
    requires |a| >= 1 && |b| >= 1 && Within(h.val, a) && Within(h.val, b)
    requires WellSized(h) && Chain(h, a) && Chain(h, b) && Disjoint(a, b)
    requires start == a[0] && mid == a[|a| - 1] && flag == b[0] && end == b[|b| - 1]
    ensures WellSized(h') && h'.val == h.val && h'.prev == h.prev
    ensures Chain(h', MergeSortNodes(h.val, a)) && left == MergeSortNodes(h.val, a)[0]
    ensures Chain(h', MergeSortNodes(h.val, b)) && right == MergeSortNodes(h.val, b)[0]
    ensures forall x {:trigger h'.next[x]} :: 0 <= x < |h.next| && x !in a && x !in b ==> h'.next[x] == h.next[x]
    decreases |a| + |b|, 0
  {
    var h2;
    h2, left := MergeSortChain(h, start, mid, a);
    ChainFrameOut(h, h2, a, b);
    h', right := MergeSortChain(h2, flag, end, b);
    PermDisjoint(a, MergeSortNodes(h.val, a), b);
    ChainFrameOut(h2, h', b, MergeSortNodes(h.val, a));
  }

  /** The merge of the two sorted halves is the sorted chain of `s`. */
  lemma MergedHalves(val: seq<string>, h': Heap, s: seq<int>, lo: seq<int>, ro: seq<int>, first: int)
    requires Within(val, s) && |s| >= 2
    requires lo == MergeSortNodes(val, s[..SplitPoint(|s|)]) && ro == MergeSortNodes(val, s[SplitPoint(|s|)..])
    requires Chain(h', MergeNodes(val, lo, ro)) && first == MergeNodes(val, lo, ro)[0]
    ensures Chain(h', MergeSortNodes(val, s)) && first == MergeSortNodes(val, s)[0]
  {
  }

  /** Composes the frames of the split, the two recursive sorts and the
      merge: nodes outside `s` keep their `next` throughout. */
  lemma SortFrame(h: Heap, h1: Heap, h3: Heap, h': Heap, s: seq<int>, k: int, lo: seq<int>, ro: seq<int>)
    requires 0 <= k <= |s|
    requires multiset(lo) == multiset(s[..k]) && multiset(ro) == multiset(s[k..])
    requires |h1.next| == |h.next| && |h3.next| == |h.next| && |h'.next| == |h.next|
    requires forall x {:trigger h1.next[x]} :: 0 <= x < |h.next| && x !in s ==> h1.next[x] == h.next[x]
    requires forall x {:trigger h3.next[x]} :: 0 <= x < |h1.next| && x !in s[..k] && x !in s[k..] ==> h3.next[x] == h1.next[x]
    requires forall x {:trigger h'.next[x]} :: 0 <= x < |h3.next| && x !in lo && x !in ro ==> h'.next[x] == h3.next[x]
    ensures forall x {:trigger h'.next[x]} :: 0 <= x < |h.next| && x !in s ==> h'.next[x] == h.next[x]
  {
    forall x | 0 <= x < |h.next| && x !in s
      ensures h'.next[x] == h.next[x]
    {
      OutsideRuns(s, k, lo, ro, x);
    }
  }

  /** The ends of the two runs of a split. */
  lemma LastOfTail(s: seq<int>, k: int)
    requires 0 <= k < |s|
    ensures |s[k..]| >= 1 && s[k..][0] == s[k] && s[k..][|s[k..]| - 1] == s[|s| - 1]
    ensures |s[..k]| == k && (k > 0 ==> s[..k][0] == s[0] && s[..k][k - 1] == s[k - 1])
  {
  }

  /** A node outside `s` is in neither sorted half of it. */
  lemma OutsideRuns(s: seq<int>, k: int, lo: seq<int>, ro: seq<int>, x: int)
    requires 0 <= k <= |s| && x !in s
    requires multiset(lo) == multiset(s[..k]) && multiset(ro) == multiset(s[k..])
    ensures x !in lo && x !in ro && x !in s[..k] && x !in s[k..]
  {
    assert s == s[..k] + s[k..];
    assert x !in multiset(s);
  }

  /** `end->next = NULL`: opening the cycle after its last node leaves the
      element nodes as a NULL-terminated chain. */
  lemma CutRing(h: Heap, h1: Heap, ord: seq<int>)
    requires Listed(h, ord) && WellSized(h) && Within(h.val, ord) && |ord| >= 1
    requires h1 == h.(next := h.next[ord[|ord| - 1] := NIL])
    ensures WellSized(h1) && Chain(h1, ord) && Within(h.val, ord) && HEAD !in ord
  {
    var c := [HEAD] + ord;
    forall i | 0 <= i < |ord|
      ensures 0 <= ord[i] < |h.next| && ord[i] != HEAD
      ensures h1.next[ord[i]] == if i + 1 < |ord| then ord[i + 1] else NIL
    {
      assert c[i + 1] == ord[i] && c[0] == HEAD;
      assert h.next[c[i + 1]] == Succ(c, i + 1);
      if i + 1 < |ord| {
        assert c[|ord|] == ord[|ord| - 1];
        assert c[i + 1] != c[|ord|];
      }
    }
    forall i, j | 0 <= i < j < |ord|
      ensures ord[i] != ord[j]
    {
      assert c[i + 1] == ord[i] && c[j + 1] == ord[j];
    }
  }

  /** `head->next = mergesort(...)`: the head in front of the sorted chain. */
  lemma LinkHead(h: Heap, h1: Heap, s: seq<int>)
    requires WellSized(h) && Chain(h, s) && |s| >= 1 && HEAD !in s
    requires h1 == h.(next := h.next[HEAD := s[0]])
    ensures Chain(h1, [HEAD] + s)
  {
    var c := [HEAD] + s;
    forall i | 0 <= i < |c|
      ensures h1.next[c[i]] == if i + 1 < |c| then c[i + 1] else NIL
    {
      if i > 0 {
        assert c[i] == s[i - 1];
        assert h.next[s[i - 1]] == if i < |s| then s[i] else NIL;
      }
    }
    forall i, j | 0 <= i < j < |c|
      ensures c[i] != c[j]
    {
      assert c[j] == s[j - 1];
      if i > 0 {
        assert c[i] == s[i - 1];
      }
    }
  }

  /** One turn of the repair loop, `end->next->prev = end`: the node after
      position `k` gets its `prev` back. */
  lemma RepairStep(h: Heap, h1: Heap, c: seq<int>, k: int)
    requires WellSized(h) && Chain(h, c) && 0 <= k < |c| - 1
    requires forall i :: 1 <= i <= k ==> h.prev[c[i]] == c[i - 1]
    requires h1 == h.(prev := h.prev[c[k + 1] := c[k]])
    ensures WellSized(h1) && Chain(h1, c)
    ensures forall i :: 1 <= i <= k + 1 ==> h1.prev[c[i]] == c[i - 1]
  {
    forall i | 1 <= i <= k + 1
      ensures h1.prev[c[i]] == c[i - 1]
    {
      if i <= k {
        assert c[i] != c[k + 1];
      }
    }
    ChainFrame(h, h1, c);
  }

  /** After the repair loop the last node is linked back to the head and the
      head to it: the chain closes into a cycle. */
  lemma RepairDone(h: Heap, h1: Heap, c: seq<int>)
    requires WellSized(h) && Chain(h, c) && |c| >= 1 && c[0] == HEAD
    requires forall i :: 1 <= i < |c| ==> h.prev[c[i]] == c[i - 1]
    requires h1 == h.(next := h.next[c[|c| - 1] := HEAD]).(prev := h.prev[HEAD := c[|c| - 1]])
    ensures Ring(h1, c)
  {
    var n := |c|;
    forall i | 0 <= i < n
      ensures && 0 <= c[i] < |h1.next| && h1.next[c[i]] == Succ(c, i) && h1.prev[c[i]] == Pred(c, i)
    {
      if i < n - 1 {
        assert c[i] != c[n - 1];
        assert h.next[c[i]] == c[i + 1];
      }
      if i > 0 {
        assert c[i] != c[0];
      }
    }
    RingIntro(h1, c);
  }

  /** The tail of `q_sort`: walk the chain that starts at the head, giving
      every node its `prev`, then close the last node back onto the head. */
  method RepairLinks(h: Heap, ghost c: seq<int>) returns (h': Heap)
    requires WellSized(h) && Chain(h, c) && |c| >= 1 && c[0] == HEAD
    ensures Ring(h', c) && h'.val == h.val
  {
    h' := h;
    // for (end = head; end->next; end = end->next) end->next->prev = end;
    var e := HEAD;
    ghost var k := 0;
    while h'.next[e] != NIL
      invariant 0 <= k < |c| && e == c[k]
      invariant WellSized(h') && h'.val == h.val && Chain(h', c)
      invariant forall i :: 1 <= i <= k ==> h'.prev[c[i]] == c[i - 1]
      decreases |c| - k
    {
      assert k + 1 < |c|;
      var h1 := h'.(prev := h'.prev[h'.next[e] := e]);
      RepairStep(h', h1, c, k);
      h' := h1;
      e := h'.next[e];
      k := k + 1;
    }
    assert k == |c| - 1;
    // end->next = head; head->prev = end;
    var h2 := h'.(next := h'.next[e := HEAD]).(prev := h'.prev[HEAD := e]);
    RepairDone(h', h2, c);
    h' := h2;
  }

  /** `q_sort`: a queue of two or more elements is opened into a chain,
      merge sorted, hung back on the head, and its `prev` links are repaired
      in one forward walk; shorter queues are left alone. */
  method Sort(h: Heap, ghost ord: seq<int>) returns (h': Heap)
    requires Listed(h, ord)
    ensures Within(h.val, ord) && h'.val == h.val
    ensures Listed(h', MergeSortNodes(h.val, ord))
    ensures Strings(h'.val, MergeSortNodes(h.val, ord)) == QueueSpec.Sort(QueueSpec.Live(Strings(h.val, ord))).items
  {
    ArenaOps.ListedEnds(h, ord);
    EmptyIff(h, ord);
    if h.prev[HEAD] == h.next[HEAD] {
      return h;
    }
    var start := h.next[HEAD];
    var end := h.prev[HEAD];
    // end->next = NULL;
    var h1 := h.(next := h.next[end := NIL]);
    CutRing(h, h1, ord);
    var h2, first := MergeSortChain(h1, start, end, ord);
    ghost var sorted := MergeSortNodes(h.val, ord);
    SortedOffHead(h.val, ord);
    // head->next = mergesort(start, end);
    var h3 := h2.(next := h2.next[HEAD := first]);
    LinkHead(h2, h3, sorted);
    // head->next->prev = head;
    var h4 := h3.(prev := h3.prev[h3.next[HEAD] := HEAD]);
    ChainFrame(h3, h4, [HEAD] + sorted);
    h' := RepairLinks(h4, [HEAD] + sorted);
    SortedValues(h, h', ord);
  }

  /** The sorted nodes are element nodes, never the head. */
  lemma SortedOffHead(val: seq<string>, ord: seq<int>)
    requires Within(val, ord) && HEAD !in ord
    ensures HEAD !in MergeSortNodes(val, ord)
  {
    assert HEAD !in multiset(ord);
  }

  /** Reading the sorted nodes gives the merge sort of the queue's strings. */
  lemma {:induction false} SortedValues(h: Heap, h': Heap, ord: seq<int>)
    requires Within(h.val, ord) && h'.val == h.val && |ord| >= 2
    ensures Within(h'.val, MergeSortNodes(h.val, ord))
    ensures Strings(h'.val, MergeSortNodes(h.val, ord)) == QueueSpec.Sort(QueueSpec.Live(Strings(h.val, ord))).items
  {
    MergeSortNodesStrings(h.val, ord);
    SortLive(Strings(h.val, ord));
  }

  /** Sorting a live queue of two or more strings is `MergeSort`. */
  lemma SortLive(xs: seq<string>)
    requires |xs| >= 2
    ensures QueueSpec.Sort(QueueSpec.Live(xs)).items == MergeSort(xs)
  {
  }
}
