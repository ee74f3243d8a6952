/** Reorderings of a sequence shared by the queue's value-level model and its
    node-level model: the same function describes what happens to the strings
    and to the nodes that carry them. */
module SeqOps {

  /** No element occurs twice. */
  predicate Distinct<T(==)>(s: seq<T>) {
    forall i, j :: 0 <= i < j < |s| ==> s[i] != s[j]
  }

  /** The sequence read back to front. */
  function Reverse<T>(s: seq<T>): (r: seq<T>)
    ensures |r| == |s|
    ensures forall i :: 0 <= i < |s| ==> r[i] == s[|s| - 1 - i]
  {
    if s == [] then [] else Reverse(s[1..]) + [s[0]]
  }

  lemma ReverseInvolutive<T>(s: seq<T>)
    ensures Reverse(Reverse(s)) == s
  {
  }

  lemma ReversePermutes<T>(s: seq<T>)
    ensures multiset(Reverse(s)) == multiset(s)
  {
    if s != [] {
      ReversePermutes(s[1..]);
      assert s == [s[0]] + s[1..];
    }
  }

  /** The position that position `i` trades places with when the pairs
      (0, 1), (2, 3), ... of an `n`-element sequence are exchanged; a trailing
      unpaired position keeps its place. */
  function Mate(i: nat, n: nat): (m: nat)
    requires i < n
    ensures m < n
  {
    if i % 2 == 1 then i - 1
    else if i + 1 < n then i + 1
    else i
  }

  /** Every adjacent pair (0, 1), (2, 3), ... exchanged. */
  function PairSwap<T>(s: seq<T>): (r: seq<T>)
    ensures |r| == |s|
    ensures forall i :: 0 <= i < |s| ==> r[i] == s[Mate(i, |s|)]
  {
    if |s| < 2 then s
    else
      var rest := PairSwap(s[2..]);
      PairSwapCons(s, rest);
      [s[1], s[0]] + rest
  }

  /** Exchanging the first pair in front of the exchanged rest pairs every
      position with its mate. */
  lemma PairSwapCons<T>(s: seq<T>, rest: seq<T>)
    requires |s| >= 2 && |rest| == |s| - 2
    requires forall i :: 0 <= i < |rest| ==> rest[i] == s[2..][Mate(i, |rest|)]
    ensures forall i :: 0 <= i < |s| ==> ([s[1], s[0]] + rest)[i] == s[Mate(i, |s|)]
  {
    forall i | 2 <= i < |s|
      ensures ([s[1], s[0]] + rest)[i] == s[Mate(i, |s|)]
    {
      MateShift(i, |s|);
      assert ([s[1], s[0]] + rest)[i] == rest[i - 2];
    }
  }

  /** Positions two apart have mates two apart. */
  lemma MateShift(i: nat, n: nat)
    requires 2 <= i < n
    ensures Mate(i, n) == Mate(i - 2, n - 2) + 2
  {
    assert i % 2 == (i - 2) % 2;
  }

  lemma MateInvolutive(i: nat, n: nat)
    requires i < n
    ensures Mate(Mate(i, n), n) == i
  {
  }

  /** Swapping the pairs twice gives the original back. */
  lemma PairSwapInvolutive<T>(s: seq<T>)
    ensures PairSwap(PairSwap(s)) == s
  {
    var r := PairSwap(PairSwap(s));
    forall i | 0 <= i < |s|
      ensures r[i] == s[i]
    {
      MateInvolutive(i, |s|);
    }
  }

  lemma {:induction false} PairSwapPermutes<T>(s: seq<T>)
    ensures multiset(PairSwap(s)) == multiset(s)
    decreases |s|
  {
    if |s| >= 2 {
      PairSwapPermutes(s[2..]);
      assert s == [s[0], s[1]] + s[2..];
      assert PairSwap(s) == [s[1], s[0]] + PairSwap(s[2..]);
    }
  }

  /** Exchanging one more pair at an even position extends the pairwise
      swap of the prefix. */
  lemma {:induction false} PairSwapExtend<T>(a: seq<T>, x: T, y: T)
    requires |a| % 2 == 0
    ensures PairSwap(a + [x, y]) == PairSwap(a) + [y, x]
    decreases |a|
  {
    if |a| == 0 {
      assert [x, y][1..] == [y] && [x, y][2..] == [];
    } else {
      assert (a + [x, y])[2..] == a[2..] + [x, y];
      PairSwapExtend(a[2..], x, y);
    }
  }

  /** Below an even bound the mate of a position does not depend on the
      length. */
  lemma MateBelow(i: nat, k: nat, n: nat)
    requires k % 2 == 0 && i < k <= n
    ensures Mate(i, k) == Mate(i, n)
  {
    if i % 2 == 0 {
      assert (i + 1) % 2 == 1;
      assert i + 1 != k;
    }
  }

  /** Once fewer than two elements remain unvisited, the swap of the visited
      prefix is the swap of the whole. */
  lemma {:induction false} PairSwapTail<T>(s: seq<T>, k: nat)
    requires k % 2 == 0 && k <= |s| <= k + 1
    ensures PairSwap(s[..k]) + s[k..] == PairSwap(s)
  {
    var p := PairSwap(s[..k]);
    var r := p + s[k..];
    var t := PairSwap(s);
    assert |r| == |t|;
    forall i | 0 <= i < |s|
      ensures r[i] == t[i]
    {
      if i < k {
        MateBelow(i, k, |s|);
        assert r[i] == p[i] == s[..k][Mate(i, k)];
      } else {
        assert i == k && Mate(i, |s|) == i;
        assert r[i] == s[k..][0];
      }
    }
  }

  /** The sequence without its element at position `k`. */
  function RemoveAt<T>(s: seq<T>, k: nat): (r: seq<T>)
    requires k < |s|
    ensures |r| == |s| - 1
    ensures forall i :: 0 <= i < k ==> r[i] == s[i]
    ensures forall i :: k <= i < |r| ==> r[i] == s[i + 1]
  {
    s[..k] + s[k + 1..]
  }

  /** Removing position `k` takes exactly one copy of `s[k]` out of the
      multiset of elements. */
  lemma RemoveAtMultiset<T>(s: seq<T>, k: nat)
    requires k < |s|
    ensures multiset(RemoveAt(s, k)) + multiset{s[k]} == multiset(s)
  {
    assert s == s[..k] + [s[k]] + s[k + 1..];
  }
}
