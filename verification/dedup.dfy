/** q_delete_dup: drop every element that shares its value with a neighbour,
    keeping the rest in their original order. */
module Dedup {
  import opened StrOrder
  import opened Sorting

  /** Element `i` survives when it differs from both neighbours it has. */
  predicate Keep(s: seq<string>, i: nat)
    requires i < |s|
  {
    && (i == 0 || s[i - 1] != s[i])
    && (i + 1 == |s| || s[i + 1] != s[i])
  }

  /** The survivors among the first `n` elements, in order. */
  function Kept(s: seq<string>, n: nat): seq<string>
    requires n <= |s|
  {
    if n == 0 then []
    else Kept(s, n - 1) + (if Keep(s, n - 1) then [s[n - 1]] else [])
  }

  function Dedup(s: seq<string>): seq<string> {
    Kept(s, |s|)
  }

  /** Ascending with no two equal elements. */
  predicate StrictlySorted(s: seq<string>) {
    forall i, j :: 0 <= i < j < |s| ==> Compare(s[i], s[j]) < 0
  }

  /** The single forward pass of q_delete_dup. `prev` records whether the
      element before the current one equalled it; an element is moved to the
      scratch list `dups` (at its head, as list_move does) when it equals its
      successor or its predecessor. The last element is judged after the loop
      by `prev` alone. */
  method DeleteDupPass(s: seq<string>) returns (kept: seq<string>, dups: seq<string>)
    ensures kept == Dedup(s)
    ensures multiset(kept) + multiset(dups) == multiset(s)
  {
    kept := [];
    dups := [];
    assert s[..0] == [];
    var prev := false;
    var i := 0;
    while i + 1 < |s|
      invariant 0 <= i <= |s| && (|s| > 0 ==> i < |s|)
      invariant prev == (i > 0 && s[i - 1] == s[i])
      invariant kept == Kept(s, i)
      invariant multiset(kept) + multiset(dups) == multiset(s[..i])
    {
      var same := s[i] == s[i + 1];
      KeptNext(s, i);
      MoveOne(kept, dups, s[..i], s[i]);
      assert Keep(s, i) == !(same || prev);
      if same || prev {
        dups := [s[i]] + dups;
      } else {
        kept := kept + [s[i]];
      }
      prev := same;
      i := i + 1;
    }
    if |s| > 0 {
      // the last node: it has no successor, so only `prev` decides
      var last := s[i];
      LastVerdict(s, i, prev);
      MoveOne(kept, dups, s[..i], last);
      if prev {
        dups := [last] + dups;
      } else {
        kept := kept + [last];
      }
    } else {
      assert s == s[..i];
    }
  }

  /** Visiting one more element extends the visited prefix and the
      survivors by that element's verdict. */
  lemma KeptNext(s: seq<string>, i: nat)
    requires i < |s|
    ensures s[..i + 1] == s[..i] + [s[i]]
    ensures Kept(s, i + 1) == Kept(s, i) + (if Keep(s, i) then [s[i]] else [])
  {
  }

  /** The last element is kept exactly when it differs from the one before,
      and with it the whole sequence has been visited. */
  lemma LastVerdict(s: seq<string>, i: nat, prev: bool)
    requires i + 1 == |s| && prev == (i > 0 && s[i - 1] == s[i])
    ensures s[..i] + [s[i]] == s
    ensures Dedup(s) == Kept(s, i) + (if prev then [] else [s[i]])
  {
    KeptNext(s, i);
  }

  /** One more element goes either to the survivors or to the scratch list;
      together they still hold exactly the elements visited. */
  lemma MoveOne(kept: seq<string>, dups: seq<string>, visited: seq<string>, x: string)
    requires multiset(kept) + multiset(dups) == multiset(visited)
    ensures multiset(kept) + multiset([x] + dups) == multiset(visited + [x])
    ensures multiset(kept + [x]) + multiset(dups) == multiset(visited + [x])
  {
  }

  /** Every survivor is an element that the pass keeps. */
  lemma {:induction false} KeptFrom(s: seq<string>, n: nat, y: string)
    requires n <= |s| && y in Kept(s, n)
    ensures exists j :: 0 <= j < n && s[j] == y && Keep(s, j)
  {
    if n > 0 && y !in Kept(s, n - 1) {
      assert y == s[n - 1] && Keep(s, n - 1);
    } else if n > 0 {
      KeptFrom(s, n - 1, y);
    }
  }

  /** On sorted input an element survives exactly when no other position
      holds the same string: runs of two or more vanish entirely. */
  lemma SortedKeepIffUnique(s: seq<string>, i: nat)
    requires Sorted(s) && i < |s|
    ensures Keep(s, i) <==> forall j :: 0 <= j < |s| && j != i ==> s[j] != s[i]
  {
    if Keep(s, i) {
      forall j | 0 <= j < |s| && j != i
        ensures s[j] != s[i]
      {
        if j < i - 1 && s[j] == s[i] {
          assert LessEq(s[j], s[i - 1]) && LessEq(s[i - 1], s[i]);
          LessEqAntisymmetric(s[i - 1], s[i]);
        } else if j > i + 1 && s[j] == s[i] {
          assert LessEq(s[i], s[i + 1]) && LessEq(s[i + 1], s[j]);
          LessEqAntisymmetric(s[i + 1], s[i]);
        }
      }
    }
  }

  /** On sorted input the survivors are strictly ascending. */
  lemma {:induction false} KeptStrictlySorted(s: seq<string>, n: nat)
    requires Sorted(s) && n <= |s|
    ensures StrictlySorted(Kept(s, n))
  {
    if n > 0 {
      KeptStrictlySorted(s, n - 1);
      var k := Kept(s, n - 1);
      if Keep(s, n - 1) {
        var x := s[n - 1];
        forall y | y in k
          ensures Compare(y, x) < 0
        {
          KeptFrom(s, n - 1, y);
          var j :| 0 <= j < n - 1 && s[j] == y && Keep(s, j);
          assert s[n - 2] != x;
          assert LessEq(y, s[n - 2]) by {
            if j < n - 2 {
            } else {
              assert Compare(y, y) == 0;
            }
          }
          assert Compare(s[n - 2], x) < 0 by {
            if Compare(s[n - 2], x) == 0 {
            }
          }
          LessEqThenLess(y, s[n - 2], x);
        }
        var t := k + [x];
        forall a, b | 0 <= a < b < |t|
          ensures Compare(t[a], t[b]) < 0
        {
          if b == |k| {
            assert t[a] in k;
          } else {
            assert t[a] == k[a] && t[b] == k[b];
          }
        }
      }
    }
  }

  /** With no two neighbours equal, every element survives. */
  lemma {:induction false} DedupOfStrictlySorted(s: seq<string>, n: nat)
    requires StrictlySorted(s) && n <= |s|
    ensures Kept(s, n) == s[..n]
  {
    if n > 0 {
      DedupOfStrictlySorted(s, n - 1);
      KeptNext(s, n - 1);
      if n - 1 > 0 {
        StrictNeighbours(s, n - 2);
      }
      if n < |s| {
        StrictNeighbours(s, n - 1);
      }
    }
  }

  lemma StrictNeighbours(s: seq<string>, i: nat)
    requires StrictlySorted(s) && i + 1 < |s|
    ensures s[i] != s[i + 1]
  {
    assert Compare(s[i], s[i + 1]) < 0;
  }

  /** On sorted input, deleting duplicates a second time changes nothing. */
  lemma DedupIdempotent(s: seq<string>)
    requires Sorted(s)
    ensures Dedup(Dedup(s)) == Dedup(s)
  {
    var t := Dedup(s);
    KeptStrictlySorted(s, |s|);
    DedupOfStrictlySorted(t, |t|);
    assert t[..|t|] == t;
  }
}
