/** The pointer surgery of queue.c on the node arena: every method keeps the
    circular doubly-linked invariant and does to the queue's strings what the
    matching QueueSpec function says. The NULL-queue checks are modelled in
    QueueSpec; here the queue is present. */
module ArenaOps {
  import opened SeqOps
  import opened Arena
  import QueueSpec

  /** INIT_LIST_HEAD on a fresh sentinel: the empty queue of q_new. */
  function Init(): (h: Heap)
    ensures Listed(h, []) && Strings(h.val, []) == []
  {
    Heap([HEAD], [HEAD], [""])
  }

  lemma StringsRemoveAt(h: Heap, ord: seq<int>, j: int)
    requires Within(h.val, ord) && 0 <= j < |ord|
    ensures Within(h.val, RemoveAt(ord, j)) && Strings(h.val, RemoveAt(ord, j)) == RemoveAt(Strings(h.val, ord), j)
  {
  }

  lemma StringsReverse(h: Heap, ord: seq<int>)
    requires Within(h.val, ord)
    ensures Within(h.val, SeqOps.Reverse(ord)) && Strings(h.val, SeqOps.Reverse(ord)) == SeqOps.Reverse(Strings(h.val, ord))
  {
  }

  lemma StringsPairSwap(h: Heap, ord: seq<int>)
    requires Within(h.val, ord)
    ensures Within(h.val, PairSwap(ord)) && Strings(h.val, PairSwap(ord)) == PairSwap(Strings(h.val, ord))
  {
  }

  /** What the sentinel's links say about a listed queue. */
  lemma ListedEnds(h: Heap, ord: seq<int>)
    requires Listed(h, ord)
    ensures WellSized(h) && Within(h.val, ord)
    ensures h.next[HEAD] == HEAD <==> |ord| == 0
    ensures |ord| > 0 ==> h.next[HEAD] == ord[0] && h.prev[HEAD] == ord[|ord| - 1]
    ensures |ord| > 0 ==> ord[0] != NIL && ord[|ord| - 1] != NIL
  {
    ListedFacts(h, ord);
    EmptyIff(h, ord);
  }

  /** list_del of the element at position `j`, read through `Strings`: the
      queue loses exactly its `j`-th string. */
  lemma DelStrings(h: Heap, ord: seq<int>, j: int)
    requires Listed(h, ord) && 0 <= j < |ord|
    ensures && WellSized(h) && 0 <= ord[j] < |h.next|
            && 0 <= h.next[ord[j]] < |h.next| && 0 <= h.prev[ord[j]] < |h.next|
            && Listed(Del(h, ord[j]), RemoveAt(ord, j))
            && Del(h, ord[j]).val == h.val
            && Within(h.val, ord) && Within(Del(h, ord[j]).val, RemoveAt(ord, j))
            && Strings(Del(h, ord[j]).val, RemoveAt(ord, j)) == RemoveAt(Strings(h.val, ord), j)
  {
    ListedFacts(h, ord);
    DelListed(h, ord, j);
    StringsRemoveAt(h, ord, j);
  }

  /** A node appended to the arena is outside every cycle already there. */
  lemma GrowListed(h: Heap, ord: seq<int>, s: string)
    requires Listed(h, ord)
    ensures Listed(Heap(h.next + [NIL], h.prev + [NIL], h.val + [s]), ord)
    ensures |h.next| !in ord
  {
    ListedFacts(h, ord);
    var h' := Heap(h.next + [NIL], h.prev + [NIL], h.val + [s]);
    var c := [HEAD] + ord;
    forall i | 0 <= i < |c|
      ensures h'.next[c[i]] == Succ(c, i) && h'.prev[c[i]] == Pred(c, i)
    {
      assert h.next[c[i]] == Succ(c, i) && h.prev[c[i]] == Pred(c, i);
    }
  }

  /** q_insert_head after the NULL check: a new element node holding `s`,
      linked in by list_add. `allocOk` is false when malloc or strdup fails,
      in which case nothing changes. */
  method InsertHead(h: Heap, ghost ord: seq<int>, s: string, allocOk: bool) returns (ok: bool, h': Heap)
    requires Listed(h, ord)
    ensures ok == allocOk
    ensures !ok ==> h' == h
    ensures ok ==> Listed(h', [|h.next|] + ord)
    ensures ok ==> h'.val == h.val + [s]
    ensures ok ==> (Within(h'.val, [|h.next|] + ord) && Within(h.val, ord)
      && Strings(h'.val, [|h.next|] + ord) == QueueSpec.InsertHead(QueueSpec.Live(Strings(h.val, ord)), s, true).q.items)
  {
    ListedFacts(h, ord);
    if !allocOk {
      return false, h;
    }
    var x := |h.next|;
    var h1 := Heap(h.next + [NIL], h.prev + [NIL], h.val + [s]);
    GrowListed(h, ord, s);
    ListedFacts(h1, ord);
    ListAddListed(h1, ord, x);
    h' := ListAdd(h1, x);
    ok := true;
    ListedFacts(h', [x] + ord);
    assert Strings(h'.val, [x] + ord) == [s] + Strings(h.val, ord);
  }

  /** q_insert_tail after the NULL check, linking in by list_add_tail. */
  method InsertTail(h: Heap, ghost ord: seq<int>, s: string, allocOk: bool) returns (ok: bool, h': Heap)
    requires Listed(h, ord)
    ensures ok == allocOk
    ensures !ok ==> h' == h
    ensures ok ==> Listed(h', ord + [|h.next|])
    ensures ok ==> h'.val == h.val + [s]
    ensures ok ==> (Within(h'.val, ord + [|h.next|]) && Within(h.val, ord)
      && Strings(h'.val, ord + [|h.next|]) == QueueSpec.InsertTail(QueueSpec.Live(Strings(h.val, ord)), s, true).q.items)
  {
    ListedFacts(h, ord);
    if !allocOk {
      return false, h;
    }
    var x := |h.next|;
    var h1 := Heap(h.next + [NIL], h.prev + [NIL], h.val + [s]);
    GrowListed(h, ord, s);
    ListedFacts(h1, ord);
    ListAddTailListed(h1, ord, x);
    h' := ListAddTail(h1, x);
    ok := true;
    ListedFacts(h', ord + [x]);
    assert Strings(h'.val, ord + [x]) == Strings(h.val, ord) + [s];
  }

  /** q_remove_head after the NULL check: `x` is the unlinked node (NIL for
      the NULL return) and `buf` the caller's buffer when `sp` was given. */
  method RemoveHead(h: Heap, ghost ord: seq<int>, sp: bool, bufsize: nat)
    returns (x: int, buf: QueueSpec.Option<seq<char>>, h': Heap)
    requires Listed(h, ord)
    requires sp ==> bufsize >= 1
    ensures |ord| == 0 ==> x == NIL && buf.None? && h' == h
    ensures |ord| > 0 ==> x == ord[0] && Listed(h', ord[1..]) && h'.val == h.val
    ensures Within(h.val, ord) && Within(h'.val, if |ord| > 0 then ord[1..] else ord)
    ensures QueueSpec.RemoveHead(QueueSpec.Live(Strings(h.val, ord)), sp, bufsize)
      == QueueSpec.Removal(if x == NIL then QueueSpec.None else QueueSpec.Some(h.val[x]), buf,
                           QueueSpec.Live(Strings(h'.val, if |ord| > 0 then ord[1..] else ord)))
  {
    ListedEnds(h, ord);
    if h.next[HEAD] == HEAD {
      return NIL, QueueSpec.None, h;
    }
    x := h.next[HEAD];
    DelStrings(h, ord, 0);
    h' := Del(h, x);
    buf := if sp then QueueSpec.Some(QueueSpec.CopyOut(h.val[x], bufsize)) else QueueSpec.None;
    assert RemoveAt(ord, 0) == ord[1..];
    RemovedFront(Strings(h.val, ord), sp, bufsize);
  }

  /** What q_remove_head answers on a non-empty queue of strings. */
  lemma RemovedFront(vs: seq<string>, sp: bool, bufsize: nat)
    requires |vs| > 0 && (sp ==> bufsize >= 1)
    ensures QueueSpec.RemoveHead(QueueSpec.Live(vs), sp, bufsize)
      == QueueSpec.Removal(QueueSpec.Some(vs[0]), if sp then QueueSpec.Some(QueueSpec.CopyOut(vs[0], bufsize)) else QueueSpec.None,
                           QueueSpec.Live(RemoveAt(vs, 0)))
  {
    assert RemoveAt(vs, 0) == vs[1..];
  }

  /** What q_remove_tail answers on a non-empty queue of strings. */
  lemma RemovedBack(vs: seq<string>, sp: bool, bufsize: nat)
    requires |vs| > 0 && (sp ==> bufsize >= 1)
    ensures QueueSpec.RemoveTail(QueueSpec.Live(vs), sp, bufsize)
      == QueueSpec.Removal(QueueSpec.Some(vs[|vs| - 1]),
                           if sp then QueueSpec.Some(QueueSpec.CopyOut(vs[|vs| - 1], bufsize)) else QueueSpec.None,
                           QueueSpec.Live(RemoveAt(vs, |vs| - 1)))
  {
    assert RemoveAt(vs, |vs| - 1) == vs[..|vs| - 1];
  }

  /** q_remove_tail after the NULL check. */
  method RemoveTail(h: Heap, ghost ord: seq<int>, sp: bool, bufsize: nat)
    returns (x: int, buf: QueueSpec.Option<seq<char>>, h': Heap)
    requires Listed(h, ord)
    requires sp ==> bufsize >= 1
    ensures |ord| == 0 ==> x == NIL && buf.None? && h' == h
    ensures |ord| > 0 ==> x == ord[|ord| - 1] && Listed(h', ord[..|ord| - 1]) && h'.val == h.val
    ensures Within(h.val, ord) && Within(h'.val, if |ord| > 0 then ord[..|ord| - 1] else ord)
    ensures QueueSpec.RemoveTail(QueueSpec.Live(Strings(h.val, ord)), sp, bufsize)
      == QueueSpec.Removal(if x == NIL then QueueSpec.None else QueueSpec.Some(h.val[x]), buf,
                           QueueSpec.Live(Strings(h'.val, if |ord| > 0 then ord[..|ord| - 1] else ord)))
  {
    ListedEnds(h, ord);
    if h.next[HEAD] == HEAD {
      return NIL, QueueSpec.None, h;
    }
    x := h.prev[HEAD];
    var n := |ord|;
    DelStrings(h, ord, n - 1);
    h' := Del(h, x);
    buf := if sp then QueueSpec.Some(QueueSpec.CopyOut(h.val[x], bufsize)) else QueueSpec.None;
    assert RemoveAt(ord, n - 1) == ord[..n - 1];
    RemovedBack(Strings(h.val, ord), sp, bufsize);
  }

  /** q_size: count the nodes met following `next` from the sentinel. */
  method Size(h: Heap, ghost ord: seq<int>) returns (count: nat)
    requires Listed(h, ord)
    ensures count == |ord|
    ensures Within(h.val, ord) && count == QueueSpec.Size(QueueSpec.Live(Strings(h.val, ord)))
  {
    ListedFacts(h, ord);
    EmptyIff(h, ord);
    if h.next[HEAD] == HEAD {
      return 0;
    }
    count := 0;
    var ptr := h.next[HEAD];
    while ptr != HEAD
      invariant 0 <= count <= |ord|
      invariant ptr == if count < |ord| then ord[count] else HEAD
      decreases |ord| - count
    {
      count := count + 1;
      ptr := h.next[ptr];
    }
  }

  /** q_delete_mid: `ptr` walks forward from the first element and `rev`
      backward from the last until they meet (odd length) or `rev` is just
      past `ptr` (even length); `ptr` is then unlinked. */
  method DeleteMid(h: Heap, ghost ord: seq<int>) returns (ok: bool, h': Heap)
    requires Listed(h, ord)
    ensures ok <==> |ord| > 0
    ensures !ok ==> h' == h
    ensures ok ==> Listed(h', RemoveAt(ord, QueueSpec.MidIndex(|ord|))) && h'.val == h.val
    ensures ok ==> (Within(h.val, ord) && Within(h'.val, RemoveAt(ord, QueueSpec.MidIndex(|ord|)))
      && QueueSpec.DeleteMid(QueueSpec.Live(Strings(h.val, ord)))
         == QueueSpec.Update(true, QueueSpec.Live(Strings(h'.val, RemoveAt(ord, QueueSpec.MidIndex(|ord|))))))
  {
    ListedFacts(h, ord);
    EmptyIff(h, ord);
    if h.next[HEAD] == HEAD {
      return false, h;
    }
    var n := |ord|;
    var ptr := h.next[HEAD];
    var rev := h.prev[HEAD];
    ghost var k := 0;
    while rev != ptr && rev != h.next[ptr]
      invariant 0 <= k <= n - 1 - k
      invariant ptr == ord[k] && rev == ord[n - 1 - k]
      decreases n - 1 - 2 * k
    {
      assert h.next[ord[k]] == if k + 1 < n then ord[k + 1] else HEAD;
      assert h.prev[ord[n - 1 - k]] == if n - 1 - k > 0 then ord[n - 2 - k] else HEAD;
      assert n - 1 - k != k && (k + 1 < n ==> n - 1 - k != k + 1);
      ptr := h.next[ptr];
      rev := h.prev[rev];
      k := k + 1;
    }
    assert h.next[ord[k]] == if k + 1 < n then ord[k + 1] else HEAD;
    assert k == QueueSpec.MidIndex(n) by {
      assert n - 1 - k == k || (k + 1 < n && n - 1 - k == k + 1);
    }
    DelListed(h, ord, k);
    h' := Del(h, ptr);
    ok := true;
    StringsRemoveAt(h, ord, k);
  }

  /** q_reverse: exchange `next` and `prev` of every node of the cycle,
      sentinel included, walking along the old `next` links. */
  method Reverse(h: Heap, ghost ord: seq<int>) returns (h': Heap)
    requires Listed(h, ord)
    ensures Listed(h', SeqOps.Reverse(ord)) && h'.val == h.val
    ensures Within(h.val, ord) && Within(h'.val, SeqOps.Reverse(ord))
      && Strings(h'.val, SeqOps.Reverse(ord)) == QueueSpec.Reverse(QueueSpec.Live(Strings(h.val, ord))).items
  {
    ListedEnds(h, ord);
    h' := h;
    if h.next[HEAD] == HEAD {
      assert SeqOps.Reverse(ord) == ord;
      return;
    }
    ghost var c := [HEAD] + ord;
    var ptr := HEAD;
    ghost var k := 0;
    var more := true;
    while more
      invariant 0 <= k <= |c| && (more <==> k < |c|)
      invariant ptr == if k < |c| then c[k] else HEAD
      invariant |h'.next| == |h.next| && |h'.prev| == |h.prev| && h'.val == h.val
      invariant forall x {:trigger h'.next[x]} :: 0 <= x < |h.next| ==> h'.next[x] == if x in c[..k] then h.prev[x] else h.next[x]
      invariant forall x {:trigger h'.prev[x]} :: 0 <= x < |h.next| ==> h'.prev[x] == if x in c[..k] then h.next[x] else h.prev[x]
      decreases |c| - k
    {
      RingStep(h, c, k);
      ghost var g := h';
      var tmp := h'.next[ptr];
      h' := h'.(next := h'.next[ptr := h'.prev[ptr]]);
      h' := h'.(prev := h'.prev[ptr := tmp]);
      ReverseStep(h, c, k, g, h');
      ptr := h'.prev[ptr];
      k := k + 1;
      more := ptr != HEAD;
    }
    assert c[..k] == c;
    ReverseDone(h, ord, h');
  }

  /** What one iteration of q_reverse reads at position `k` of the cycle. */
  lemma RingStep(h: Heap, c: seq<int>, k: int)
    requires Ring(h, c) && 0 <= k < |c|
    ensures 0 <= c[k] < |h.next| && c[k] !in c[..k]
    ensures h.next[c[k]] == if k + 1 < |c| then c[k + 1] else HEAD
    ensures k + 1 < |c| ==> c[k + 1] != HEAD
    ensures c[..k + 1] == c[..k] + [c[k]]
  {
    assert h.next[c[k]] == Succ(c, k);
  }

  /** One iteration of q_reverse exchanges the two links of the `k`-th node
      of the cycle, whose old `next` is where the walk goes on. */
  lemma ReverseStep(h: Heap, c: seq<int>, k: int, g: Heap, g': Heap)
    requires Ring(h, c) && 0 <= k < |c|
    requires |g.next| == |h.next| && |g.prev| == |h.prev|
    requires forall x {:trigger g.next[x]} :: 0 <= x < |h.next| ==> g.next[x] == if x in c[..k] then h.prev[x] else h.next[x]
    requires forall x {:trigger g.prev[x]} :: 0 <= x < |h.next| ==> g.prev[x] == if x in c[..k] then h.next[x] else h.prev[x]
    requires 0 <= c[k] < |g.next|
    requires g' == g.(next := g.next[c[k] := g.prev[c[k]]]).(prev := g.prev[c[k] := g.next[c[k]]])
    ensures |g'.next| == |h.next| && |g'.prev| == |h.prev| && g'.val == g.val
    ensures forall x {:trigger g'.next[x]} :: 0 <= x < |h.next| ==> g'.next[x] == if x in c[..k + 1] then h.prev[x] else h.next[x]
    ensures forall x {:trigger g'.prev[x]} :: 0 <= x < |h.next| ==> g'.prev[x] == if x in c[..k + 1] then h.next[x] else h.prev[x]
    ensures g'.prev[c[k]] == if k + 1 < |c| then c[k + 1] else HEAD
  {
    RingStep(h, c, k);
    assert g.next[c[k]] == h.next[c[k]] && g.prev[c[k]] == h.prev[c[k]];
  }

  lemma ReverseDone(h: Heap, ord: seq<int>, h': Heap)
    requires Listed(h, ord)
    requires |h'.next| == |h.next| && |h'.prev| == |h.prev| && h'.val == h.val
    requires forall x {:trigger h'.next[x]} :: 0 <= x < |h.next| ==> h'.next[x] == if x in [HEAD] + ord then h.prev[x] else h.next[x]
    requires forall x {:trigger h'.prev[x]} :: 0 <= x < |h.next| ==> h'.prev[x] == if x in [HEAD] + ord then h.next[x] else h.prev[x]
    ensures Listed(h', SeqOps.Reverse(ord))
    ensures Within(h.val, ord) && Within(h'.val, SeqOps.Reverse(ord))
      && Strings(h'.val, SeqOps.Reverse(ord)) == QueueSpec.Reverse(QueueSpec.Live(Strings(h.val, ord))).items
  {
    var c := [HEAD] + ord;
    ReverseRing(h, c, h');
    assert c[1..] == ord;
    ListedEnds(h, ord);
    StringsReverse(h, ord);
  }

  /** A cycle whose every node has `next` and `prev` exchanged is the
      reversed cycle. */
  lemma ReverseRing(h: Heap, c: seq<int>, h': Heap)
    requires Ring(h, c)
    requires |h'.next| == |h.next| && |h'.prev| == |h.prev| && h'.val == h.val
    requires forall x {:trigger h'.next[x]} :: 0 <= x < |h.next| ==> h'.next[x] == if x in c then h.prev[x] else h.next[x]
    requires forall x {:trigger h'.prev[x]} :: 0 <= x < |h.next| ==> h'.prev[x] == if x in c then h.next[x] else h.prev[x]
    ensures Ring(h', [HEAD] + SeqOps.Reverse(c[1..]))
  {
    var c' := [HEAD] + SeqOps.Reverse(c[1..]);
    ReversedCycle(c);
    forall i | 0 <= i < |c'|
      ensures && 0 <= c'[i] < |h'.next| && h'.next[c'[i]] == Succ(c', i) && h'.prev[c'[i]] == Pred(c', i)
    {
      ReverseRingAt(h, c, h', c', i);
    }
    RingIntro(h', c');
  }

  /** The reversed cycle keeps the head in front and lists the other nodes
      backwards; it is as free of repeats as the original. */
  lemma ReversedCycle(c: seq<int>)
    requires |c| >= 1 && c[0] == HEAD && Distinct(c)
    ensures var c' := [HEAD] + SeqOps.Reverse(c[1..]);
      && |c'| == |c| && c'[0] == HEAD && Distinct(c')
      && forall i :: 0 <= i < |c| ==> c'[i] == c[if i == 0 then 0 else |c| - i]
  {
    var c' := [HEAD] + SeqOps.Reverse(c[1..]);
    var n := |c|;
    assert forall i :: 0 <= i < n ==> c'[i] == c[if i == 0 then 0 else n - i];
    forall a, b | 0 <= a < b < n
      ensures c'[a] != c'[b]
    {
      assert c'[a] == c[if a == 0 then 0 else n - a] && c'[b] == c[n - b];
    }
  }

  /** One node of the reversed cycle: its exchanged links are its neighbours
      in the reversed order. */
  lemma ReverseRingAt(h: Heap, c: seq<int>, h': Heap, c': seq<int>, i: int)
    requires Ring(h, c) && |c'| == |c| && 0 <= i < |c|
    requires forall t :: 0 <= t < |c| ==> c'[t] == c[if t == 0 then 0 else |c| - t]
    requires |h'.next| == |h.next| && |h'.prev| == |h.prev|
    requires forall x {:trigger h'.next[x]} :: 0 <= x < |h.next| ==> h'.next[x] == if x in c then h.prev[x] else h.next[x]
    requires forall x {:trigger h'.prev[x]} :: 0 <= x < |h.next| ==> h'.prev[x] == if x in c then h.next[x] else h.prev[x]
    ensures 0 <= c'[i] < |h'.next|
    ensures h'.next[c'[i]] == Succ(c', i)
    ensures h'.prev[c'[i]] == Pred(c', i)
  {
    var n := |c|;
    var m := if i == 0 then 0 else n - i;
    assert c'[i] == c[m] && c[m] in c;
    assert h.next[c[m]] == Succ(c, m) && h.prev[c[m]] == Pred(c, m);
    if i + 1 < n {
      assert Succ(c', i) == c[n - i - 1];
    }
    if i > 0 {
      assert Pred(c', i) == c[if i == 1 then 0 else n - i + 1];
    }
  }

  /** The six assignments of one q_swap step on the pair `l`, `r`. */
  function SwapLinks(h: Heap, l: int, r: int): Heap
    requires WellSized(h) && 0 <= l < |h.next| && 0 <= r < |h.next|
    requires 0 <= h.prev[l] < |h.next| && 0 <= h.next[r] < |h.next|
  {
    // left->prev->next = right;
    var h1 := h.(next := h.next[h.prev[l] := r]);
    // right->next->prev = left;
    var h2 := h1.(prev := h1.prev[h1.next[r] := l]);
    // left->next = right->next;
    var h3 := h2.(next := h2.next[l := h2.next[r]]);
    // right->prev = left->prev;
    var h4 := h3.(prev := h3.prev[r := h3.prev[l]]);
    // left->prev = right;
    var h5 := h4.(prev := h4.prev[l := r]);
    // right->next = left;
    h5.(next := h5.next[r := l])
  }

  /** When `l` and `r` are adjacent and distinct from their outer neighbours
      `p` and `q`, the six assignments amount to these six writes. */
  lemma SwapLinksEffect(h: Heap, l: int, r: int)
    requires WellSized(h) && 0 <= l < |h.next| && 0 <= r < |h.next|
    requires 0 <= h.prev[l] < |h.next| && 0 <= h.next[r] < |h.next|
    requires l != r && h.prev[l] != r && h.next[r] != l
    ensures SwapLinks(h, l, r) == Heap(h.next[h.prev[l] := r][l := h.next[r]][r := l],
                                        h.prev[h.next[r] := l][r := h.prev[l]][l := r], h.val)
  {
  }

  /** The links after one q_swap step on positions `j`, `j + 1` of the
      cycle `c`, written as six single writes. */
  function Swapped(h: Heap, c: seq<int>, j: int): Heap
    requires 1 <= j && j + 1 < |c|
    requires |h.next| == |h.prev|
    requires forall i :: 0 <= i < |c| ==> 0 <= c[i] < |h.next|
  {
    Heap(h.next[c[j - 1] := c[j + 1]][c[j] := Succ(c, j + 1)][c[j + 1] := c[j]],
         h.prev[Succ(c, j + 1) := c[j]][c[j + 1] := c[j - 1]][c[j] := c[j + 1]], h.val)
  }

  /** One step of q_swap exchanges the pair at positions `j`, `j + 1` of the
      cycle. */
  lemma SwapRing(h: Heap, c: seq<int>, j: int)
    requires Ring(h, c) && 1 <= j && j + 1 < |c|
    ensures Ring(Swapped(h, c, j), c[..j] + [c[j + 1], c[j]] + c[j + 2..])
  {
    var c' := c[..j] + [c[j + 1], c[j]] + c[j + 2..];
    SwappedCycle(c, j);
    var hs := Swapped(h, c, j);
    forall t | 0 <= t < |c'|
      ensures && 0 <= c'[t] < |hs.next| && hs.next[c'[t]] == Succ(c', t) && hs.prev[c'[t]] == Pred(c', t)
    {
      SwapRingAt(h, c, j, c', t);
    }
    RingIntro(hs, c');
  }

  /** On the cycle, the six assignments of a q_swap step are the six writes
      of `Swapped`. */
  lemma SwapLinksWrites(h: Heap, c: seq<int>, j: int)
    requires Ring(h, c) && 1 <= j && j + 1 < |c|
    ensures 0 <= h.prev[c[j]] < |h.next| && 0 <= h.next[c[j + 1]] < |h.next|
    ensures SwapLinks(h, c[j], c[j + 1]) == Swapped(h, c, j)
  {
    assert h.prev[c[j]] == Pred(c, j) == c[j - 1];
    assert h.next[c[j + 1]] == Succ(c, j + 1);
    SwapLinksEffect(h, c[j], c[j + 1]);
  }

  /** Exchanging two neighbouring positions of a cycle order: the head
      stays in front and the order stays free of repeats. */
  lemma SwappedCycle(c: seq<int>, j: int)
    requires |c| >= 1 && c[0] == HEAD && Distinct(c) && 1 <= j && j + 1 < |c|
    ensures var c' := c[..j] + [c[j + 1], c[j]] + c[j + 2..];
      && |c'| == |c| && c'[0] == HEAD && Distinct(c')
      && forall t :: 0 <= t < |c| ==> c'[t] == c[if t == j then j + 1 else if t == j + 1 then j else t]
  {
    var c' := c[..j] + [c[j + 1], c[j]] + c[j + 2..];
    assert |c'| == |c|;
    assert forall t :: 0 <= t < |c| ==> c'[t] == c[if t == j then j + 1 else if t == j + 1 then j else t];
    forall a, b | 0 <= a < b < |c'|
      ensures c'[a] != c'[b]
    {
      var ia := if a == j then j + 1 else if a == j + 1 then j else a;
      var ib := if b == j then j + 1 else if b == j + 1 then j else b;
      assert c'[a] == c[ia] && c'[b] == c[ib] && ia != ib;
    }
  }

  lemma SwapRingAt(h: Heap, c: seq<int>, j: int, c': seq<int>, t: int)
    requires Ring(h, c) && 1 <= j && j + 1 < |c|
    requires |c'| == |c|
    requires forall u :: 0 <= u < |c| ==> c'[u] == c[if u == j then j + 1 else if u == j + 1 then j else u]
    requires 0 <= t < |c|
    ensures 0 <= c'[t] < |h.next|
    ensures Swapped(h, c, j).next[c'[t]] == Succ(c', t)
    ensures Swapped(h, c, j).prev[c'[t]] == Pred(c', t)
  {
    SwapNextAt(h, c, j, c', t);
    SwapPrevAt(h, c, j, c', t);
  }

  lemma SwapNextAt(h: Heap, c: seq<int>, j: int, c': seq<int>, t: int)
    requires Ring(h, c) && 1 <= j && j + 1 < |c|
    requires |c'| == |c|
    requires forall u :: 0 <= u < |c| ==> c'[u] == c[if u == j then j + 1 else if u == j + 1 then j else u]
    requires 0 <= t < |c|
    ensures 0 <= c'[t] < |h.next|
    ensures Swapped(h, c, j).next[c'[t]] == Succ(c', t)
  {
    var l, r, p, q := c[j], c[j + 1], c[j - 1], Succ(c, j + 1);
    var nx := Swapped(h, c, j).next;
    assert nx == h.next[p := r][l := q][r := l];
    var u := if t == j then j + 1 else if t == j + 1 then j else t;
    assert c'[t] == c[u];
    if t == j - 1 {
      assert c'[t] == p && Succ(c', t) == r;
    } else if t == j {
      assert Succ(c', t) == l;
    } else if t == j + 1 {
      assert Succ(c', t) == q;
    } else {
      assert c[u] != p && c[u] != l && c[u] != r;
      assert h.next[c[u]] == Succ(c, u);
      assert Succ(c', t) == Succ(c, u);
    }
  }

  lemma SwapPrevAt(h: Heap, c: seq<int>, j: int, c': seq<int>, t: int)
    requires Ring(h, c) && 1 <= j && j + 1 < |c|
    requires |c'| == |c|
    requires forall u :: 0 <= u < |c| ==> c'[u] == c[if u == j then j + 1 else if u == j + 1 then j else u]
    requires 0 <= t < |c|
    ensures 0 <= c'[t] < |h.next|
    ensures Swapped(h, c, j).prev[c'[t]] == Pred(c', t)
  {
    var n := |c|;
    var l, r, p, q := c[j], c[j + 1], c[j - 1], Succ(c, j + 1);
    var pv := Swapped(h, c, j).prev;
    assert pv == h.prev[q := l][r := p][l := r];
    var u := if t == j then j + 1 else if t == j + 1 then j else t;
    assert c'[t] == c[u];
    if t == j {
      assert Pred(c', t) == p;
    } else if t == j + 1 {
      assert Pred(c', t) == r;
    } else if c[u] == q {
      assert t == (if j + 2 < n then j + 2 else 0);
      assert Pred(c', t) == l;
    } else {
      assert c[u] != l && c[u] != r;
      assert h.prev[c[u]] == Pred(c, u);
      if t == 0 {
        assert Pred(c', t) == c'[n - 1] == c[n - 1];
      } else {
        assert Pred(c', t) == c'[t - 1] == c[t - 1];
      }
    }
  }

  /** The queue order after the first `k` pairs have been exchanged. */
  function SwappedPrefix(ord: seq<int>, k: nat): seq<int>
    requires 2 * k <= |ord|
  {
    PairSwap(ord[..2 * k]) + ord[2 * k..]
  }

  /** One iteration of q_swap, on the pair at positions `2k`, `2k + 1`, and
      where the two cursors land afterwards. */
  lemma SwapStep(h: Heap, ord: seq<int>, k: nat)
    requires 2 * k + 1 < |ord| && Listed(h, SwappedPrefix(ord, k))
    ensures && WellSized(h) && 0 <= ord[2 * k] < |h.next| && 0 <= ord[2 * k + 1] < |h.next|
            && 0 <= h.prev[ord[2 * k]] < |h.next| && 0 <= h.next[ord[2 * k + 1]] < |h.next|
            && Listed(SwapLinks(h, ord[2 * k], ord[2 * k + 1]), SwappedPrefix(ord, k + 1))
            && SwapLinks(h, ord[2 * k], ord[2 * k + 1]).val == h.val
  {
    var c := [HEAD] + SwappedPrefix(ord, k);
    var x, y := ord[2 * k], ord[2 * k + 1];
    SwapPrefixStep(ord, k);
    SwapLinksWrites(h, c, 2 * k + 1);
    SwapRing(h, c, 2 * k + 1);
    var h' := SwapLinks(h, x, y);
    assert h' == Swapped(h, c, 2 * k + 1);
    assert Ring(h', [HEAD] + SwappedPrefix(ord, k + 1));
  }

  /** On the node order: exchanging positions `2k`, `2k + 1` of the cycle
      after `k` exchanges gives the order after `k + 1`. */
  lemma SwapPrefixStep(ord: seq<int>, k: nat)
    requires 2 * k + 1 < |ord|
    ensures var c := [HEAD] + SwappedPrefix(ord, k);
      && c[2 * k + 1] == ord[2 * k] && c[2 * k + 2] == ord[2 * k + 1]
      && c[..2 * k + 1] + [c[2 * k + 2], c[2 * k + 1]] + c[2 * k + 3..] == [HEAD] + SwappedPrefix(ord, k + 1)
  {
    var c := [HEAD] + SwappedPrefix(ord, k);
    var p := PairSwap(ord[..2 * k]);
    PrefixBefore(ord, k);
    PrefixAfter(ord, k);
    Splice(c, HEAD, p, ord[2 * k], ord[2 * k + 1], ord[2 * k + 2..]);
  }

  /** Before the `k`-th exchange its pair directly follows the swapped prefix. */
  lemma PrefixBefore(ord: seq<int>, k: nat)
    requires 2 * k + 1 < |ord|
    ensures SwappedPrefix(ord, k) == PairSwap(ord[..2 * k]) + ([ord[2 * k], ord[2 * k + 1]] + ord[2 * k + 2..])
  {
    assert ord[2 * k..] == [ord[2 * k], ord[2 * k + 1]] + ord[2 * k + 2..];
  }

  /** After the `k`-th exchange its pair follows the prefix, reversed. */
  lemma PrefixAfter(ord: seq<int>, k: nat)
    requires 2 * k + 1 < |ord|
    ensures SwappedPrefix(ord, k + 1) == PairSwap(ord[..2 * k]) + [ord[2 * k + 1], ord[2 * k]] + ord[2 * k + 2..]
  {
    assert ord[..2 * k + 2] == ord[..2 * k] + [ord[2 * k], ord[2 * k + 1]];
    Even(k);
    PairSwapExtend(ord[..2 * k], ord[2 * k], ord[2 * k + 1]);
  }

  /** Exchanging the two nodes that follow `[x] + p` in a cycle. */
  lemma Splice(c: seq<int>, x: int, p: seq<int>, a: int, b: int, rest: seq<int>)
    requires c == [x] + (p + ([a, b] + rest))
    ensures c[|p| + 1] == a && c[|p| + 2] == b
    ensures c[..|p| + 1] + [b, a] + c[|p| + 3..] == [x] + (p + [b, a] + rest)
  {
    assert c[..|p| + 1] == [x] + p;
    assert c[|p| + 3..] == rest;
  }

  /** After `k` exchanges the first untouched node follows the last one
      moved, and the queue's untouched tail is linked as before. */
  lemma SwapCursor(h: Heap, ord: seq<int>, k: nat)
    requires 1 <= k && 2 * k <= |ord| && Listed(h, SwappedPrefix(ord, k))
    ensures WellSized(h) && 0 <= ord[2 * k - 2] < |h.next|
    ensures h.next[ord[2 * k - 2]] == if 2 * k < |ord| then ord[2 * k] else HEAD
    ensures 2 * k < |ord| ==> ord[2 * k] != HEAD && 0 <= ord[2 * k] < |h.next|
    ensures 2 * k < |ord| ==> h.next[ord[2 * k]] == if 2 * k + 1 < |ord| then ord[2 * k + 1] else HEAD
    ensures 2 * k + 1 < |ord| ==> ord[2 * k + 1] != HEAD
  {
    var c := [HEAD] + SwappedPrefix(ord, k);
    SwapCursorSeq(ord, k);
    assert c[2 * k] == ord[2 * k - 2];
    assert h.next[c[2 * k]] == Succ(c, 2 * k);
    if 2 * k < |ord| {
      assert c[2 * k + 1] == ord[2 * k] && c[0] == HEAD;
      assert h.next[c[2 * k + 1]] == Succ(c, 2 * k + 1);
      if 2 * k + 1 < |ord| {
        assert c[2 * k + 2] == ord[2 * k + 1];
      }
    }
  }

  /** After `k` exchanges the last node moved is the original `2k - 2`nd and
      the tail from `2k` on is untouched. */
  lemma SwapCursorSeq(ord: seq<int>, k: nat)
    requires 1 <= k && 2 * k <= |ord|
    ensures SwappedPrefix(ord, k)[2 * k - 1] == ord[2 * k - 2]
    ensures forall i :: 2 * k <= i < |ord| ==> SwappedPrefix(ord, k)[i] == ord[i]
  {
    var p := PairSwap(ord[..2 * k]);
    OddMate(k);
    assert p[2 * k - 1] == ord[..2 * k][2 * k - 2];
    forall i | 2 * k <= i < |ord|
      ensures SwappedPrefix(ord, k)[i] == ord[i]
    {
      assert SwappedPrefix(ord, k)[i] == ord[2 * k..][i - 2 * k];
    }
  }

  /** The last position of an even-length prefix is paired with the one
      before it. */
  lemma OddMate(k: nat)
    requires k >= 1
    ensures Mate(2 * k - 1, 2 * k) == 2 * k - 2
  {
    assert (2 * k - 1) % 2 == 1;
  }

  /** q_swap: after the guard, relink one pair per iteration; stop when the
      next pair would reach the sentinel. */
  method Swap(h: Heap, ghost ord: seq<int>) returns (h': Heap)
    requires Listed(h, ord)
    ensures Listed(h', PairSwap(ord)) && h'.val == h.val
    ensures Within(h.val, ord) && Within(h'.val, PairSwap(ord))
      && Strings(h'.val, PairSwap(ord)) == QueueSpec.Swap(QueueSpec.Live(Strings(h.val, ord))).items
  {
    ListedEnds(h, ord);
    EmptyIff(h, ord);
    h' := h;
    var n := |ord|;
    if h.next[HEAD] == h.prev[HEAD] {
      assert PairSwap(ord) == ord;
      return;
    }
    SwapStart(h, ord);
    var left := h'.next[HEAD];
    var right := h'.next[left];
    ghost var k: nat := 0;
    var more := true;
    while more
      invariant 2 * k <= n && h'.val == h.val
      invariant Listed(h', SwappedPrefix(ord, k))
      invariant more ==> 2 * k + 1 < n && left == ord[2 * k] && right == ord[2 * k + 1]
      invariant !more ==> n - 2 * k <= 1
      decreases n - 2 * k
    {
      SwapStep(h', ord, k);
      h' := SwapLinks(h', left, right);
      k := k + 1;
      SwapCursor(h', ord, k);
      left := h'.next[left];
      right := h'.next[left];
      more := left != HEAD && right != HEAD;
    }
    SwapDone(h, h', ord, k);
  }

  lemma Even(k: nat)
    ensures (2 * k) % 2 == 0
  {
  }

  lemma SwapStart(h: Heap, ord: seq<int>)
    requires Listed(h, ord) && |ord| >= 2
    ensures WellSized(h) && h.next[HEAD] == ord[0] && 0 <= ord[0] < |h.next| && h.next[ord[0]] == ord[1]
    ensures Listed(h, SwappedPrefix(ord, 0))
  {
    ListedFacts(h, ord);
    assert SwappedPrefix(ord, 0) == ord;
  }

  /** When no full pair is left, the exchanged prefix is the whole answer. */
  lemma {:induction false} SwapDone(h: Heap, h': Heap, ord: seq<int>, k: nat)
    requires Listed(h, ord) && |ord| >= 2
    requires 2 * k <= |ord| <= 2 * k + 1 && Listed(h', SwappedPrefix(ord, k)) && h'.val == h.val
    ensures Listed(h', PairSwap(ord))
    ensures Within(h.val, ord) && Within(h'.val, PairSwap(ord))
      && Strings(h'.val, PairSwap(ord)) == QueueSpec.Swap(QueueSpec.Live(Strings(h.val, ord))).items
  {
    ListedEnds(h, ord);
    Even(k);
    PairSwapTail(ord, 2 * k);
    assert SwappedPrefix(ord, k) == PairSwap(ord);
    StringsPairSwap(h, ord);
    assert QueueSpec.Swap(QueueSpec.Live(Strings(h.val, ord))).items == PairSwap(Strings(h.val, ord));
  }
}
