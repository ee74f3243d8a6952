/** The linked structure behind a queue: an arena of `struct list_head`
    nodes addressed by index, with the sentinel at index HEAD. The list.h
    primitives queue.c calls (list_add, list_add_tail, list_del) are
    functions on the arena, each proved to keep the circular doubly-linked
    invariant. */
module Arena {
  import opened SeqOps

  /** The sentinel: the node a `struct list_head *head` points to. */
  const HEAD: int := 0

  /** A NULL link. */
  const NIL: int := -1

  /** Node `i` has links `next[i]` and `prev[i]` and, when it is embedded in
      an `element_t`, the string `val[i]`; `val[HEAD]` is never read. */
  datatype Heap = Heap(next: seq<int>, prev: seq<int>, val: seq<string>)

  predicate WellSized(h: Heap) {
    |h.next| == |h.prev| == |h.val| >= 1
  }

  /** The node after position `i` of a cycle, wrapping to the front. */
  function Succ(c: seq<int>, i: int): int
    requires 0 <= i < |c|
  {
    c[if i + 1 < |c| then i + 1 else 0]
  }

  /** The node before position `i` of a cycle, wrapping to the back. */
  function Pred(c: seq<int>, i: int): int
    requires 0 <= i < |c|
  {
    c[if i > 0 then i - 1 else |c| - 1]
  }

  /** `c` is the cycle through the sentinel: following `next` from HEAD
      visits exactly the nodes of `c` in order and comes back to HEAD, and
      `prev` visits them in the opposite order, so the two links are inverse
      to each other on every node of the cycle. */
  predicate Ring(h: Heap, c: seq<int>) {
    && WellSized(h)
    && |c| >= 1 && c[0] == HEAD
    && (forall i :: 0 <= i < |c| ==> 0 <= c[i] < |h.next|)
    && Distinct(c)
    && (forall i {:trigger h.next[c[i]]} :: 0 <= i < |c| ==> h.next[c[i]] == Succ(c, i))
    && (forall i {:trigger h.prev[c[i]]} :: 0 <= i < |c| ==> h.prev[c[i]] == Pred(c, i))
  }

  /** A cycle from the links of each of its nodes. */
  lemma RingIntro(h: Heap, c: seq<int>)
    requires WellSized(h) && |c| >= 1 && c[0] == HEAD && Distinct(c)
    requires forall i :: 0 <= i < |c| ==>
      && 0 <= c[i] < |h.next| && h.next[c[i]] == Succ(c, i) && h.prev[c[i]] == Pred(c, i)
    ensures Ring(h, c)
  {
  }

  /** `ord` lists the queue's element nodes from head to tail. */
  predicate Listed(h: Heap, ord: seq<int>) {
    Ring(h, [HEAD] + ord)
  }

  /** Every node of `s` has a string in `val`. */
  predicate Within(val: seq<string>, s: seq<int>) {
    forall i :: 0 <= i < |s| ==> 0 <= s[i] < |val|
  }

  /** The abstraction function: the strings held by the nodes of `s`, in
      order. Applied to a heap's `val` and its listed order it gives the
      queue's contents. */
  function Strings(val: seq<string>, s: seq<int>): (r: seq<string>)
    requires Within(val, s)
    ensures |r| == |s|
  {
    seq(|s|, i requires 0 <= i < |s| => val[s[i]])
  }

  /** What `Listed` says about the element nodes one by one: the first
      node's predecessor and the last node's successor are the sentinel. */
  lemma ListedFacts(h: Heap, ord: seq<int>)
    requires Listed(h, ord)
    ensures WellSized(h) && Within(h.val, ord) && Distinct(ord)
    ensures forall i :: 0 <= i < |ord| ==> ord[i] != HEAD && 0 <= ord[i] < |h.next|
    ensures h.next[HEAD] == (if |ord| > 0 then ord[0] else HEAD)
    ensures h.prev[HEAD] == (if |ord| > 0 then ord[|ord| - 1] else HEAD)
    ensures forall i :: 0 <= i < |ord| ==> h.next[ord[i]] == (if i + 1 < |ord| then ord[i + 1] else HEAD)
    ensures forall i :: 0 <= i < |ord| ==> h.prev[ord[i]] == (if i > 0 then ord[i - 1] else HEAD)
  {
    var c := [HEAD] + ord;
    assert h.next[c[0]] == Succ(c, 0) && h.prev[c[0]] == Pred(c, 0);
    forall i | 0 <= i < |ord|
      ensures ord[i] != HEAD && 0 <= ord[i] < |h.next|
      ensures h.next[ord[i]] == (if i + 1 < |ord| then ord[i + 1] else HEAD)
      ensures h.prev[ord[i]] == (if i > 0 then ord[i - 1] else HEAD)
    {
      assert c[i + 1] == ord[i] && c[0] == HEAD;
      assert h.next[c[i + 1]] == Succ(c, i + 1);
      assert h.prev[c[i + 1]] == Pred(c, i + 1);
    }
    forall i, j | 0 <= i < j < |ord|
      ensures ord[i] != ord[j]
    {
      assert c[i + 1] == ord[i] && c[j + 1] == ord[j];
    }
  }

  /** The links determine the order: a state lists its elements in one way
      only, so `Strings(h.val, ord)` is a function of the state. */
  lemma ListedUnique(h: Heap, o1: seq<int>, o2: seq<int>)
    requires Listed(h, o1) && Listed(h, o2)
    ensures o1 == o2
  {
    RingUnique(h, [HEAD] + o1, [HEAD] + o2);
    assert o1 == ([HEAD] + o1)[1..] && o2 == ([HEAD] + o2)[1..];
  }

  lemma RingUnique(h: Heap, c1: seq<int>, c2: seq<int>)
    requires Ring(h, c1) && Ring(h, c2)
    ensures c1 == c2
  {
    var n := if |c1| <= |c2| then |c1| else |c2|;
    var k := 0;
    while k + 1 < n
      invariant 0 <= k < n
      invariant c1[..k + 1] == c2[..k + 1]
    {
      assert h.next[c1[k]] == c1[k + 1] && h.next[c2[k]] == c2[k + 1];
      k := k + 1;
    }
    // both cycles agree on their common length; neither can be longer
    RingNextIsHead(h, c1, k);
    RingNextIsHead(h, c2, k);
    assert |c1| == |c2|;
    assert c1 == c1[..k + 1] && c2 == c2[..k + 1];
  }

  /** Only the last node of the cycle links back to the sentinel. */
  lemma RingNextIsHead(h: Heap, c: seq<int>, k: int)
    requires Ring(h, c) && 0 <= k < |c|
    ensures h.next[c[k]] == HEAD <==> k == |c| - 1
  {
    assert h.next[c[k]] == Succ(c, k);
  }

  /** `list_empty(head)`: the sentinel's successor is itself exactly when
      there are no elements. The guard `head->next == head->prev` of q_swap
      and q_sort holds exactly when there is at most one. */
  lemma EmptyIff(h: Heap, ord: seq<int>)
    requires Listed(h, ord)
    ensures h.next[HEAD] == HEAD <==> |ord| == 0
    ensures h.next[HEAD] == h.prev[HEAD] <==> |ord| <= 1
  {
    ListedFacts(h, ord);
  }

  /** `list_del(node)`: the node's neighbours are linked to each other; the
      node's own links are left as they were. */
  function Del(h: Heap, x: int): Heap
    requires WellSized(h) && 0 <= x < |h.next|
    requires 0 <= h.next[x] < |h.next| && 0 <= h.prev[x] < |h.next|
  {
    var nx := h.next[x];
    var pv := h.prev[x];
    // next->prev = prev; prev->next = next;
    Heap(h.next[pv := nx], h.prev[nx := pv], h.val)
  }

  /** Unlinking the node at position `j >= 1` of the cycle leaves the cycle
      without it. */
  lemma {:induction false} DelRing(h: Heap, c: seq<int>, j: int)
    requires Ring(h, c) && 1 <= j < |c|
    ensures Ring(Del(h, c[j]), RemoveAt(c, j))
    ensures Del(h, c[j]).val == h.val
  {
    var c' := RemoveAt(c, j);
    var d := Del(h, c[j]);
    RemoveAtCycle(c, j);
    forall i | 0 <= i < |c'|
      ensures && 0 <= c'[i] < |d.next| && d.next[c'[i]] == Succ(c', i) && d.prev[c'[i]] == Pred(c', i)
    {
      DelRingAt(h, c, j, c', i);
    }
    RingIntro(d, c');
  }

  /** The shortened cycle still starts at the sentinel and repeats no node;
      its positions are those of `c` with `j` skipped. */
  lemma RemoveAtCycle(c: seq<int>, j: int)
    requires |c| >= 1 && c[0] == HEAD && Distinct(c) && 1 <= j < |c|
    ensures |RemoveAt(c, j)| >= 1 && RemoveAt(c, j)[0] == HEAD && Distinct(RemoveAt(c, j))
    ensures forall t :: 0 <= t < |RemoveAt(c, j)| ==> RemoveAt(c, j)[t] == c[if t < j then t else t + 1]
  {
    RemoveAtDistinct(c, j);
  }

  /** Dropping one position keeps the elements distinct. */
  lemma RemoveAtDistinct(c: seq<int>, j: int)
    requires Distinct(c) && 0 <= j < |c|
    ensures Distinct(RemoveAt(c, j))
  {
    var c' := RemoveAt(c, j);
    forall a, b | 0 <= a < b < |c'|
      ensures c'[a] != c'[b]
    {
      var ia := if a < j then a else a + 1;
      var ib := if b < j then b else b + 1;
      assert c'[a] == c[ia] && c'[b] == c[ib] && ia < ib;
    }
  }

  /** One node of the shortened cycle has the right links after `list_del`. */
  lemma DelRingAt(h: Heap, c: seq<int>, j: int, c': seq<int>, i: int)
    requires Ring(h, c) && 1 <= j < |c|
    requires |c'| == |c| - 1
    requires forall t :: 0 <= t < |c'| ==> c'[t] == c[if t < j then t else t + 1]
    requires 0 <= i < |c'|
    ensures 0 <= c'[i] < |Del(h, c[j]).next|
    ensures Del(h, c[j]).next[c'[i]] == Succ(c', i)
    ensures Del(h, c[j]).prev[c'[i]] == Pred(c', i)
  {
    var k := if i < j then i else i + 1;
    assert c'[i] == c[k];
    DelNextAt(h, c, j, k);
    DelPrevAt(h, c, j, k);
    SkipNeighbours(c, j, c', i, k);
  }

  /** Position `i` of the cycle with position `j` skipped is position `k`
      of the original; its neighbours are the original ones, except that
      the two nodes around `c[j]` now face each other. */
  lemma SkipNeighbours(c: seq<int>, j: int, c': seq<int>, i: int, k: int)
    requires Distinct(c) && 1 <= j < |c| && |c'| == |c| - 1
    requires forall t :: 0 <= t < |c'| ==> c'[t] == c[if t < j then t else t + 1]
    requires 0 <= i < |c'| && k == (if i < j then i else i + 1)
    ensures Succ(c', i) == if k == j - 1 then Succ(c, j) else Succ(c, k)
    ensures Pred(c', i) == if c[k] == Succ(c, j) then Pred(c, j) else Pred(c, k)
  {
    if k < j - 1 {
      assert Succ(c', i) == c[k + 1] == Succ(c, k);
    } else if k == j - 1 {
      assert Succ(c', i) == Succ(c, j);
    } else if i + 1 < |c'| {
      assert Succ(c', i) == c[k + 1] == Succ(c, k);
    } else {
      assert Succ(c', i) == c[0] == Succ(c, k);
    }
    if i == 0 {
      if j == |c| - 1 {
        assert Pred(c', i) == c[j - 1] == Pred(c, j);
        assert c[k] == Succ(c, j);
      } else {
        assert Pred(c', i) == c[|c| - 1] == Pred(c, k);
        assert c[k] != c[j + 1];
      }
    } else if k <= j {
      assert Pred(c', i) == c[k - 1] == Pred(c, k);
      assert c[k] != Succ(c, j) by {
        if j + 1 < |c| {
          assert c[k] != c[j + 1];
        } else {
          assert c[k] != c[0];
        }
      }
    } else if k == j + 1 {
      assert Pred(c', i) == c[j - 1] == Pred(c, j);
    } else {
      assert Pred(c', i) == c[k - 1] == Pred(c, k);
      assert c[k] != Succ(c, j) by {
        assert c[k] != c[j + 1];
      }
    }
  }

  /** After `list_del` of position `j`, the `next` link of any other node
      `c[k]` is its old one, except that the predecessor now skips `c[j]`. */
  lemma DelNextAt(h: Heap, c: seq<int>, j: int, k: int)
    requires Ring(h, c) && 1 <= j < |c| && 0 <= k < |c| && k != j
    ensures 0 <= c[k] < |Del(h, c[j]).next|
    ensures Del(h, c[j]).next[c[k]] == if k == j - 1 then Succ(c, j) else Succ(c, k)
  {
    assert h.next[c[j]] == Succ(c, j) && h.prev[c[j]] == Pred(c, j);
    assert h.next[c[k]] == Succ(c, k);
    assert Del(h, c[j]).next == h.next[c[j - 1] := Succ(c, j)];
    if k != j - 1 {
      assert c[k] != c[j - 1];
    }
  }

  /** After `list_del` of position `j`, the `prev` link of any other node
      `c[k]` is its old one, except that the successor now skips `c[j]`. */
  lemma DelPrevAt(h: Heap, c: seq<int>, j: int, k: int)
    requires Ring(h, c) && 1 <= j < |c| && 0 <= k < |c| && k != j
    ensures 0 <= c[k] < |Del(h, c[j]).prev|
    ensures Del(h, c[j]).prev[c[k]] == if c[k] == Succ(c, j) then Pred(c, j) else Pred(c, k)
  {
    assert h.next[c[j]] == Succ(c, j) && h.prev[c[j]] == Pred(c, j);
    assert h.prev[c[k]] == Pred(c, k);
    assert Del(h, c[j]).prev == h.prev[Succ(c, j) := c[j - 1]];
  }

  /** `list_del` on the element at position `j` of the queue. */
  lemma DelListed(h: Heap, ord: seq<int>, j: int)
    requires Listed(h, ord) && 0 <= j < |ord|
    ensures && WellSized(h) && 0 <= ord[j] < |h.next|
            && 0 <= h.next[ord[j]] < |h.next| && 0 <= h.prev[ord[j]] < |h.next|
            && Listed(Del(h, ord[j]), RemoveAt(ord, j))
            && Del(h, ord[j]).val == h.val
  {
    ListedFacts(h, ord);
    var c := [HEAD] + ord;
    assert c[j + 1] == ord[j];
    DelRing(h, c, j + 1);
    assert RemoveAt(c, j + 1) == [HEAD] + RemoveAt(ord, j);
  }

  /** `list_add(node, head)`: link `x` in right after the sentinel. */
  function ListAdd(h: Heap, x: int): Heap
    requires WellSized(h) && 0 <= x < |h.next| && 0 <= h.next[HEAD] < |h.next|
  {
    var nx := h.next[HEAD];
    // next->prev = node; node->next = next; node->prev = head; head->next = node;
    Heap(h.next[x := nx][HEAD := x], h.prev[nx := x][x := HEAD], h.val)
  }

  /** `list_add_tail(node, head)`: link `x` in right before the sentinel. */
  function ListAddTail(h: Heap, x: int): Heap
    requires WellSized(h) && 0 <= x < |h.next| && 0 <= h.prev[HEAD] < |h.next|
  {
    var pv := h.prev[HEAD];
    // prev->next = node; node->next = head; node->prev = prev; head->prev = node;
    Heap(h.next[pv := x][x := HEAD], h.prev[x := pv][HEAD := x], h.val)
  }

  /** A node outside the queue, added at the head, becomes its first element. */
  lemma ListAddListed(h: Heap, ord: seq<int>, x: int)
    requires Listed(h, ord) && 0 < x < |h.next| && x !in ord
    ensures Listed(ListAdd(h, x), [x] + ord)
    ensures ListAdd(h, x).val == h.val
  {
    var c' := [HEAD] + ([x] + ord);
    HeadInsertCycle(ord, x);
    forall i | 0 <= i < |c'|
      ensures && 0 <= c'[i] < |ListAdd(h, x).next| && ListAdd(h, x).next[c'[i]] == Succ(c', i)
              && ListAdd(h, x).prev[c'[i]] == Pred(c', i)
    {
      ListAddAt(h, ord, x, i);
    }
    RingIntro(ListAdd(h, x), c');
  }

  /** The cycle with `x` right after the sentinel repeats no node. */
  lemma HeadInsertCycle(ord: seq<int>, x: int)
    requires Distinct([HEAD] + ord) && x != HEAD && x !in ord
    ensures Distinct([HEAD] + ([x] + ord)) && ([HEAD] + ([x] + ord))[0] == HEAD
  {
    var c := [HEAD] + ord;
    var c' := [HEAD] + ([x] + ord);
    forall a, b | 0 <= a < b < |c'|
      ensures c'[a] != c'[b]
    {
      if a >= 2 {
        assert c'[a] == c[a - 1] && c'[b] == c[b - 1];
      } else if a == 1 {
        assert c'[b] == c[b - 1] && c[b - 1] in ord;
      } else if b >= 2 {
        assert c'[b] == c[b - 1] && c[0] == HEAD;
      }
    }
  }

  /** One node of the grown cycle has the right links after `list_add`. */
  lemma ListAddAt(h: Heap, ord: seq<int>, x: int, i: int)
    requires Listed(h, ord) && 0 < x < |h.next| && x !in ord
    requires 0 <= i <= |ord| + 1
    ensures 0 <= ([HEAD] + ([x] + ord))[i] < |ListAdd(h, x).next|
    ensures ListAdd(h, x).next[([HEAD] + ([x] + ord))[i]] == Succ([HEAD] + ([x] + ord), i)
    ensures ListAdd(h, x).prev[([HEAD] + ([x] + ord))[i]] == Pred([HEAD] + ([x] + ord), i)
  {
    var c := [HEAD] + ord;
    var c' := [HEAD] + ([x] + ord);
    var h' := ListAdd(h, x);
    var nx := h.next[HEAD];
    assert h.next[c[0]] == Succ(c, 0) && h.prev[c[0]] == Pred(c, 0);
    assert h'.next == h.next[x := nx][HEAD := x];
    assert h'.prev == h.prev[nx := x][x := HEAD];
    if i >= 2 {
      assert c'[i] == c[i - 1] && c[i - 1] in ord && c[0] == HEAD;
      assert h.next[c[i - 1]] == Succ(c, i - 1) && h.prev[c[i - 1]] == Pred(c, i - 1);
      if i > 2 {
        assert c[i - 1] != c[1];
      }
    }
  }

  /** A node outside the queue, added at the tail, becomes its last element. */
  lemma ListAddTailListed(h: Heap, ord: seq<int>, x: int)
    requires Listed(h, ord) && 0 < x < |h.next| && x !in ord
    ensures Listed(ListAddTail(h, x), ord + [x])
    ensures ListAddTail(h, x).val == h.val
  {
    var c := [HEAD] + ord;
    var c' := [HEAD] + (ord + [x]);
    TailInsertCycle(c, x);
    assert c' == c + [x];
    forall i | 0 <= i < |c'|
      ensures && 0 <= c'[i] < |ListAddTail(h, x).next| && ListAddTail(h, x).next[c'[i]] == Succ(c', i)
              && ListAddTail(h, x).prev[c'[i]] == Pred(c', i)
    {
      ListAddTailAt(h, c, x, i);
    }
    RingIntro(ListAddTail(h, x), c');
  }

  /** The cycle with `x` right before the sentinel repeats no node. */
  lemma TailInsertCycle(c: seq<int>, x: int)
    requires Distinct(c) && |c| >= 1 && x !in c
    ensures Distinct(c + [x]) && (c + [x])[0] == c[0]
  {
    var c' := c + [x];
    forall a, b | 0 <= a < b < |c'|
      ensures c'[a] != c'[b]
    {
      assert c'[a] == c[a];
      if b < |c| {
        assert c'[b] == c[b];
      }
    }
  }

  lemma ListAddTailAt(h: Heap, c: seq<int>, x: int, i: int)
    requires Ring(h, c) && 0 < x < |h.next| && x !in c
    requires 0 <= i <= |c|
    ensures 0 <= (c + [x])[i] < |ListAddTail(h, x).next|
    ensures ListAddTail(h, x).next[(c + [x])[i]] == Succ(c + [x], i)
    ensures ListAddTail(h, x).prev[(c + [x])[i]] == Pred(c + [x], i)
  {
    var c' := c + [x];
    var h' := ListAddTail(h, x);
    var pv := c[|c| - 1];
    assert h.prev[c[0]] == Pred(c, 0) == pv;
    assert h'.next == h.next[pv := x][x := HEAD];
    assert h'.prev == h.prev[x := pv][HEAD := x];
    if i < |c| {
      assert c'[i] == c[i] && c[i] != x;
      assert h.next[c[i]] == Succ(c, i) && h.prev[c[i]] == Pred(c, i);
      if i == |c| - 1 {
        assert Succ(c', i) == x;
      } else {
        assert c[i] != pv;
        assert Succ(c', i) == c[i + 1] == Succ(c, i);
      }
      if i == 0 {
        assert Pred(c', i) == x;
      } else {
        assert c[i] != HEAD;
        assert Pred(c', i) == c[i - 1] == Pred(c, i);
      }
    } else {
      assert c'[i] == x && Succ(c', i) == HEAD && Pred(c', i) == pv;
    }
  }
}
