/** The string queue of queue.c as its contents: each operation maps the
    strings of a queue, read from head to tail, to the strings after it, with
    the NULL queue and allocation failure as explicit cases. */
module QueueSpec {
  import opened SeqOps
  import opened StrOrder
  import Sorting
  import Dedup

  datatype Option<T> = None | Some(value: T)

  /** A queue handle: `Absent` is a NULL `struct list_head *`; a live queue
      holds its strings from head to tail. */
  datatype Queue = Absent | Live(items: seq<string>)

  /** The boolean an operation returns, with the queue after the call. */
  datatype Update = Update(ok: bool, q: Queue)

  /** What q_remove_head and q_remove_tail give back: the unlinked element's
      string (None for a NULL return), the contents of the caller's buffer
      when one was given and written, and the queue after the call. */
  datatype Removal = Removal(elem: Option<string>, buf: Option<seq<char>>, q: Queue)

  /** q_new: an empty queue, or NULL when the sentinel cannot be allocated. */
  function New(allocOk: bool): (q: Queue)
    ensures q.Live? <==> allocOk
    ensures q.Live? ==> Size(q) == 0
  {
    if allocOk then Live([]) else Absent
  }

  /** q_size: the number of elements; 0 for NULL. */
  function Size(q: Queue): (n: nat) {
    if q.Absent? then 0 else |q.items|
  }

  /** q_insert_head. `allocOk` is false when either the element or the copy
      of `s` cannot be allocated. */
  function InsertHead(q: Queue, s: string, allocOk: bool): (r: Update)
    ensures r.ok <==> q.Live? && allocOk
    ensures !r.ok ==> r.q == q
    ensures r.ok ==> r.q.Live? && Size(r.q) == Size(q) + 1
    ensures r.ok ==> r.q.items[0] == s && r.q.items[1..] == q.items
  {
    if q.Absent? || !allocOk then Update(false, q)
    else Update(true, Live([s] + q.items))
  }

  /** q_insert_tail. */
  function InsertTail(q: Queue, s: string, allocOk: bool): (r: Update)
    ensures r.ok <==> q.Live? && allocOk
    ensures !r.ok ==> r.q == q
    ensures r.ok ==> r.q.Live? && Size(r.q) == Size(q) + 1
    ensures r.ok ==> r.q.items[Size(q)] == s && r.q.items[..Size(q)] == q.items
  {
    if q.Absent? || !allocOk then Update(false, q)
    else Update(true, Live(q.items + [s]))
  }

  function Min(a: int, b: int): (m: int) {
    if a <= b then a else b
  }

  /** The `bufsize` bytes of the caller's buffer after
      `strncpy(sp, v, bufsize - 1); sp[bufsize - 1] = '\0'`: the string,
      truncated to `bufsize - 1` characters, then NULs to the end. */
  function CopyOut(v: string, bufsize: nat): (buf: seq<char>)
    requires bufsize >= 1
    ensures |buf| == bufsize
    ensures forall i :: 0 <= i < bufsize ==>
      buf[i] == (if i < |v| && i < bufsize - 1 then v[i] else '\0')
  {
    var k := Min(|v|, bufsize - 1);
    v[..k] + seq(bufsize - k, _ => '\0')
  }

  /** C strings hold no NUL before their terminator. */
  predicate NoNul(s: string) {
    forall i :: 0 <= i < |s| ==> s[i] != '\0'
  }

  /** The C string a buffer holds: its characters before the first NUL. */
  function CString(buf: seq<char>): (s: string)
    ensures NoNul(s) && |s| <= |buf|
  {
    if buf == [] || buf[0] == '\0' then [] else [buf[0]] + CString(buf[1..])
  }

  /** Reading the caller's buffer back as a C string gives the removed string
      cut to `bufsize - 1` characters. */
  lemma {:induction false} CopyOutReadsBack(v: string, bufsize: nat)
    requires bufsize >= 1 && NoNul(v)
    ensures CString(CopyOut(v, bufsize)) == v[..Min(|v|, bufsize - 1)]
    decreases bufsize
  {
    var buf := CopyOut(v, bufsize);
    if |v| > 0 && bufsize > 1 {
      CopyOutReadsBack(v[1..], bufsize - 1);
      assert buf[1..] == CopyOut(v[1..], bufsize - 1);
      assert v[..Min(|v|, bufsize - 1)] == [v[0]] + v[1..][..Min(|v| - 1, bufsize - 2)];
    } else {
      assert buf[0] == '\0';
    }
  }

  /** A buffer longer than the string receives all of it. */
  lemma CopyOutWhole(v: string, bufsize: nat)
    requires NoNul(v) && bufsize > |v|
    ensures CString(CopyOut(v, bufsize)) == v
  {
    CopyOutReadsBack(v, bufsize);
    assert v[..|v|] == v;
  }

  /** q_remove_head. `sp` says whether the caller passed a buffer. */
  function RemoveHead(q: Queue, sp: bool, bufsize: nat): (r: Removal)
    requires sp ==> bufsize >= 1
    ensures r.elem.None? <==> Size(q) == 0
    ensures r.elem.None? ==> r.q == q && r.buf.None?
    ensures r.elem.Some? ==> r.elem.value == q.items[0] && r.q == Live(q.items[1..])
    ensures r.buf.Some? <==> r.elem.Some? && sp
    ensures r.buf.Some? ==> r.buf.value == CopyOut(r.elem.value, bufsize)
  {
    if q.Absent? || q.items == [] then Removal(None, None, q)
    else
      var v := q.items[0];
      Removal(Some(v), if sp then Some(CopyOut(v, bufsize)) else None, Live(q.items[1..]))
  }

  /** q_remove_tail. */
  function RemoveTail(q: Queue, sp: bool, bufsize: nat): (r: Removal)
    requires sp ==> bufsize >= 1
    ensures r.elem.None? <==> Size(q) == 0
    ensures r.elem.None? ==> r.q == q && r.buf.None?
    ensures r.elem.Some? ==> r.elem.value == q.items[Size(q) - 1] && r.q == Live(q.items[..Size(q) - 1])
    ensures r.buf.Some? <==> r.elem.Some? && sp
    ensures r.buf.Some? ==> r.buf.value == CopyOut(r.elem.value, bufsize)
  {
    if q.Absent? || q.items == [] then Removal(None, None, q)
    else
      var n := |q.items|;
      var v := q.items[n - 1];
      Removal(Some(v), if sp then Some(CopyOut(v, bufsize)) else None, Live(q.items[..n - 1]))
  }

  /** Inserting at the head and removing from the head gives back the
      string and the queue. */
  lemma InsertRemoveHead(items: seq<string>, s: string, sp: bool, bufsize: nat)
    requires sp ==> bufsize >= 1
    ensures RemoveHead(InsertHead(Live(items), s, true).q, sp, bufsize)
      == Removal(Some(s), if sp then Some(CopyOut(s, bufsize)) else None, Live(items))
  {
  }

  /** Inserting at the tail and removing from the tail gives back the
      string and the queue. */
  lemma InsertRemoveTail(items: seq<string>, s: string, sp: bool, bufsize: nat)
    requires sp ==> bufsize >= 1
    ensures RemoveTail(InsertTail(Live(items), s, true).q, sp, bufsize)
      == Removal(Some(s), if sp then Some(CopyOut(s, bufsize)) else None, Live(items))
  {
    assert (items + [s])[..|items|] == items;
  }

  /** The position q_delete_mid removes from `n >= 1` elements. The two
      pointers meet at (n-1)/2: for six elements the third, index 2. */
  function MidIndex(n: nat): (m: nat)
    requires n >= 1
    ensures m < n && n - 1 - m - m <= 1 && m <= n - 1 - m
  {
    (n - 1) / 2
  }

  /** The index removed agrees with floor(n/2) for odd `n` only; for even
      `n` it is the lower of the two middle positions. */
  lemma MidIndexHalves(n: nat)
    requires n >= 1
    ensures n % 2 == 1 ==> MidIndex(n) == n / 2
    ensures n % 2 == 0 ==> MidIndex(n) == n / 2 - 1
  {
  }

  /** q_delete_mid. */
  function DeleteMid(q: Queue): (r: Update)
    ensures r.ok <==> Size(q) > 0
    ensures !r.ok ==> r.q == q
    ensures r.ok ==> r.q.Live? && Size(r.q) == Size(q) - 1
    ensures r.ok ==> multiset(r.q.items) + multiset{q.items[MidIndex(Size(q))]} == multiset(q.items)
    ensures r.ok ==> forall i :: 0 <= i < Size(r.q) ==>
      r.q.items[i] == q.items[if i < MidIndex(Size(q)) then i else i + 1]
  {
    if q.Absent? || q.items == [] then Update(false, q)
    else
      var m := MidIndex(|q.items|);
      RemoveAtMultiset(q.items, m);
      Update(true, Live(RemoveAt(q.items, m)))
  }

  /** q_delete_dup. */
  function DeleteDup(q: Queue): (r: Update)
    ensures r.ok <==> q.Live?
    ensures !r.ok ==> r.q == q
    ensures r.ok ==> r.q == Live(Dedup.Dedup(q.items))
  {
    if q.Absent? then Update(false, q) else Update(true, Live(Dedup.Dedup(q.items)))
  }

  /** q_swap. The guard `head->next == head->prev` holds of queues of at most
      one element. */
  function Swap(q: Queue): (r: Queue)
    ensures q.Absent? ==> r.Absent?
    ensures q.Live? ==> r.Live? && |r.items| == |q.items|
    ensures q.Live? ==> forall i :: 0 <= i < |q.items| ==> r.items[i] == q.items[Mate(i, |q.items|)]
  {
    if q.Absent? || |q.items| <= 1 then q else Live(PairSwap(q.items))
  }

  /** q_reverse. */
  function Reverse(q: Queue): (r: Queue)
    ensures q.Absent? ==> r.Absent?
    ensures q.Live? ==> r.Live? && |r.items| == |q.items|
    ensures q.Live? ==> forall i :: 0 <= i < |q.items| ==> r.items[i] == q.items[|q.items| - 1 - i]
  {
    if q.Absent? || q.items == [] then q else Live(SeqOps.Reverse(q.items))
  }

  /** q_sort: ascending by strcmp and a permutation of the input. */
  function Sort(q: Queue): (r: Queue)
    ensures q.Absent? ==> r.Absent?
    ensures q.Live? ==> r.Live? && Sorting.Sorted(r.items)
    ensures q.Live? ==> multiset(r.items) == multiset(q.items)
  {
    if q.Absent? || |q.items| <= 1 then q
    else
      Sorting.MergeSortSorted(q.items);
      Live(Sorting.MergeSort(q.items))
  }

  lemma ReverseTwice(q: Queue)
    ensures Reverse(Reverse(q)) == q
  {
    if q.Live? && q.items != [] {
      ReverseInvolutive(q.items);
    }
  }

  lemma {:induction false} SwapTwice(q: Queue)
    ensures Swap(Swap(q)) == q
  {
    if q.Live? && |q.items| > 1 {
      PairSwapInvolutive(q.items);
    }
  }

  /** Sorting is a permutation, so are reversing and swapping. */
  lemma ReorderingsPermute(q: Queue)
    requires q.Live?
    ensures multiset(Reverse(q).items) == multiset(q.items)
    ensures multiset(Swap(q).items) == multiset(q.items)
  {
    ReversePermutes(q.items);
    PairSwapPermutes(q.items);
  }

  /** Sorting an already sorted queue changes nothing; sorting twice is
      sorting once. */
  lemma {:induction false} SortIdempotent(q: Queue)
    ensures Sort(Sort(q)) == Sort(q)
    ensures q.Live? && Sorting.Sorted(q.items) ==> Sort(q) == q
  {
    if q.Live? && |q.items| > 1 {
      Sorting.MergeSortIdempotent(q.items);
      if Sorting.Sorted(q.items) {
        Sorting.MergeSortOfSorted(q.items);
      }
    }
  }

  /** On a sorted queue a second q_delete_dup changes nothing. */
  lemma DeleteDupIdempotent(q: Queue)
    requires q.Live? && Sorting.Sorted(q.items)
    ensures DeleteDup(DeleteDup(q).q) == DeleteDup(q)
  {
    Dedup.DedupIdempotent(q.items);
  }

  /** The calls a test driver makes on a queue. */
  datatype Op =
    | InsertHeadOp(s: string, allocOk: bool)
    | InsertTailOp(s: string, allocOk: bool)
    | RemoveHeadOp
    | RemoveTailOp

  /** Applies the calls in order; the integer counts successful insertions
      minus successful removals. */
  function Run(q: Queue, ops: seq<Op>): (r: (Queue, int))
    decreases |ops|
  {
    if ops == [] then (q, 0)
    else
      var (q1, d) := match ops[0]
        case InsertHeadOp(s, a) =>
          var u := InsertHead(q, s, a); (u.q, if u.ok then 1 else 0)
        case InsertTailOp(s, a) =>
          var u := InsertTail(q, s, a); (u.q, if u.ok then 1 else 0)
        case RemoveHeadOp =>
          var r := RemoveHead(q, false, 0); (r.q, if r.elem.Some? then -1 else 0)
        case RemoveTailOp =>
          var r := RemoveTail(q, false, 0); (r.q, if r.elem.Some? then -1 else 0);
      var (q2, e) := Run(q1, ops[1..]);
      (q2, d + e)
  }

  /** After any sequence of insertions and removals the size is the starting
      size plus the successful insertions minus the successful removals. */
  lemma {:induction false} SizeCountsOps(q: Queue, ops: seq<Op>)
    ensures Size(Run(q, ops).0) == Size(q) + Run(q, ops).1
    ensures q.Absent? ==> Run(q, ops).0.Absent?
    decreases |ops|
  {
    if ops != [] {
      match ops[0]
      case InsertHeadOp(s, a) =>
        SizeCountsOps(InsertHead(q, s, a).q, ops[1..]);
      case InsertTailOp(s, a) =>
        SizeCountsOps(InsertTail(q, s, a).q, ops[1..]);
      case RemoveHeadOp =>
        SizeCountsOps(RemoveHead(q, false, 0).q, ops[1..]);
      case RemoveTailOp =>
        SizeCountsOps(RemoveTail(q, false, 0).q, ops[1..]);
    }
  }

  /** Three insertions at the tail, then a sort. */
  lemma SortScenario()
    ensures Sort(Live(["banana", "apple", "cherry"])) == Live(["apple", "banana", "cherry"])
  {
    var s := ["banana", "apple", "cherry"];
    var t := ["apple", "banana", "cherry"];
    FruitSorted(t);
    assert multiset(s) == multiset(t);
    SortIs(s, t);
  }

  lemma FruitSorted(t: seq<string>)
    requires t == ["apple", "banana", "cherry"]
    ensures Sorting.Sorted(t)
  {
    assert Compare(t[0], t[1]) < 0 && Compare(t[1], t[2]) < 0;
    LessEqTransitive(t[0], t[1], t[2]);
  }

  /** Sorting a live queue gives the one sorted arrangement of its strings. */
  lemma SortIs(s: seq<string>, t: seq<string>)
    requires Sorting.Sorted(t) && multiset(s) == multiset(t)
    ensures Sort(Live(s)) == Live(t)
  {
    Sorting.MergeSortSorted(s);
    Sorting.SortedUnique(Sort(Live(s)).items, t);
  }

  /** "a", "a", "b": both copies of "a" go. */
  lemma DeleteDupScenario()
    ensures DeleteDup(Live(["a", "a", "b"])) == Update(true, Live(["b"]))
  {
    var s := ["a", "a", "b"];
    assert !Dedup.Keep(s, 0) && !Dedup.Keep(s, 1) && Dedup.Keep(s, 2);
  }

  /** Six elements: the third, "3", goes and five remain. */
  lemma DeleteMidScenario()
    ensures MidIndex(6) == 2
    ensures DeleteMid(Live(["1", "2", "3", "4", "5", "6"])) == Update(true, Live(["1", "2", "4", "5", "6"]))
  {
    var s := ["1", "2", "3", "4", "5", "6"];
    assert s[..2] == ["1", "2"] && s[3..] == ["4", "5", "6"];
    assert RemoveAt(s, 2) == ["1", "2", "4", "5", "6"];
  }

  /** Removing from an empty queue fails and leaves it empty. */
  lemma RemoveEmptyScenario(sp: bool, bufsize: nat)
    requires sp ==> bufsize >= 1
    ensures RemoveHead(New(true), sp, bufsize) == Removal(None, None, Live([]))
    ensures Size(RemoveHead(New(true), sp, bufsize).q) == 0
  {
  }
}
