/**
 * The idle-connection timer: a binary min-heap of timers ordered by absolute
 * expiry, stored densely in a sequence, with a side map from timer id to the
 * timer's index in that sequence.  Time is an integer count of milliseconds
 * passed in as `now`; a callback is an opaque token (the server uses the
 * connection's descriptor) and firing one is recorded in a ghost log.
 */
module HeapTimers {
  import opened Common

  datatype TimerNode = TimerNode(id: int, expires: int, cb: int)

  /** TimerNode::operator<: earlier expiry, ignoring id and callback. */
  predicate Less(a: TimerNode, b: TimerNode) {
    a.expires < b.expires
  }

  /** The order looks at expiry only: equal expiries are mutually not less. */
  lemma LessIsExpiryOrder(a: TimerNode, b: TimerNode)
    ensures Less(a, b) <==> a.expires < b.expires
    ensures a.expires == b.expires ==> !Less(a, b) && !Less(b, a)
    ensures Less(a, b) ==> !Less(b, a)
  {
  }

  function Parent(k: nat): nat
    requires k > 0
  {
    (k - 1) / 2
  }

  function Swap(h: seq<TimerNode>, i: nat, j: nat): (r: seq<TimerNode>)
    requires i < |h| && j < |h|
    ensures |r| == |h| && r[i] == h[j] && r[j] == h[i]
    ensures forall k :: 0 <= k < |h| && k != i && k != j ==> r[k] == h[k]
  {
    h[i := h[j]][j := h[i]]
  }

  /** Min-heap order on the first n slots: no child expires before its parent. */
  ghost predicate HeapOrdered(h: seq<TimerNode>, n: nat)
    requires n <= |h|
  {
    forall k :: 0 < k < n ==> h[Parent(k)].expires <= h[k].expires
  }

  /** Heap order on the first n slots except for the edges touching slot x,
      with x's children no earlier than x's parent: the shape sift-down repairs. */
  ghost predicate AlmostOrdered(h: seq<TimerNode>, n: nat, x: nat)
    requires n <= |h|
  {
    && (forall k :: 0 < k < n && k != x && Parent(k) != x ==> h[Parent(k)].expires <= h[k].expires)
    && (forall k :: 0 < k < n && x > 0 && Parent(k) == x ==> h[Parent(x)].expires <= h[k].expires)
  }

  /** Heap order on the first n slots except for the edge into slot x, with
      x's children no earlier than x's parent: the shape sift-up repairs. */
  ghost predicate UpOrdered(h: seq<TimerNode>, n: nat, x: nat)
    requires n <= |h|
  {
    && (forall k :: 0 < k < n && k != x ==> h[Parent(k)].expires <= h[k].expires)
    && (forall k :: 0 < k < n && x > 0 && Parent(k) == x ==> h[Parent(x)].expires <= h[k].expires)
  }

  /** The id map agrees with the sequence: every slot's id maps to that slot and
      every mapped id sits at its slot (so ids are distinct). */
  ghost predicate Indexed(h: seq<TimerNode>, r: map<int, nat>) {
    && (forall k :: 0 <= k < |h| ==> h[k].id in r && r[h[k].id] == k)
    && (forall id :: id in r ==> r[id] < |h| && h[r[id]].id == id)
  }

  /** The abstract content of the heap: each live id with its timer. */
  ghost function EntriesOf(h: seq<TimerNode>, r: map<int, nat>): map<int, TimerNode>
    requires Indexed(h, r)
  {
    map id | id in r :: h[r[id]]
  }

  /** In a heap-ordered prefix, the root expires no later than any slot. */
  lemma {:induction false} RootIsEarliest(h: seq<TimerNode>, n: nat, k: nat)
    requires n <= |h| && HeapOrdered(h, n) && k < n
    ensures h[0].expires <= h[k].expires
    decreases k
  {
    if k > 0 {
      RootIsEarliest(h, n, Parent(k));
    }
  }

  /** Swapping two slots and re-pointing both ids at their new slots keeps the
      id map consistent and the content unchanged. */
  lemma SwapKeepsIndex(h: seq<TimerNode>, r: map<int, nat>, i: nat, j: nat)
    requires Indexed(h, r) && i < |h| && j < |h|
    ensures Indexed(Swap(h, i, j), r[h[j].id := i][h[i].id := j])
    ensures EntriesOf(Swap(h, i, j), r[h[j].id := i][h[i].id := j]) == EntriesOf(h, r)
  {
    var h', r' := Swap(h, i, j), r[h[j].id := i][h[i].id := j];
    assert r'.Keys == r.Keys;
    forall id | id in r
      ensures r'[id] < |h'| && h'[r'[id]] == h[r[id]]
    {
      if id == h[i].id {
      } else if id == h[j].id {
      } else {
        assert r[id] != i && r[id] != j;
      }
    }
  }

  /** Appending a timer with a fresh id at the back, mapped to the new slot. */
  lemma AppendEntries(h: seq<TimerNode>, r: map<int, nat>, node: TimerNode)
    requires Indexed(h, r) && node.id !in r
    ensures Indexed(h + [node], r[node.id := |h|])
    ensures EntriesOf(h + [node], r[node.id := |h|]) == EntriesOf(h, r)[node.id := node]
  {
    var h', r' := h + [node], r[node.id := |h|];
    forall k | 0 <= k < |h'|
      ensures h'[k].id in r' && r'[h'[k].id] == k
    {
      if k < |h| {
        assert h[k].id in r;
      }
    }
    var m1, m2 := EntriesOf(h', r'), EntriesOf(h, r)[node.id := node];
    assert m1.Keys == m2.Keys;
    forall id | id in m1
      ensures m1[id] == m2[id]
    {
      if id != node.id {
        assert r'[id] == r[id];
      }
    }
  }

  /** Replacing the timer in a slot by one with the same id. */
  lemma ReplaceEntries(h: seq<TimerNode>, r: map<int, nat>, i: nat, node: TimerNode)
    requires Indexed(h, r) && i < |h| && node.id == h[i].id
    ensures Indexed(h[i := node], r)
    ensures EntriesOf(h[i := node], r) == EntriesOf(h, r)[node.id := node]
  {
    var m1, m2 := EntriesOf(h[i := node], r), EntriesOf(h, r)[node.id := node];
    assert m1.Keys == m2.Keys;
    forall id | id in m1
      ensures m1[id] == m2[id]
    {
      if id != node.id {
        assert r[id] != i;
      }
    }
  }

  /** Dropping the back slot together with its id. */
  lemma DropLastEntries(h: seq<TimerNode>, r: map<int, nat>)
    requires Indexed(h, r) && |h| > 0
    ensures Indexed(h[..|h| - 1], r - {h[|h| - 1].id})
    ensures EntriesOf(h[..|h| - 1], r - {h[|h| - 1].id}) == EntriesOf(h, r) - {h[|h| - 1].id}
  {
    var h', r' := h[..|h| - 1], r - {h[|h| - 1].id};
    forall id | id in r'
      ensures r'[id] < |h'| && h'[r'[id]].id == id
    {
      assert r[id] != |h| - 1;
    }
  }

  lemma PrefixKeepsOrder(h: seq<TimerNode>, n: nat)
    requires n <= |h| && HeapOrdered(h, n)
    ensures HeapOrdered(h[..n], n)
  {
  }

  /** One sift-down step: swapping x with its smaller child c, when c is not
      later than x, moves the hole to c and orders the edge into it. */
  lemma SiftDownStep(h: seq<TimerNode>, n: nat, x: nat, c: nat)
    requires n <= |h| && AlmostOrdered(h, n, x)
    requires 0 < c < n && Parent(c) == x && !Less(h[x], h[c])
    requires forall k :: 0 < k < n && Parent(k) == x ==> h[c].expires <= h[k].expires
    ensures AlmostOrdered(Swap(h, x, c), n, c)
    ensures Swap(h, x, c)[Parent(c)].expires <= Swap(h, x, c)[c].expires
  {
    var h' := Swap(h, x, c);
    forall k | 0 < k < n && k != c && Parent(k) != c
      ensures h'[Parent(k)].expires <= h'[k].expires
    {
      if k == x {
        assert h'[k] == h[c] && h'[Parent(k)] == h[Parent(x)];
      } else if Parent(k) == x {
        assert h'[Parent(k)] == h[c];
      }
    }
    forall k | 0 < k < n && c > 0 && Parent(k) == c
      ensures h'[Parent(c)].expires <= h'[k].expires
    {
      assert k != x && k != c;
    }
  }

  /** One sift-up step: swapping x with its later parent moves the hole up. */
  lemma SiftUpStep(h: seq<TimerNode>, n: nat, x: nat)
    requires n <= |h| && x < n && x > 0 && UpOrdered(h, n, x)
    requires Less(h[x], h[Parent(x)])
    ensures UpOrdered(Swap(h, x, Parent(x)), n, Parent(x))
  {
    var p := Parent(x);
    var h' := Swap(h, x, p);
    forall k | 0 < k < n && k != p
      ensures h'[Parent(k)].expires <= h'[k].expires
    {
      if k == x {
      } else if Parent(k) == x {
        assert h'[Parent(k)] == h[p];
      } else if Parent(k) == p {
        assert h'[Parent(k)] == h[x];
      }
    }
    forall k | 0 < k < n && p > 0 && Parent(k) == p
      ensures h'[Parent(p)].expires <= h'[k].expires
    {
      assert Parent(p) != x && Parent(p) != p;
      if k == x {
      } else {
        assert h[Parent(p)].expires <= h[p].expires;
      }
    }
  }

  /** Replacing one timer of an ordered heap leaves the shape sift-down repairs. */
  lemma ReplaceIsAlmostOrdered(h: seq<TimerNode>, x: nat, node: TimerNode)
    requires x < |h| && HeapOrdered(h, |h|)
    ensures AlmostOrdered(h[x := node], |h|, x)
  {
    var h' := h[x := node];
    forall k | 0 < k < |h| && x > 0 && Parent(k) == x
      ensures h'[Parent(x)].expires <= h'[k].expires
    {
      assert h[Parent(x)].expires <= h[x].expires;
    }
  }

  /** Moving the last timer into slot x of an ordered heap leaves the shape
      sift-down repairs on the remaining prefix. */
  lemma LastIntoSlotIsAlmostOrdered(h: seq<TimerNode>, x: nat)
    requires 0 < |h| && x < |h| - 1 && HeapOrdered(h, |h|)
    ensures AlmostOrdered(Swap(h, x, |h| - 1), |h| - 1, x)
  {
    var n := |h| - 1;
    var h' := Swap(h, x, n);
    forall k | 0 < k < n && k != x && Parent(k) != x
      ensures h'[Parent(k)].expires <= h'[k].expires
    {
      assert h'[k] == h[k] && h'[Parent(k)] == h[Parent(k)];
    }
    forall k | 0 < k < n && x > 0 && Parent(k) == x
      ensures h'[Parent(x)].expires <= h'[k].expires
    {
      assert h[Parent(x)].expires <= h[x].expires;
    }
  }

  /** An unmoved node whose parent is no later than it completes the order. */
  lemma UpOrderedWithParentEdge(h: seq<TimerNode>, n: nat, x: nat)
    requires n <= |h| && x < n && UpOrdered(h, n, x)
    requires x > 0 ==> h[Parent(x)].expires <= h[x].expires
    ensures HeapOrdered(h, n)
  {
  }

  /**
   * The timer heap.  `fired` logs every timer whose callback ran, in order.
   */
  class HeapTimer {
    var heap: seq<TimerNode>
    var ref: map<int, nat>
    ghost var fired: seq<TimerNode>

    ghost predicate Valid()
      reads this
    {
      Indexed(heap, ref)
    }

    ghost predicate Ordered()
      reads this
    {
      HeapOrdered(heap, |heap|)
    }

    ghost function Entries(): map<int, TimerNode>
      reads this
      requires Valid()
    {
      EntriesOf(heap, ref)
    }

    /** A new timer is empty (the source also reserves 64 slots). */
    constructor ()
      ensures Valid() && Ordered() && heap == [] && ref == map[] && fired == []
    {
      heap, ref, fired := [], map[], [];
    }

    /** Exchanges two slots and points both ids at their new slots (the
        intended behaviour; see SwapNodeAsWritten for the source's). */
    method SwapNode(i: nat, j: nat)
      requires Valid() && i < |heap| && j < |heap|
      modifies this
      ensures Valid() && fired == old(fired)
      ensures heap == Swap(old(heap), i, j)
      ensures ref[heap[i].id] == i && ref[heap[j].id] == j
      ensures Entries() == old(Entries())
    {
      SwapKeepsIndex(heap, ref, i, j);
      heap := Swap(heap, i, j);
      ref := ref[heap[i].id := i];
      ref := ref[heap[j].id := j];
    }

    /** Moves slot index down among the first n slots, toward the earlier
        child, until its children are strictly later; reports whether it moved. */
    method Siftdown(index: nat, n: nat) returns (moved: bool)
      requires Valid() && index < |heap| && n <= |heap|
      modifies this
      ensures Valid() && fired == old(fired) && Entries() == old(Entries())
      ensures heap == SiftDownSeq(old(heap), index, n)
      ensures |heap| == old(|heap|) && heap[n..] == old(heap[n..])
      ensures moved <==> MovesDown(old(heap), index, n)
      ensures AlmostOrdered(old(heap), n, index) ==>
                (moved ==> HeapOrdered(heap, n)) && (!moved ==> heap == old(heap) && UpOrdered(heap, n, index))
    {
      ghost var h0 := heap;
      moved := SiftdownSwaps(index, n);
      if AlmostOrdered(h0, n, index) {
        SiftDownOutcome(h0, n, index);
      }
    }

    /** Siftdown's loop: the swaps, as SiftDownSeq describes them. */
    method SiftdownSwaps(index: nat, n: nat) returns (moved: bool)
      requires Valid() && index < |heap| && n <= |heap|
      modifies this
      ensures Valid() && fired == old(fired) && Entries() == old(Entries())
      ensures heap == SiftDownSeq(old(heap), index, n)
      ensures moved <==> MovesDown(old(heap), index, n)
    {
      var i := index;
      var j := index * 2 + 1;
      ghost var h0 := heap;
      while j < n
        invariant Valid() && fired == old(fired) && Entries() == old(Entries())
        invariant |heap| == |h0| && index <= i < |heap| && j == 2 * i + 1
        invariant SiftDownSeq(heap, i, n) == SiftDownSeq(h0, index, n)
        invariant i == index ==> heap == h0
        invariant i > index ==> MovesDown(h0, index, n)
        decreases n - i
      {
        ghost var hv := heap;
        if j + 1 < n && Less(heap[j + 1], heap[j]) {
          j := j + 1;
        }
        assert j == SmallerChild(hv, i, n);
        if Less(heap[i], heap[j]) {
          assert !MovesDown(hv, i, n);
          break;
        }
        assert MovesDown(hv, i, n);
        SwapNode(i, j);
        assert SiftDownSeq(hv, i, n) == SiftDownSeq(heap, j, n);
        i := j;
        j := i * 2 + 1;
      }
      assert SiftDownSeq(heap, i, n) == heap;
      moved := i > index;
    }

    /** Sifts slot i down and, when it did not move, up: the repair both
        Del and Add apply to a slot whose timer changed. */
    method Resettle(i: nat, n: nat)
      requires Valid() && i < n <= |heap|
      modifies this
      ensures Valid() && fired == old(fired) && Entries() == old(Entries())
      ensures |heap| == old(|heap|) && heap[n..] == old(heap[n..])
      ensures AlmostOrdered(old(heap), n, i) ==> HeapOrdered(heap, n)
    {
      var moved := Siftdown(i, n);
      if !moved {
        Siftup(i, n);
      }
    }

    /** Moves slot i0 up while it expires strictly before its parent: the
        min-heap sift-up the source intends (see SiftupAsWritten). */
    method Siftup(i0: nat, ghost n: nat)
      requires Valid() && i0 < n <= |heap|
      modifies this
      ensures Valid() && fired == old(fired) && Entries() == old(Entries())
      ensures |heap| == old(|heap|) && heap[n..] == old(heap[n..])
      ensures UpOrdered(old(heap), n, i0) ==> HeapOrdered(heap, n)
    {
      var i: nat := i0;
      ghost var h0 := heap;
      while i > 0 && Less(heap[i], heap[Parent(i)])
        invariant Valid() && fired == old(fired) && Entries() == old(Entries())
        invariant |heap| == |h0| && heap[n..] == h0[n..]
        invariant i < n
        invariant UpOrdered(h0, n, i0) ==> UpOrdered(heap, n, i)
        decreases i
      {
        if UpOrdered(h0, n, i0) {
          SiftUpStep(heap, n, i);
        }
        SwapNode(i, Parent(i));
        i := Parent(i);
      }
    }

    /** Removes the timer in slot i: it moves to the back, the timer that
        took its place is resettled, and the back is dropped. */
    method Del(i: nat)
      requires Valid() && i < |heap|
      modifies this
      ensures Valid() && fired == old(fired)
      ensures |heap| == old(|heap|) - 1
      ensures Entries() == old(Entries()) - {old(heap[i].id)}
      ensures old(Ordered()) ==> Ordered()
    {
      if i < |heap| - 1 {
        MoveToBack(i);
      }
      DropBack();
    }

    /** Del's first half: swaps slot i with the back and resettles the
        timer that took slot i, so the front stays ordered. */
    method MoveToBack(i: nat)
      requires Valid() && i < |heap| - 1
      modifies this
      ensures Valid() && fired == old(fired) && Entries() == old(Entries())
      ensures |heap| == old(|heap|) && heap[|heap| - 1] == old(heap[i])
      ensures old(Ordered()) ==> HeapOrdered(heap, |heap| - 1)
    {
      var n := |heap| - 1;
      if Ordered() {
        LastIntoSlotIsAlmostOrdered(heap, i);
      }
      SwapNode(i, n);
      Resettle(i, n);
      assert heap[n..][0] == heap[n];
    }

    /** Del's second half: drops the back slot and its id. */
    method DropBack()
      requires Valid() && |heap| > 0
      modifies this
      ensures Valid() && fired == old(fired)
      ensures heap == old(heap[..|heap| - 1])
      ensures Entries() == old(Entries()) - {old(heap[|heap| - 1].id)}
      ensures HeapOrdered(old(heap), old(|heap|) - 1) ==> Ordered()
    {
      var n := |heap| - 1;
      if HeapOrdered(heap, n) {
        PrefixKeepsOrder(heap, n);
      }
      DropLastEntries(heap, ref);
      ref := ref - {heap[n].id};
      heap := heap[..n];
    }

    /** Arms timer id to expire timeout ms after now with callback cb: a new
        id is appended and sifted up, a known one is replaced in place. */
    method Add(id: int, timeout: int, cb: int, now: int)
      requires Valid() && id >= 0
      modifies this
      ensures Valid() && fired == old(fired)
      ensures Entries() == old(Entries())[id := TimerNode(id, now + timeout, cb)]
      ensures id !in old(ref) ==> |heap| == old(|heap|) + 1
      ensures id in old(ref) ==> |heap| == old(|heap|)
      ensures old(Ordered()) ==> Ordered()
    {
      var node := TimerNode(id, now + timeout, cb);
      if id !in ref {
        var i := |heap|;
        AppendEntries(heap, ref, node);
        ref := ref[id := i];
        heap := heap + [node];
        Siftup(i, |heap|);
      } else {
        var i := ref[id];
        if Ordered() {
          ReplaceIsAlmostOrdered(heap, i, node);
        }
        ReplaceEntries(heap, ref, i, node);
        heap := heap[i := node];
        Resettle(i, |heap|);
      }
    }

    /** Moves timer id's expiry to timeout ms after now and only sifts it
        down, so heap order survives exactly when the expiry does not move
        earlier. */
    method Adjust(id: int, timeout: int, now: int)
      requires Valid() && |heap| > 0 && id in ref
      modifies this
      ensures Valid() && fired == old(fired) && |heap| == old(|heap|)
      ensures Entries() == old(Entries())[id := old(Entries())[id].(expires := now + timeout)]
      ensures old(Ordered()) && now + timeout >= old(Entries())[id].expires ==> Ordered()
    {
      var i := ref[id];
      var node := heap[i].(expires := now + timeout);
      ghost var ordered := Ordered() && now + timeout >= heap[i].expires;
      if ordered {
        ReplaceIsAlmostOrdered(heap, i, node);
      }
      ReplaceEntries(heap, ref, i, node);
      heap := heap[i := node];
      var moved := Siftdown(ref[id], |heap|);
      if ordered && !moved {
        UpOrderedWithParentEdge(heap, |heap|, i);
      }
    }

    /** Drops every timer. */
    method Clear()
      requires Valid()
      modifies this
      ensures Valid() && Ordered() && fired == old(fired)
      ensures heap == [] && ref == map[] && Entries() == map[]
    {
      ref := map[];
      heap := [];
    }

    /** Fires and removes timer id; an unknown id is ignored. */
    method DoWork(id: int)
      requires Valid()
      modifies this
      ensures Valid()
      ensures id !in old(ref) ==> heap == old(heap) && ref == old(ref) && fired == old(fired)
      ensures id in old(ref) ==> fired == old(fired) + [old(Entries())[id]]
      ensures id in old(ref) ==> Entries() == old(Entries()) - {id} && |heap| == old(|heap|) - 1
      ensures old(Ordered()) ==> Ordered()
    {
      if |heap| == 0 || id !in ref {
        return;
      }
      var i := ref[id];
      var node := heap[i];
      fired := fired + [node];
      Del(i);
    }

    /** Removes the root, which in an ordered heap is an earliest timer. */
    method Pop()
      requires Valid() && |heap| > 0
      modifies this
      ensures Valid() && fired == old(fired)
      ensures Entries() == old(Entries()) - {old(heap[0].id)} && |heap| == old(|heap|) - 1
      ensures old(Ordered()) ==> Ordered()
      ensures old(Ordered()) ==> forall id :: id in old(Entries()) ==> old(heap[0]).expires <= old(Entries())[id].expires
    {
      if Ordered() {
        forall id | id in Entries()
          ensures heap[0].expires <= Entries()[id].expires
        {
          RootIsEarliest(heap, |heap|, ref[id]);
        }
      }
      Del(0);
    }

    /** Fires and pops root timers until the root is still in the future. */
    method Tick(now: int)
      requires Valid()
      modifies this
      ensures Valid() && (old(Ordered()) ==> Ordered())
      ensures |heap| == 0 || heap[0].expires - now > 0
      ensures |fired| >= |old(fired)| && fired[..|old(fired)|] == old(fired)
      ensures forall k :: |old(fired)| <= k < |fired| ==>
                fired[k].expires <= now && fired[k].id in old(Entries()) && old(Entries())[fired[k].id] == fired[k]
      ensures forall id :: id in Entries() ==> id in old(Entries()) && Entries()[id] == old(Entries())[id]
      ensures old(Entries()).Keys == Entries().Keys + FiredIds(fired, |old(fired)|)
      ensures old(Ordered()) ==>
                forall id :: id in old(Entries()) ==> (id in Entries() <==> old(Entries())[id].expires > now)
    {
      ghost var e0 := Entries();
      ghost var f0 := fired;
      ghost var ordered := Ordered();
      while |heap| > 0
        invariant Valid() && (ordered ==> Ordered())
        invariant |fired| >= |f0| && fired[..|f0|] == f0
        invariant FiredFrom(e0, Entries(), fired, |f0|, now)
        decreases |heap|
      {
        var node := heap[0];
        if node.expires - now > 0 {
          break;
        }
        ghost var e, log := Entries(), fired;
        assert node == e[node.id];
        fired := fired + [node];
        Pop();
        FireKeepsLog(e0, e, Entries(), log, |f0|, node, now);
      }
      if ordered {
        TickOutcome(heap, ref, e0, fired, |f0|, now);
      }
    }

    /** Fires due timers, then gives the milliseconds until the next expiry,
        -1 when there is none.  The source computes this in a size_t and
        returns it as an int. */
    method GetNextTick(now: int) returns (r: int)
      requires Valid()
      modifies this
      ensures Valid() && (old(Ordered()) ==> Ordered())
      ensures |heap| == 0 ==> r == -1
      ensures |heap| > 0 ==> heap[0].expires > now
      ensures |heap| > 0 && heap[0].expires - now < 0x8000_0000 ==> r == heap[0].expires - now
      ensures old(Ordered()) ==> forall id :: id in Entries() ==> Entries()[id].expires > now
    {
      ghost var e0 := Entries();
      Tick(now);
      var res: int := SizeT(-1);
      if |heap| > 0 {
        res := SizeT(heap[0].expires - now);
        // The source clamps `res < 0` to 0 here; res is unsigned, so that branch never runs.
        if res < 0 {
          res := 0;
        }
      }
      r := Int32(res);
    }
  }

  /** Tick's account of the timers it fired: the log from `from` on holds
      due timers of e0, the armed ones e keep their e0 timers, and together
      they are e0's ids. */
  ghost predicate FiredFrom(e0: map<int, TimerNode>, e: map<int, TimerNode>, log: seq<TimerNode>, from: nat, now: int)
  {
    && from <= |log|
    && (forall k :: from <= k < |log| ==> log[k].expires <= now && log[k].id in e0 && e0[log[k].id] == log[k])
    && (forall id :: id in e ==> id in e0 && e[id] == e0[id])
    && e0.Keys == e.Keys + FiredIds(log, from)
  }

  /** Firing a due armed timer and disarming it keeps the account. */
  lemma FireKeepsLog(e0: map<int, TimerNode>, e: map<int, TimerNode>, e': map<int, TimerNode>,
                     log: seq<TimerNode>, from: nat, node: TimerNode, now: int)
    requires FiredFrom(e0, e, log, from, now)
    requires node.id in e && e[node.id] == node && node.expires <= now && e' == e - {node.id}
    ensures FiredFrom(e0, e', log + [node], from, now)
  {
    FiredIdsAppend(log, from, node);
    var log' := log + [node];
    forall k | from <= k < |log'|
      ensures log'[k].expires <= now && log'[k].id in e0 && e0[log'[k].id] == log'[k]
    {
      if k < |log| {
        assert log'[k] == log[k];
      }
    }
  }

  /** After Tick's loop on an ordered heap, a timer is still armed exactly
      when it expires after now. */
  lemma TickOutcome(h: seq<TimerNode>, r: map<int, nat>, e0: map<int, TimerNode>,
                    log: seq<TimerNode>, from: nat, now: int)
    requires Indexed(h, r) && HeapOrdered(h, |h|) && (|h| == 0 || h[0].expires - now > 0)
    requires FiredFrom(e0, EntriesOf(h, r), log, from, now)
    ensures forall id :: id in e0 ==> (id in EntriesOf(h, r) <==> e0[id].expires > now)
  {
    forall id | id in e0
      ensures id in EntriesOf(h, r) <==> e0[id].expires > now
    {
      if id in EntriesOf(h, r) {
        RootIsEarliest(h, |h|, r[id]);
      } else {
        assert id in FiredIds(log, from);
        var k :| from <= k < |log| && log[k].id == id;
      }
    }
  }

  /** The ids of the log entries from position `from` on. */
  ghost function FiredIds(log: seq<TimerNode>, from: nat): set<int> {
    set k | from <= k < |log| :: log[k].id
  }

  lemma FiredIdsAppend(log: seq<TimerNode>, from: nat, node: TimerNode)
    requires from <= |log|
    ensures FiredIds(log + [node], from) == FiredIds(log, from) + {node.id}
  {
    var l' := log + [node];
    forall x | x in FiredIds(l', from)
      ensures x in FiredIds(log, from) + {node.id}
    {
      var k :| from <= k < |l'| && l'[k].id == x;
      if k < |log| {
        assert log[k].id == x;
      }
    }
    forall x | x in FiredIds(log, from) + {node.id}
      ensures x in FiredIds(l', from)
    {
      if x == node.id {
        assert l'[|log|].id == x;
      } else {
        var k :| from <= k < |log| && log[k].id == x;
        assert l'[k].id == x;
      }
    }
  }

  /** The empty-heap answer: size_t(-1) read back as int is -1. */
  lemma NoDeadlineIsMinusOne()
    ensures Int32(SizeT(-1)) == -1
  {
  }

  // ---------------------------------------------------------------------
  // The source's SwapNode and Siftup, as written.

  /** SwapNode as the source writes it: after the swap it sets the id now in
      slot i to j and the id now in slot j to i, so both ids keep their old
      slots. */
  function SwapNodeAsWritten(h: seq<TimerNode>, r: map<int, nat>, i: nat, j: nat): (res: (seq<TimerNode>, map<int, nat>))
    requires i < |h| && j < |h|
  {
    var h' := Swap(h, i, j);
    (h', r[h'[i].id := j][h'[j].id := i])
  }

  /** Whenever the two slots differ, the source's SwapNode leaves the id map
      pointing at the wrong slots. */
  lemma SwapNodeAsWrittenBreaksIndex(h: seq<TimerNode>, r: map<int, nat>, i: nat, j: nat)
    requires Indexed(h, r) && i < |h| && j < |h| && i != j
    ensures var (h', r') := SwapNodeAsWritten(h, r, i, j);
      r'[h'[i].id] == j && r'[h'[j].id] == i && !Indexed(h', r')
  {
    var (h', r') := SwapNodeAsWritten(h, r, i, j);
    assert h'[i].id != h'[j].id by {
      assert r[h[i].id] == i && r[h[j].id] == j;
    }
    assert r'[h'[i].id] == j;
  }

  /** (i - 1) / 2 computed in size_t, as the source's Siftup does. */
  function ParentAsWritten(i: nat): nat {
    SizeT(i - 1) / 2
  }

  datatype SiftupOutcome =
    | Finished(heap: seq<TimerNode>)
    | OutOfRange(heap: seq<TimerNode>, index: nat)

  /**
   * Siftup as the source writes it: the loop test `j >= 0` on a size_t, a
   * swap when the PARENT is the smaller, no break, and `j = (i - 1) / 2`
   * wrapping to 2^63 - 1 once i reaches 0.  OutOfRange is the state in which
   * m_heap[j] is read past the end (undefined behaviour in the source).
   * A vector of timers never has 2^63 - 1 elements.
   */
  function SiftupAsWritten(h: seq<TimerNode>, i: nat): (o: SiftupOutcome)
    requires i < |h| < 0x7FFF_FFFF_FFFF_FFFF
    decreases i
  {
    var j := ParentAsWritten(i);
    if !(j >= 0) then Finished(h)
    else if j >= |h| then OutOfRange(h, j)
    else
      var h' := if Less(h[j], h[i]) then Swap(h, i, j) else h;
      SiftupAsWritten(h', j)
  }

  /** The source's Siftup never finishes: from any slot it walks to the root
      and then reads slot 2^63 - 1. */
  lemma {:induction false} SiftupAsWrittenAlwaysFaults(h: seq<TimerNode>, i: nat)
    requires i < |h| < 0x7FFF_FFFF_FFFF_FFFF
    ensures SiftupAsWritten(h, i).OutOfRange?
    ensures SiftupAsWritten(h, i).index == 0x7FFF_FFFF_FFFF_FFFF
    ensures |SiftupAsWritten(h, i).heap| == |h|
    decreases i
  {
    var j := ParentAsWritten(i);
    if i == 0 {
      assert j == 0x7FFF_FFFF_FFFF_FFFF;
    } else {
      assert j == (i - 1) / 2;
      var h' := if Less(h[j], h[i]) then Swap(h, i, j) else h;
      SiftupAsWrittenAlwaysFaults(h', j);
    }
  }

  /** The first Add into an empty timer appends one node and faults at once. */
  lemma FirstAddFaults(node: TimerNode)
    ensures SiftupAsWritten([node], 0) == OutOfRange([node], 0x7FFF_FFFF_FFFF_FFFF)
  {
  }

  /** The source's Siftup swaps an ordered pair into disorder before it faults:
      a parent expiring at 1 and a child at 2 come out reversed. */
  lemma SiftupAsWrittenBreaksOrder()
    ensures var h := [TimerNode(1, 1, 1), TimerNode(2, 2, 2)];
      HeapOrdered(h, 2) && !HeapOrdered(SiftupAsWritten(h, 1).heap, 2)
  {
    var h := [TimerNode(1, 1, 1), TimerNode(2, 2, 2)];
    assert ParentAsWritten(1) == 0;
    var h' := Swap(h, 1, 0);
    assert SiftupAsWritten(h, 1) == SiftupAsWritten(h', 0);
    assert ParentAsWritten(0) == 0x7FFF_FFFF_FFFF_FFFF;
    assert SiftupAsWritten(h', 0) == OutOfRange(h', 0x7FFF_FFFF_FFFF_FFFF);
    assert h'[Parent(1)].expires > h'[1].expires;
  }

  /** Whether sift-down from slot i among the first n slots swaps at least once. */
  predicate MovesDown(h: seq<TimerNode>, i: nat, n: nat)
    requires n <= |h| && i < |h|
  {
    2 * i + 1 < n && !Less(h[i], h[SmallerChild(h, i, n)])
  }

  /** The sequence sift-down leaves: swap with the earlier child while that
      child does not expire strictly after the moving timer. */
  function SiftDownSeq(h: seq<TimerNode>, i: nat, n: nat): (r: seq<TimerNode>)
    requires n <= |h| && i < |h|
    ensures |r| == |h| && r[n..] == h[n..]
    decreases n - i
  {
    if MovesDown(h, i, n) then
      var c := SmallerChild(h, i, n);
      SiftDownSeq(Swap(h, i, c), c, n)
    else h
  }

  /** Sift-down from a slot whose incoming edge is already in order completes
      the heap order. */
  lemma {:induction false} SiftDownSeqOrders(h: seq<TimerNode>, n: nat, i: nat)
    requires n <= |h| && i < |h| && AlmostOrdered(h, n, i)
    requires 0 < i < n ==> h[Parent(i)].expires <= h[i].expires
    ensures HeapOrdered(SiftDownSeq(h, i, n), n)
    decreases n - i
  {
    if MovesDown(h, i, n) {
      var c := SmallerChild(h, i, n);
      SmallerChildIsEarliest(h, i, n);
      SiftDownStep(h, n, i, c);
      SiftDownSeqOrders(Swap(h, i, c), n, c);
    } else {
      forall k | 0 < k < n
        ensures h[Parent(k)].expires <= h[k].expires
      {
        if Parent(k) == i {
          SmallerChildIsEarliest(h, i, n);
        }
      }
    }
  }

  /** What one call of sift-down achieves: a full heap order when it moved,
      the sift-up shape at the untouched slot when it did not. */
  lemma SiftDownOutcome(h: seq<TimerNode>, n: nat, i: nat)
    requires n <= |h| && i < |h| && AlmostOrdered(h, n, i)
    ensures MovesDown(h, i, n) ==> HeapOrdered(SiftDownSeq(h, i, n), n)
    ensures !MovesDown(h, i, n) ==> SiftDownSeq(h, i, n) == h && UpOrdered(h, n, i)
  {
    if MovesDown(h, i, n) {
      var c := SmallerChild(h, i, n);
      SmallerChildIsEarliest(h, i, n);
      SiftDownStep(h, n, i, c);
      SiftDownSeqOrders(Swap(h, i, c), n, c);
    } else {
      forall k | 0 < k < n && k != i
        ensures h[Parent(k)].expires <= h[k].expires
      {
        if Parent(k) == i {
          SmallerChildIsEarliest(h, i, n);
        }
      }
    }
  }

  /** The smaller child of slot i among the first n slots (left on ties). */
  function SmallerChild(h: seq<TimerNode>, i: nat, n: nat): (c: nat)
    requires n <= |h|
    ensures 2 * i + 1 < n ==> 0 < c < n && Parent(c) == i
  {
    if 2 * i + 1 < n then
      if 2 * i + 2 < n && Less(h[2 * i + 2], h[2 * i + 1]) then 2 * i + 2 else 2 * i + 1
    else 2 * i + 1
  }

  /** The smaller child expires no later than either child. */
  lemma SmallerChildIsEarliest(h: seq<TimerNode>, i: nat, n: nat)
    requires n <= |h| && 2 * i + 1 < n
    ensures forall k :: 0 < k < n && Parent(k) == i ==> h[SmallerChild(h, i, n)].expires <= h[k].expires
  {
  }
}
