/** The urgency queue: Python's `heapq` min-heap over the tuples
    `(-urgency, id, req)`. The tuple is determined by the request, so each
    entry is the request itself and the tuple order is `Before`: higher
    urgency first, equal urgencies by string order of the id. `push_heap` and
    `pop_heap` receive the list and change it in place; here they take the list
    and return its new value. */
module UrgencyHeap {
  import opened Wrappers
  import opened Models
  import opened Text

  /** `(-a.urgency, a.id) < (-b.urgency, b.id)`: `a` is served strictly before `b`. */
  predicate Before(a: FundingRequest, b: FundingRequest)
    ensures Before(a, b) ==> a.urgency >= b.urgency
    ensures Before(a, b) && a.urgency == b.urgency ==> a.id != b.id && !StrLess(b.id, a.id)
  {
    if a.urgency == b.urgency && StrLess(a.id, b.id) then
      StrLessAsymmetric(a.id, b.id);
      StrLessIrreflexive(a.id);
      true
    else a.urgency > b.urgency
  }

  /** `a` is served no later than `b`: higher urgency, or equal urgency and an
      id that is not greater. */
  predicate AtOrBefore(a: FundingRequest, b: FundingRequest) {
    !Before(b, a)
  }

  lemma BeforeIsAtOrBefore(a: FundingRequest, b: FundingRequest)
    requires Before(a, b)
    ensures AtOrBefore(a, b)
  {
    if a.urgency == b.urgency {
      StrLessAsymmetric(a.id, b.id);
    }
  }

  lemma AtOrBeforeTransitive(a: FundingRequest, b: FundingRequest, c: FundingRequest)
    requires AtOrBefore(a, b) && AtOrBefore(b, c)
    ensures AtOrBefore(a, c)
  {
    if a.urgency == c.urgency && StrLess(c.id, a.id) {
      StrLessTotal(a.id, b.id);
      if StrLess(a.id, b.id) {
        StrLessTransitive(c.id, a.id, b.id);
      }
    }
  }

  /** Entry `i` is not served before its parent. */
  predicate ParentFirst(h: seq<FundingRequest>, i: int)
    requires 0 < i < |h|
  {
    AtOrBefore(h[(i - 1) / 2], h[i])
  }

  /** The heap invariant of `heapq`: no entry is served before its parent. */
  predicate IsHeap(h: seq<FundingRequest>) {
    forall i :: 0 < i < |h| ==> ParentFirst(h, i)
  }

  /** The first entry of a heap is served no later than any other. */
  lemma {:induction false} HeapRootFirst(h: seq<FundingRequest>, i: int)
    requires IsHeap(h) && 0 <= i < |h|
    ensures AtOrBefore(h[0], h[i])
    decreases i
  {
    if i == 0 {
      StrLessIrreflexive(h[0].id);
    } else {
      var p := (i - 1) / 2;
      assert ParentFirst(h, i);
      HeapRootFirst(h, p);
      AtOrBeforeTransitive(h[0], h[p], h[i]);
    }
  }

  /** Heap order except across the edge from `pos` to its parent; and the
      parent of `pos` is no later than the children of `pos`. */
  predicate HeapBelowHole(h: seq<FundingRequest>, pos: int) {
    && 0 <= pos < |h|
    && (forall i :: 0 < i < |h| && i != pos ==> ParentFirst(h, i))
    && (forall c :: 0 < pos && 0 < c < |h| && (c - 1) / 2 == pos ==> AtOrBefore(h[(pos - 1) / 2], h[c]))
  }

  /** One step of `heapq._siftdown`: the entry at `pos` moves above its parent. */
  lemma SiftUpStep(h: seq<FundingRequest>, pos: int)
    requires HeapBelowHole(h, pos) && pos > 0
    requires Before(h[pos], h[(pos - 1) / 2])
    ensures HeapBelowHole(h[pos := h[(pos - 1) / 2]][(pos - 1) / 2 := h[pos]], (pos - 1) / 2)
  {
    var p := (pos - 1) / 2;
    var x, y := h[pos], h[p];
    var h2 := h[pos := y][p := x];
    BeforeIsAtOrBefore(x, y);
    forall i | 0 < i < |h2| && i != p
      ensures ParentFirst(h2, i)
    {
      var q := (i - 1) / 2;
      if i == pos {
      } else if q == pos {
        assert h2[i] == h[i];
      } else if q == p {
        assert ParentFirst(h, i);
        AtOrBeforeTransitive(x, y, h[i]);
      } else {
        assert ParentFirst(h, i);
        assert h2[q] == h[q] && h2[i] == h[i];
      }
    }
    if p > 0 {
      var g := (p - 1) / 2;
      forall c | 0 < c < |h2| && (c - 1) / 2 == p
        ensures AtOrBefore(h2[g], h2[c])
      {
        assert ParentFirst(h, p);
        assert AtOrBefore(h[g], y);
        if c != pos {
          assert ParentFirst(h, c);
          AtOrBeforeTransitive(h[g], y, h[c]);
        }
      }
    }
  }

  /** `push_heap`: `heapq.heappush` appends the entry and moves it up past
      every parent it is served before. */
  method PushHeap(h: seq<FundingRequest>, req: FundingRequest) returns (h': seq<FundingRequest>)
    requires IsHeap(h)
    ensures IsHeap(h')
    ensures multiset(h') == multiset(h) + multiset{req}
  {
    h' := h + [req];
    var pos := |h|;
    forall i | 0 < i < |h'| && i != pos ensures ParentFirst(h', i) {
      assert ParentFirst(h, i);
    }
    while pos > 0 && Before(h'[pos], h'[(pos - 1) / 2])
      invariant HeapBelowHole(h', pos)
      invariant multiset(h') == multiset(h) + multiset{req}
    {
      var parent := (pos - 1) / 2;
      SiftUpStep(h', pos);
      h' := h'[pos := h'[parent]][parent := h'[pos]];
      pos := parent;
    }
  }

  /** The child of `pos` that is served first. */
  function FirstChild(h: seq<FundingRequest>, pos: nat): (c: nat)
    requires 2 * pos + 1 < |h|
    ensures c == 2 * pos + 1 || c == 2 * pos + 2
    ensures c < |h| && (c - 1) / 2 == pos
    ensures forall d :: 0 < d < |h| && (d - 1) / 2 == pos ==> AtOrBefore(h[c], h[d])
  {
    var l, r := 2 * pos + 1, 2 * pos + 2;
    StrLessIrreflexive(h[l].id);
    if r < |h| then
      StrLessIrreflexive(h[r].id);
      if Before(h[r], h[l]) then BeforeIsAtOrBefore(h[r], h[l]); r else l
    else l
  }

  /** Heap order except across the edges from `pos` to its children; and the
      parent of `pos` is no later than the children of `pos`. */
  predicate HeapAboveHole(h: seq<FundingRequest>, pos: int) {
    && 0 <= pos < |h|
    && (forall i :: 0 < i < |h| && (i - 1) / 2 != pos ==> ParentFirst(h, i))
    && (forall c :: 0 < pos && 0 < c < |h| && (c - 1) / 2 == pos ==> AtOrBefore(h[(pos - 1) / 2], h[c]))
  }

  /** One step of the top-down sift-down: the entry at `pos` moves below its first child. */
  lemma SiftDownStep(h: seq<FundingRequest>, pos: nat)
    requires HeapAboveHole(h, pos) && 2 * pos + 1 < |h|
    requires Before(h[FirstChild(h, pos)], h[pos])
    ensures HeapAboveHole(h[pos := h[FirstChild(h, pos)]][FirstChild(h, pos) := h[pos]], FirstChild(h, pos))
  {
    var c := FirstChild(h, pos);
    var x, m := h[pos], h[c];
    var h2 := h[pos := m][c := x];
    BeforeIsAtOrBefore(m, x);
    forall i | 0 < i < |h2| && (i - 1) / 2 != c
      ensures ParentFirst(h2, i)
    {
      var q := (i - 1) / 2;
      if i == c {
      } else if q == pos {
        assert h2[i] == h[i];
      } else if i == pos {
        assert h2[q] == h[q];
      } else {
        assert ParentFirst(h, i);
        assert h2[q] == h[q] && h2[i] == h[i];
      }
    }
    forall d | 0 < d < |h2| && (d - 1) / 2 == c
      ensures AtOrBefore(h2[(c - 1) / 2], h2[d])
    {
      assert ParentFirst(h, d);
      assert h2[d] == h[d];
    }
  }

  /** The first entry of a heap has the highest urgency, and among the
      entries of that urgency the smallest id in string order. */
  lemma HeapRootBest(h: seq<FundingRequest>)
    requires IsHeap(h) && h != []
    ensures forall y :: y in h ==> h[0].urgency >= y.urgency
    ensures forall y :: y in h && y.urgency == h[0].urgency ==> !StrLess(y.id, h[0].id)
  {
    forall y | y in h ensures AtOrBefore(h[0], y) {
      var i :| 0 <= i < |h| && h[i] == y;
      HeapRootFirst(h, i);
    }
  }

  /** A hole whose entry is served no later than its first child closes:
      the sequence is a heap again. */
  lemma HoleSettled(h: seq<FundingRequest>, pos: nat)
    requires HeapAboveHole(h, pos)
    requires 2 * pos + 1 < |h| ==> !Before(h[FirstChild(h, pos)], h[pos])
    ensures IsHeap(h)
  {
    if 2 * pos + 1 < |h| {
      var c := FirstChild(h, pos);
      forall d | 0 < d < |h| && (d - 1) / 2 == pos ensures AtOrBefore(h[pos], h[d]) {
        AtOrBeforeTransitive(h[pos], h[c], h[d]);
      }
    }
    forall i | 0 < i < |h| ensures ParentFirst(h, i) {
    }
  }

  /** The classic top-down sift-down from `pos`, standing in for
      `heapq._siftup`'s sift to a leaf: the entry at the hole moves down past
      every child served before it, until the sequence is a heap again. */
  method SiftDown(a: seq<FundingRequest>, start: nat) returns (a': seq<FundingRequest>)
    requires HeapAboveHole(a, start)
    ensures IsHeap(a') && multiset(a') == multiset(a)
  {
    a' := a;
    var pos := start;
    while 2 * pos + 1 < |a'| && Before(a'[FirstChild(a', pos)], a'[pos])
      invariant HeapAboveHole(a', pos)
      invariant multiset(a') == multiset(a)
    {
      var c := FirstChild(a', pos);
      SiftDownStep(a', pos);
      a' := a'[pos := a'[c]][c := a'[pos]];
      pos := c;
    }
    HoleSettled(a', pos);
  }

  /** With the first entry taken, the last entry moved to the front leaves
      a hole at the root and the other entries. */
  lemma LastToFront(h: seq<FundingRequest>)
    requires IsHeap(h) && |h| >= 2
    ensures HeapAboveHole([h[|h| - 1]] + h[1..|h| - 1], 0)
    ensures multiset([h[|h| - 1]] + h[1..|h| - 1]) + multiset{h[0]} == multiset(h)
  {
    var h' := [h[|h| - 1]] + h[1..|h| - 1];
    assert h == [h[0]] + h[1..|h| - 1] + [h[|h| - 1]];
    forall i | 0 < i < |h'| && (i - 1) / 2 != 0 ensures ParentFirst(h', i) {
      assert ParentFirst(h, i);
    }
  }

  /** The body of `heapq.heappop` after the first entry is taken: the last
      entry moves to the front and is sifted down. */
  method RemoveFirst(h: seq<FundingRequest>) returns (h': seq<FundingRequest>)
    requires IsHeap(h) && h != []
    ensures IsHeap(h')
    ensures multiset(h') + multiset{h[0]} == multiset(h)
  {
    if |h| == 1 {
      assert h == [h[0]];
      return [];
    }
    LastToFront(h);
    h' := SiftDown([h[|h| - 1]] + h[1..|h| - 1], 0);
  }

  /** `pop_heap`: `None` on an empty heap; otherwise `heapq.heappop` takes the
      first entry and restores the heap. The entry returned is the most
      urgent one, ties going to the smaller id in string order. */
  method PopHeap(h: seq<FundingRequest>) returns (r: Option<FundingRequest>, h': seq<FundingRequest>)
    requires IsHeap(h)
    ensures IsHeap(h')
    ensures h == [] ==> r == None && h' == []
    ensures h != [] ==> r == Some(h[0]) && multiset(h') + multiset{h[0]} == multiset(h)
    ensures r.Some? ==> forall y :: y in h ==> r.value.urgency >= y.urgency
    ensures r.Some? ==> forall y :: y in h && y.urgency == r.value.urgency ==> !StrLess(y.id, r.value.id)
  {
    if h == [] {
      return None, [];
    }
    HeapRootBest(h);
    r := Some(h[0]);
    h' := RemoveFirst(h);
  }
}
