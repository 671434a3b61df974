/** The approved queue: a `collections.deque` of approved requests waiting to
    be funded. The deque's value is a sequence, front first; the engine holds
    it and replaces it by the new value after each change. */
module ApprovedQueue {
  import opened Wrappers
  import opened Models

  /** `make_queue()`: an empty deque. Nothing can be dequeued from it. */
  function MakeQueue(): (q: seq<FundingRequest>)
    ensures Dequeue(q).0.None?
  {
    []
  }

  /** `enqueue(q, r)`: `q.append(r)`. The entries already queued keep their
      places and `r` waits behind all of them. */
  function Enqueue(q: seq<FundingRequest>, r: FundingRequest): (q': seq<FundingRequest>)
    ensures |q'| == |q| + 1 && q'[..|q|] == q && q'[|q|] == r
  {
    q + [r]
  }

  /** `dequeue(q)`: `None` on an empty deque, otherwise `q.popleft()`. The
      front and what is left make up the old queue again. */
  function Dequeue(q: seq<FundingRequest>): (d: (Option<FundingRequest>, seq<FundingRequest>))
    ensures d.0.None? <==> q == []
    ensures d.0.None? ==> d.1 == []
    ensures d.0.Some? ==> [d.0.value] + d.1 == q
  {
    if q == [] then (None, []) else (Some(q[0]), q[1..])
  }

  /** Dequeuing after an enqueue: an empty queue gives back the new entry;
      otherwise the old front comes out and the new entry stays at the back. */
  lemma FirstInFirstOut(q: seq<FundingRequest>, r: FundingRequest)
    ensures q == [] ==> Dequeue(Enqueue(q, r)) == (Some(r), [])
    ensures q != [] ==> Dequeue(Enqueue(q, r)) == (Some(q[0]), Enqueue(Dequeue(q).1, r))
  {
    if q != [] {
      assert (q + [r])[0] == q[0];
      assert (q + [r])[1..] == q[1..] + [r];
    } else {
      assert Enqueue(q, r) == [r] && [r][1..] == [];
    }
  }

  /** `deque([x for x in q if x.id != rid])`: the queue without the entries
      whose id is `rid`. */
  function WithoutId(q: seq<FundingRequest>, rid: string): (w: seq<FundingRequest>)
    ensures |w| <= |q|
    ensures |w| == |q| ==> w == q
  {
    if q == [] then []
    else (if q[0].id == rid then [] else [q[0]]) + WithoutId(q[1..], rid)
  }

  /** Removal works piece by piece: removing from a concatenation is
      concatenating the removals, so the kept entries stay in their order. */
  lemma {:induction false} WithoutIdConcat(a: seq<FundingRequest>, b: seq<FundingRequest>, rid: string)
    ensures WithoutId(a + b, rid) == WithoutId(a, rid) + WithoutId(b, rid)
  {
    if a == [] {
      assert a + b == b;
    } else {
      assert (a + b)[0] == a[0] && (a + b)[1..] == a[1..] + b;
      WithoutIdConcat(a[1..], b, rid);
    }
  }

  /** Exactly the entries with id `rid` disappear: the others keep their
      multiplicity, those with id `rid` drop to none. */
  lemma {:induction false} WithoutIdCount(q: seq<FundingRequest>, rid: string, x: FundingRequest)
    ensures multiset(WithoutId(q, rid))[x] == if x.id == rid then 0 else multiset(q)[x]
  {
    if q != [] {
      WithoutIdCount(q[1..], rid, x);
      assert q == [q[0]] + q[1..];
    }
  }

  /** An entry survives the removal exactly when it was queued and its id
      is not `rid`. */
  lemma WithoutIdMembers(q: seq<FundingRequest>, rid: string)
    ensures forall x :: x in WithoutId(q, rid) <==> x in q && x.id != rid
  {
    forall x ensures x in WithoutId(q, rid) <==> x in q && x.id != rid {
      WithoutIdCount(q, rid, x);
      assert x in WithoutId(q, rid) <==> x in multiset(WithoutId(q, rid));
      assert x in q <==> x in multiset(q);
    }
  }

  /** Removal keeps a queue free of repeats. */
  lemma WithoutIdDistinct(q: seq<FundingRequest>, rid: string)
    requires Distinct(q)
    ensures Distinct(WithoutId(q, rid))
  {
    var w := WithoutId(q, rid);
    DistinctCounts(q);
    forall x | x in w ensures multiset(w)[x] <= 1 {
      WithoutIdCount(q, rid, x);
    }
    DistinctCounts(w);
  }

  /** A queue with no entry of id `rid` is left as it is. */
  lemma {:induction false} WithoutAbsentId(q: seq<FundingRequest>, rid: string)
    requires forall i :: 0 <= i < |q| ==> q[i].id != rid
    ensures WithoutId(q, rid) == q
  {
    if q != [] {
      WithoutAbsentId(q[1..], rid);
      assert q == [q[0]] + q[1..];
    }
  }

  /** Removing the one entry with id `rid` at position `i` leaves the entries
      before it and after it, in order. */
  lemma WithoutIdAt(q: seq<FundingRequest>, rid: string, i: int)
    requires 0 <= i < |q| && q[i].id == rid
    requires forall j :: 0 <= j < |q| && j != i ==> q[j].id != rid
    ensures WithoutId(q, rid) == q[..i] + q[i + 1..]
  {
    var pre, x, post := q[..i], q[i], q[i + 1..];
    assert WithoutId(pre, rid) == pre by {
      forall j | 0 <= j < |pre| ensures pre[j].id != rid {
        assert pre[j] == q[j];
      }
      WithoutAbsentId(pre, rid);
    }
    assert WithoutId(post, rid) == post by {
      forall j | 0 <= j < |post| ensures post[j].id != rid {
        assert post[j] == q[i + 1 + j];
      }
      WithoutAbsentId(post, rid);
    }
    assert WithoutId([x], rid) == [] by {
      assert [x][1..] == [];
    }
    calc {
      WithoutId(q, rid);
      { assert q == pre + ([x] + post); }
      WithoutId(pre + ([x] + post), rid);
      { WithoutIdConcat(pre, [x] + post, rid); }
      WithoutId(pre, rid) + WithoutId([x] + post, rid);
      { WithoutIdConcat([x], post, rid); }
      pre + ([] + post);
      { assert [] + post == post; }
      pre + post;
    }
  }
}
