/** The indices the engine keeps over its users and requests, as values:
    what it means for the dictionaries, the BST, the heap, the queue and the
    counter to agree; the load-time rebuild of the BST, heap and queue and
    the recomputation of the counter; and the facts each change of state
    needs to keep them agreeing. */
module Indices {
  import opened Wrappers
  import opened Models
  import opened Text
  import opened Ordering
  import opened RequestBST
  import opened UrgencyHeap
  import opened ApprovedQueue

  /** The requests of `rs` whose status is `st`, in order. */
  function WithStatus(rs: seq<FundingRequest>, st: Status): seq<FundingRequest>
    reads rs
  {
    if rs == [] then []
    else WithStatus(rs[..|rs| - 1], st) + (if rs[|rs| - 1].status == st then [rs[|rs| - 1]] else [])
  }

  /** The filter keeps exactly the requests with the status, and repeats
      none when the input repeats none. */
  lemma {:induction false} WithStatusMembers(rs: seq<FundingRequest>, st: Status)
    ensures forall x :: x in WithStatus(rs, st) ==> x in rs && x.status == st
    ensures forall x :: x in rs && x.status == st ==> x in WithStatus(rs, st)
    ensures Distinct(rs) ==> Distinct(WithStatus(rs, st))
  {
    if rs != [] {
      var init, last := rs[..|rs| - 1], rs[|rs| - 1];
      assert rs == init + [last];
      WithStatusMembers(init, st);
      var w := WithStatus(init, st);
      if Distinct(rs) {
        assert Distinct(init) by {
          forall i, j | 0 <= i < j < |init| ensures init[i] != init[j] {
            assert rs[i] == init[i] && rs[j] == init[j];
          }
        }
        forall i | 0 <= i < |init| ensures init[i] != last {
          assert rs[i] == init[i];
        }
        assert last !in w;
      }
    }
  }

  /** Appending a request extends the filtered sequence by that request
      exactly when it has the status. */
  lemma WithStatusSnoc(rs: seq<FundingRequest>, r: FundingRequest, st: Status)
    ensures r.status == st ==> WithStatus(rs + [r], st) == WithStatus(rs, st) + [r]
    ensures r.status != st ==> WithStatus(rs + [r], st) == WithStatus(rs, st)
  {
    assert (rs + [r])[..|rs|] == rs;
    assert WithStatus(rs, st) + [] == WithStatus(rs, st);
  }

  /** The user dictionary `m` with key set `ids`, whose values in insertion
      order are `l`: each user is stored under its own id, and `l` lists
      each of the dictionary's values once. */
  predicate UsersIndexed(ids: set<string>, m: map<string, User>, l: seq<User>) {
    && ids == m.Keys
    && (forall k :: k in m ==> m[k].id == k && m[k] in l)
    && (forall u :: u in l ==> u.id in m && m[u.id] == u)
    && |l| == |m|
  }

  /** Every request of `s` is the one stored under its id in `m`. */
  predicate InMap(s: seq<FundingRequest>, m: map<string, FundingRequest>) {
    forall r :: r in s ==> r.id in m && m[r.id] == r
  }

  /** The request dictionary `m`, whose values in insertion order are `l`:
      each request is stored under its own id, and `l` lists each of the
      dictionary's values once. */
  predicate RequestsIndexed(m: map<string, FundingRequest>, l: seq<FundingRequest>) {
    && (forall k :: k in m ==> m[k].id == k && m[k] in l)
    && InMap(l, m)
    && Distinct(l)
  }

  /** The heap is a heap of distinct stored requests. */
  predicate HeapOver(h: seq<FundingRequest>, m: map<string, FundingRequest>) {
    IsHeap(h) && Distinct(h) && InMap(h, m)
  }

  /** The next counter is above the number of every `R<digits>` key. */
  predicate CounterAbove(m: map<string, FundingRequest>, c: nat) {
    c >= 1 && forall k :: k in m && IsNumberedId(k) ==> IdNumber(k) < c
  }

  /** Registering a user under a fresh id keeps the user dictionary
      consistent. */
  lemma AddUserIndexed(ids: set<string>, m: map<string, User>, l: seq<User>, u: User)
    requires UsersIndexed(ids, m, l) && u.id !in m
    ensures UsersIndexed(ids + {u.id}, m[u.id := u], l + [u])
  {
    var m', l' := m[u.id := u], l + [u];
    forall k | k in m' ensures m'[k].id == k && m'[k] in l' {
      if k != u.id {
        assert m[k] in l;
      }
    }
    forall v | v in l' ensures v.id in m' && m'[v.id] == v {
      if v != u {
        assert v in l;
      }
    }
  }

  /** Storing a request under a fresh id keeps the request dictionary
      consistent, and every sequence that was in the old dictionary is in
      the new one. */
  lemma AddRequest(m: map<string, FundingRequest>, l: seq<FundingRequest>, r: FundingRequest)
    requires RequestsIndexed(m, l) && r.id !in m
    ensures RequestsIndexed(m[r.id := r], l + [r])
    ensures forall s :: InMap(s, m) ==> InMap(s, m[r.id := r])
  {
    assert r !in l;
  }

  /** The id handed out from the counter is not yet a key, and the counter
      after it is above every key including the new one. */
  lemma FreshId(m: map<string, FundingRequest>, c: nat, r: FundingRequest)
    requires CounterAbove(m, c) && r.id == RequestId(c)
    ensures r.id !in m
    ensures CounterAbove(m[r.id := r], c + 1)
  {
    RequestIdRoundTrip(c);
  }

  /** Pushing a new stored request keeps the heap a heap of distinct stored
      requests. */
  lemma HeapAfterPush(h: seq<FundingRequest>, h': seq<FundingRequest>, m: map<string, FundingRequest>, r: FundingRequest)
    requires HeapOver(h, m) && r.id !in m
    requires IsHeap(h') && multiset(h') == multiset(h) + multiset{r}
    ensures HeapOver(h', m[r.id := r])
  {
    assert r !in h;
    DistinctCounts(h);
    forall x | x in h' ensures multiset(h')[x] <= 1 && x.id in m[r.id := r] && m[r.id := r][x.id] == x {
      assert x in multiset(h');
      if x != r {
        assert x in multiset(h);
      }
    }
    DistinctCounts(h');
  }

  /** Popping keeps the heap a heap of distinct stored requests. */
  lemma HeapAfterPop(h: seq<FundingRequest>, h': seq<FundingRequest>, m: map<string, FundingRequest>, top: FundingRequest)
    requires HeapOver(h, m)
    requires IsHeap(h') && multiset(h') + multiset{top} == multiset(h)
    ensures HeapOver(h', m)
  {
    DistinctCounts(h);
    forall x | x in h' ensures multiset(h')[x] <= 1 && x in h {
      assert x in multiset(h);
    }
    DistinctCounts(h');
  }

  /** What the load-time rebuild has produced after the requests `seen`:
      the BST built by inserting them in order, a heap holding exactly the
      submitted ones, and the approved ones queued in order. */
  ghost predicate Rebuilt(seen: seq<FundingRequest>, bst: Tree, heap: seq<FundingRequest>, queue: seq<FundingRequest>)
    reads seen
  {
    && bst == Build(seen)
    && IsHeap(heap)
    && multiset(heap) == multiset(WithStatus(seen, Submitted))
    && queue == WithStatus(seen, Approved)
  }

  /** One request of the load-time rebuild: into the BST always, into the
      heap when submitted, into the queue when approved. */
  method RebuildStep(ghost seen: seq<FundingRequest>, bst: Tree, heap: seq<FundingRequest>, queue: seq<FundingRequest>, r: FundingRequest)
    returns (bst': Tree, heap': seq<FundingRequest>, queue': seq<FundingRequest>)
    requires Rebuilt(seen, bst, heap, queue)
    ensures Rebuilt(seen + [r], bst', heap', queue')
  {
    BuildSnoc(seen, r);
    WithStatusSnoc(seen, r, Approved);
    WithStatusSnoc(seen, r, Submitted);
    bst', heap', queue' := Insert(bst, r), heap, queue;
    if r.status == Submitted {
      heap' := PushHeap(heap, r);
    } else if r.status == Approved {
      queue' := Enqueue(queue, r);
    }
  }

  /** The load-time rebuild loop over the request dictionary's values. */
  method Rebuild(requests: seq<FundingRequest>) returns (bst: Tree, heap: seq<FundingRequest>, queue: seq<FundingRequest>)
    ensures Rebuilt(requests, bst, heap, queue)
  {
    bst, heap, queue := Leaf, [], MakeQueue();
    var i := 0;
    while i < |requests|
      invariant 0 <= i <= |requests|
      invariant Rebuilt(requests[..i], bst, heap, queue)
    {
      assert requests[..i + 1] == requests[..i] + [requests[i]];
      bst, heap, queue := RebuildStep(requests[..i], bst, heap, queue, requests[i]);
      i := i + 1;
    }
    assert requests[..|requests|] == requests;
  }

  /** The counter recomputation: the largest number among ids of the form
      `R<digits>`, plus one; one when there is none. */
  method NextCounter(ids: seq<string>) returns (counter: nat)
    ensures counter >= 1
    ensures forall k :: k in ids && IsNumberedId(k) ==> IdNumber(k) < counter
    ensures counter > 1 ==> exists k :: k in ids && IsNumberedId(k) && IdNumber(k) == counter - 1
  {
    var maxn := 0;
    for i := 0 to |ids|
      invariant forall k :: k in ids[..i] && IsNumberedId(k) ==> IdNumber(k) <= maxn
      invariant maxn > 0 ==> exists k :: k in ids[..i] && IsNumberedId(k) && IdNumber(k) == maxn
    {
      assert ids[..i + 1] == ids[..i] + [ids[i]];
      var rid := ids[i];
      if IsNumberedId(rid) {
        var n := IdNumber(rid);
        if n > maxn {
          maxn := n;
        }
      }
    }
    assert ids[..|ids|] == ids;
    counter := maxn + 1;
  }

  /** Each request of `rs` is in the heap exactly when it is submitted and
      in the queue exactly when it is approved. */
  ghost predicate StatusIndexed(rs: seq<FundingRequest>, heap: seq<FundingRequest>, queue: seq<FundingRequest>)
    reads rs
  {
    && (forall r :: r in rs ==> (r in heap <==> r.status == Submitted))
    && (forall r :: r in rs ==> (r in queue <==> r.status == Approved))
  }

  /** The facts about a freshly rebuilt state that the command-line loop
      relies on: with distinct requests, the heap holds each submitted
      request once and the queue each approved one once. */
  lemma RebuiltConsistent(requests: seq<FundingRequest>, bst: Tree, heap: seq<FundingRequest>, queue: seq<FundingRequest>)
    requires Distinct(requests) && Rebuilt(requests, bst, heap, queue)
    ensures Distinct(heap) && Distinct(queue)
    ensures forall m :: InMap(requests, m) ==> InMap(heap, m) && InMap(queue, m)
    ensures StatusIndexed(requests, heap, queue)
  {
    var pending := WithStatus(requests, Submitted);
    WithStatusMembers(requests, Submitted);
    WithStatusMembers(requests, Approved);
    DistinctCounts(pending);
    forall x | x in heap ensures multiset(heap)[x] <= 1 {
      assert x in multiset(pending);
    }
    DistinctCounts(heap);
    forall r | r in heap ensures r in pending {
      assert r in multiset(pending);
    }
    forall r | r in pending ensures r in heap {
      assert r in multiset(heap);
    }
  }

  /** The counter recomputed from the ids of the dictionary's values is
      above every numbered key. */
  lemma LoadedCounter(m: map<string, FundingRequest>, l: seq<FundingRequest>, counter: nat)
    requires RequestsIndexed(m, l) && counter >= 1
    requires forall k :: k in Ids(l) && IsNumberedId(k) ==> IdNumber(k) < counter
    ensures CounterAbove(m, counter)
  {
    var ids := Ids(l);
    forall k | k in m && IsNumberedId(k) ensures IdNumber(k) < counter {
      var i :| 0 <= i < |l| && l[i] == m[k];
      assert ids[i] == k;
    }
  }

  /** The consistency both front ends keep, over the values of the state:
      the user set and dictionary agree; each request is stored under its
      id; the BST is the tree built by inserting every request in dictionary
      order; the heap is a heap of distinct stored requests; the queue holds
      stored requests; the counter is above every number of an `R<digits>`
      key. */
  predicate Consistent(
    usersSet: set<string>, usersMap: map<string, User>, userList: seq<User>,
    requestsMap: map<string, FundingRequest>, requestList: seq<FundingRequest>,
    bst: Tree, heap: seq<FundingRequest>, approvedQ: seq<FundingRequest>, reqCounter: nat)
  {
    && UsersIndexed(usersSet, usersMap, userList)
    && RequestsIndexed(requestsMap, requestList)
    && bst == Build(requestList)
    && HeapOver(heap, requestsMap)
    && InMap(approvedQ, requestsMap)
    && CounterAbove(requestsMap, reqCounter)
  }

  /** A new request under the counter's id, stored, inserted into the BST
      and pushed onto the heap, keeps the state consistent. */
  lemma SubmitKeepsConsistent(
    usersSet: set<string>, usersMap: map<string, User>, userList: seq<User>,
    requestsMap: map<string, FundingRequest>, requestList: seq<FundingRequest>,
    bst: Tree, heap: seq<FundingRequest>, approvedQ: seq<FundingRequest>, reqCounter: nat,
    r: FundingRequest, heap': seq<FundingRequest>)
    requires Consistent(usersSet, usersMap, userList, requestsMap, requestList, bst, heap, approvedQ, reqCounter)
    requires r.id == RequestId(reqCounter)
    requires IsHeap(heap') && multiset(heap') == multiset(heap) + multiset{r}
    ensures r.id !in requestsMap
    ensures Consistent(usersSet, usersMap, userList, requestsMap[r.id := r], requestList + [r],
                       Insert(bst, r), heap', approvedQ, reqCounter + 1)
  {
    FreshId(requestsMap, reqCounter, r);
    AddRequest(requestsMap, requestList, r);
    BuildSnoc(requestList, r);
    HeapAfterPush(heap, heap', requestsMap, r);
  }

  /** The state the start-up fills from the loaded dictionaries is
      consistent, and its heap and queue hold exactly the submitted and the
      approved requests, each once. */
  lemma LoadedConsistent(users: map<string, User>, userValues: seq<User>,
                         requests: map<string, FundingRequest>, requestValues: seq<FundingRequest>,
                         bst: Tree, heap: seq<FundingRequest>, queue: seq<FundingRequest>, counter: nat)
    requires UsersIndexed(users.Keys, users, userValues)
    requires RequestsIndexed(requests, requestValues)
    requires Rebuilt(requestValues, bst, heap, queue)
    requires counter >= 1
    requires forall k :: k in Ids(requestValues) && IsNumberedId(k) ==> IdNumber(k) < counter
    ensures Consistent(users.Keys, users, userValues, requests, requestValues, bst, heap, queue, counter)
    ensures StatusIndexed(requestValues, heap, queue) && Distinct(queue)
  {
    RebuiltConsistent(requestValues, bst, heap, queue);
    LoadedCounter(requests, requestValues, counter);
  }

  /** The start-up work on the loaded dictionaries: the BST, heap and queue
      rebuilt from the request statuses and the counter recomputed from the
      ids, giving a consistent state whose heap and queue hold exactly the
      submitted and the approved requests. The counter is one more than the
      largest number of an `R<digits>` key, or 1 when there is none. */
  method LoadIndices(users: map<string, User>, userValues: seq<User>,
                     requests: map<string, FundingRequest>, requestValues: seq<FundingRequest>)
    returns (bst: Tree, heap: seq<FundingRequest>, queue: seq<FundingRequest>, counter: nat)
    requires UsersIndexed(users.Keys, users, userValues)
    requires RequestsIndexed(requests, requestValues)
    ensures Consistent(users.Keys, users, userValues, requests, requestValues, bst, heap, queue, counter)
    ensures StatusIndexed(requestValues, heap, queue) && Distinct(queue)
    ensures Rebuilt(requestValues, bst, heap, queue)
    ensures counter > 1 ==> exists k :: k in requests && IsNumberedId(k) && IdNumber(k) == counter - 1
  {
    counter := NextCounter(Ids(requestValues));
    bst, heap, queue := Rebuild(requestValues);
    LoadedConsistent(users, userValues, requests, requestValues, bst, heap, queue, counter);
    if counter > 1 {
      var k :| k in Ids(requestValues) && IsNumberedId(k) && IdNumber(k) == counter - 1;
      var i :| 0 <= i < |requestValues| && Ids(requestValues)[i] == k;
      assert requestValues[i] in requestValues;
    }
  }

  /** A new submitted request, not yet stored and pushed onto the heap,
      keeps each stored request in the heap exactly when submitted and in
      the queue exactly when approved. */
  lemma SubmitKeepsStatusIndexed(rs: seq<FundingRequest>, heap: seq<FundingRequest>, heap': seq<FundingRequest>,
                                 queue: seq<FundingRequest>, m: map<string, FundingRequest>, r: FundingRequest)
    requires StatusIndexed(rs, heap, queue) && r.status == Submitted
    requires InMap(rs, m) && InMap(queue, m) && r.id !in m
    requires multiset(heap') == multiset(heap) + multiset{r}
    ensures StatusIndexed(rs + [r], heap', queue)
  {
    assert r !in rs && r !in queue;
    forall x | x in rs + [r] ensures x in heap' <==> x.status == Submitted {
      assert x in heap' <==> x in multiset(heap');
      assert x in heap <==> x in multiset(heap);
    }
  }
}
