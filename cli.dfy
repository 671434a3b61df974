/** The command-line front end: options 1 to 4 of the menu loop, over the
    engine. The prompts' answers arrive as parameters: the strings already
    stripped (and lower-cased where the loop lower-cases them), the numbers
    already parsed, `None` when the text does not parse. Each option returns
    what it did or why it refused. */
module Cli {
  import opened Wrappers
  import opened Models
  import opened UrgencyHeap
  import opened ApprovedQueue
  import opened Indices
  import opened Engine

  /** Option 1, registration: a taken id is refused before the role is
      looked at; an unknown role is refused; otherwise the user is added to
      the set and the dictionary. Requests are not touched. */
  method Register(e: FundingEngine, uid: string, name: string, role: string) returns (res: Result<User, Error>)
    requires e.Valid()
    modifies e
    ensures e.Valid()
    ensures old(e.CliConsistent()) ==> e.CliConsistent()
    ensures uid in old(e.usersSet) ==> res == Failure(DuplicateUser) && unchanged(e)
    ensures uid !in old(e.usersSet) && ParseRole(role).None? ==> res == Failure(InvalidRole) && unchanged(e)
    ensures uid !in old(e.usersSet) && ParseRole(role).Some? ==>
      && res == Success(User(uid, name, ParseRole(role).value))
      && e.usersSet == old(e.usersSet) + {uid}
      && e.usersMap == old(e.usersMap)[uid := res.value]
      && e.userList == old(e.userList) + [res.value]
      && e.requestsMap == old(e.requestsMap) && e.requestList == old(e.requestList)
      && e.bst == old(e.bst) && e.heap == old(e.heap)
      && e.approvedQ == old(e.approvedQ) && e.reqCounter == old(e.reqCounter)
  {
    if uid in e.usersSet {
      return Failure(DuplicateUser);
    }
    var parsed := ParseRole(role);
    if parsed.None? {
      return Failure(InvalidRole);
    }
    var u := User(uid, name, parsed.value);
    e.AddUser(u);
    res := Success(u);
  }

  /** Option 3, review: only an admin may review; the most urgent pending
      request leaves the heap; a request no longer stored or no longer
      submitted is skipped (it stays off the heap); otherwise the answer
      "y" approves it and queues it, any other answer rejects it. The
      result is the reviewed request's id. While the loop's own consistency
      holds, the skip never happens and it keeps holding. */
  method Review(e: FundingEngine, aid: string, answer: string) returns (res: Result<string, Error>)
    requires e.Valid()
    modifies e, e.heap
    ensures e.Valid()
    ensures old(e.CliConsistent()) ==> e.CliConsistent() && res != Failure(AlreadyHandled)
    ensures !old(e.HasRole(aid, Admin)) ==> res == Failure(NotAnAdmin) && unchanged(e) && unchanged(old(e.heap))
    ensures old(e.HasRole(aid, Admin)) && old(e.heap) == [] ==> res == Failure(NothingToReview) && e.heap == [] && e.approvedQ == old(e.approvedQ)
    ensures old(e.HasRole(aid, Admin)) && old(e.heap) != [] ==>
      var r := old(e.heap)[0];
      && multiset(e.heap) + multiset{r} == multiset(old(e.heap))
      && (forall y :: y in old(e.heap) ==> AtOrBefore(r, y))
      && (old(r.status) != Submitted ==> res == Failure(AlreadyHandled) && unchanged(r) && e.approvedQ == old(e.approvedQ))
      && (old(r.status) == Submitted ==> res == Success(r.id) && Step(old(r.status), r.status))
      && (old(r.status) == Submitted && answer == "y" ==> r.status == Approved && e.approvedQ == old(e.approvedQ) + [r])
      && (old(r.status) == Submitted && answer != "y" ==> r.status == Rejected && e.approvedQ == old(e.approvedQ))
      && (forall x :: x in old(e.heap) && x != r ==> unchanged(x))
    ensures e.usersSet == old(e.usersSet) && e.usersMap == old(e.usersMap) && e.userList == old(e.userList)
    ensures e.requestsMap == old(e.requestsMap) && e.requestList == old(e.requestList) && e.bst == old(e.bst)
    ensures e.reqCounter == old(e.reqCounter)
  {
    if !e.HasRole(aid, Admin) {
      return Failure(NotAnAdmin);
    }
    ghost var consistent := e.CliConsistent();
    ghost var pending, queue := e.heap, e.approvedQ;
    var popped := e.PopPending();
    if popped.None? {
      return Failure(NothingToReview);
    }
    var r := popped.value;
    forall y | y in pending ensures AtOrBefore(r, y) {
      var i :| 0 <= i < |pending| && pending[i] == y;
      HeapRootFirst(pending, i);
    }
    assert r in pending by {
      assert r in multiset(pending);
    }
    if r.id !in e.requestsMap || e.requestsMap[r.id].status != Submitted {
      if consistent {
        assert false;
      }
      return Failure(AlreadyHandled);
    }
    PoppedGone(pending, e.heap, r);
    e.Decide(r, answer == "y");
    if consistent {
      assert r !in queue;
      forall x | x in e.requestList
        ensures (x in e.heap <==> x.status == Submitted) && (x in e.approvedQ <==> x.status == Approved)
      {
        if x != r {
          assert x.status == old(x.status);
        }
      }
    }
    res := Success(r.id);
  }

  /** Option 4, donation: only a donor may give; with the approved queue
      empty there is nothing to give to; the request must be stored and
      approved; the amount must parse. A donation of at least the requested
      amount funds the request and removes every entry with its id from the
      queue; a smaller one changes nothing. The result is the funded
      request's id. */
  method Donate(e: FundingEngine, donor: string, rid: string, amount: Option<int>) returns (res: Result<string, Error>)
    requires e.Valid()
    modifies e, e.requestList
    ensures e.Valid()
    ensures old(e.CliConsistent()) ==> e.CliConsistent()
    ensures !old(e.HasRole(donor, Donor)) ==> res == Failure(NotADonor)
    ensures old(e.HasRole(donor, Donor)) && old(e.approvedQ) == [] ==> res == Failure(NothingApproved)
    ensures (&& old(e.HasRole(donor, Donor)) && old(e.approvedQ) != []
             && (rid !in old(e.requestsMap) || old(e.requestsMap[rid].status) != Approved))
            ==> res == Failure(NotApproved)
    ensures (&& old(e.HasRole(donor, Donor)) && old(e.approvedQ) != []
             && rid in old(e.requestsMap) && old(e.requestsMap[rid].status) == Approved)
            ==>
      var r := old(e.requestsMap[rid]);
      && (amount.None? ==> res == Failure(InvalidDonation))
      && (amount.Some? && amount.value < r.amount ==> res == Failure(InsufficientDonation))
      && (amount.Some? && amount.value >= r.amount ==>
            && res == Success(rid) && r.status == Funded && Step(old(r.status), r.status)
            && e.approvedQ == WithoutId(old(e.approvedQ), rid)
            && (forall x :: x in old(e.requestList) && x != r ==> unchanged(x)))
    ensures res.Failure? ==> unchanged(e) && unchanged(old(e.requestList))
    ensures e.usersSet == old(e.usersSet) && e.usersMap == old(e.usersMap) && e.userList == old(e.userList)
    ensures e.requestsMap == old(e.requestsMap) && e.requestList == old(e.requestList) && e.bst == old(e.bst)
    ensures e.heap == old(e.heap) && e.reqCounter == old(e.reqCounter)
  {
    if !e.HasRole(donor, Donor) {
      return Failure(NotADonor);
    }
    if e.approvedQ == [] {
      return Failure(NothingApproved);
    }
    if rid !in e.requestsMap || e.requestsMap[rid].status != Approved {
      return Failure(NotApproved);
    }
    if amount.None? {
      return Failure(InvalidDonation);
    }
    var r := e.requestsMap[rid];
    if amount.value < r.amount {
      return Failure(InsufficientDonation);
    }
    ghost var consistent := e.CliConsistent();
    ghost var queue := e.approvedQ;
    e.Fund(r);
    if consistent {
      WithoutIdMembers(queue, rid);
      WithoutIdDistinct(queue, rid);
      forall x | x in e.requestList
        ensures (x in e.heap <==> x.status == Submitted) && (x in e.approvedQ <==> x.status == Approved)
      {
        if x != r {
          assert x.status == old(x.status) && x.id != rid;
        }
      }
    }
    res := Success(rid);
  }

  /** A request popped from a heap without repeats is no longer in it. */
  lemma PoppedGone(h: seq<FundingRequest>, h': seq<FundingRequest>, r: FundingRequest)
    requires Distinct(h) && multiset(h') + multiset{r} == multiset(h)
    ensures r !in h'
    ensures forall x :: x != r ==> (x in h' <==> x in h)
  {
    DistinctCounts(h);
    assert r in multiset(h);
    assert multiset(h')[r] == 0;
    forall x | x != r ensures x in h' <==> x in h {
      assert x in h' <==> x in multiset(h');
      assert x in h <==> x in multiset(h);
    }
  }
}
