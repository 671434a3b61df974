/** The web front end: the Flask routes over the same engine. Form fields
    arrive as parameters, already stripped (and lower-cased where the route
    lower-cases them); numbers arrive parsed, `None` when the text does not
    parse. Each route returns what it did or why it refused; the flash
    messages, redirects and templates are not part of the model. The routes
    keep `Valid` but not the command line's stronger consistency: a review
    pops a request without deciding it, and a decision does not look at the
    request's prior status. */
module WebApp {
  import opened Wrappers
  import opened Models
  import opened Ordering
  import opened UrgencyHeap
  import opened ApprovedQueue
  import opened Indices
  import opened Engine

  /** `register`: an empty id, an empty name or an unknown role is refused
      first; then a taken id; otherwise the user is added to the set and the
      dictionary. */
  method Register(e: FundingEngine, uid: string, name: string, role: string) returns (res: Result<User, Error>)
    requires e.Valid()
    modifies e
    ensures e.Valid()
    ensures (uid == [] || name == [] || ParseRole(role).None?) ==> res == Failure(InvalidRegistration) && unchanged(e)
    ensures (&& uid != [] && name != [] && ParseRole(role).Some? && uid in old(e.usersSet))
            ==> res == Failure(DuplicateUser) && unchanged(e)
    ensures (&& uid != [] && name != [] && ParseRole(role).Some? && uid !in old(e.usersSet)) ==>
      && res == Success(User(uid, name, ParseRole(role).value))
      && e.usersSet == old(e.usersSet) + {uid}
      && e.usersMap == old(e.usersMap)[uid := res.value]
      && e.userList == old(e.userList) + [res.value]
      && e.requestsMap == old(e.requestsMap) && e.requestList == old(e.requestList)
      && e.bst == old(e.bst) && e.heap == old(e.heap)
      && e.approvedQ == old(e.approvedQ) && e.reqCounter == old(e.reqCounter)
  {
    var parsed := ParseRole(role);
    if uid == [] || name == [] || parsed.None? {
      return Failure(InvalidRegistration);
    }
    if uid in e.usersSet {
      return Failure(DuplicateUser);
    }
    var u := User(uid, name, parsed.value);
    e.AddUser(u);
    res := Success(u);
  }

  /** `admin_review`: only an admin may review; the most urgent pending
      request leaves the heap and is returned for the decision form. Its
      status is not changed here. */
  method AdminReview(e: FundingEngine, aid: string) returns (res: Result<FundingRequest, Error>)
    requires e.Valid()
    modifies e
    ensures e.Valid()
    ensures !old(e.HasRole(aid, Admin)) ==> res == Failure(NotAnAdmin) && unchanged(e)
    ensures old(e.HasRole(aid, Admin)) && old(e.heap) == [] ==> res == Failure(NothingToReview) && e.heap == []
    ensures old(e.HasRole(aid, Admin)) && old(e.heap) != [] ==>
      && res == Success(old(e.heap)[0])
      && multiset(e.heap) + multiset{res.value} == multiset(old(e.heap))
      && (forall y :: y in old(e.heap) ==> AtOrBefore(res.value, y))
    ensures e.usersSet == old(e.usersSet) && e.usersMap == old(e.usersMap) && e.userList == old(e.userList)
    ensures e.requestsMap == old(e.requestsMap) && e.requestList == old(e.requestList) && e.bst == old(e.bst)
    ensures e.approvedQ == old(e.approvedQ) && e.reqCounter == old(e.reqCounter)
  {
    if !e.HasRole(aid, Admin) {
      return Failure(NotAnAdmin);
    }
    ghost var pending := e.heap;
    var popped := e.PopPending();
    if popped.None? {
      return Failure(NothingToReview);
    }
    forall y | y in pending ensures AtOrBefore(popped.value, y) {
      var i :| 0 <= i < |pending| && pending[i] == y;
      HeapRootFirst(pending, i);
    }
    res := Success(popped.value);
  }

  /** `admin_decide`: an unknown id is refused; otherwise "approve" approves
      the request and queues it, any other decision rejects it, whatever its
      status was. No role is checked. The result is the request's id. */
  method AdminDecide(e: FundingEngine, rid: string, decision: string) returns (res: Result<string, Error>)
    requires e.Valid()
    modifies e, e.requestList
    ensures e.Valid()
    ensures rid !in old(e.requestsMap) ==> res == Failure(RequestNotFound) && unchanged(e)
    ensures rid in old(e.requestsMap) ==>
      var r := old(e.requestsMap[rid]);
      && res == Success(rid)
      && (decision == "approve" ==> r.status == Approved && e.approvedQ == old(e.approvedQ) + [r])
      && (decision != "approve" ==> r.status == Rejected && e.approvedQ == old(e.approvedQ))
    ensures forall x :: x in old(e.requestList) && x.id != rid ==> unchanged(x)
    ensures e.usersSet == old(e.usersSet) && e.usersMap == old(e.usersMap) && e.userList == old(e.userList)
    ensures e.requestsMap == old(e.requestsMap) && e.requestList == old(e.requestList) && e.bst == old(e.bst)
    ensures e.heap == old(e.heap) && e.reqCounter == old(e.reqCounter)
  {
    if rid !in e.requestsMap {
      return Failure(RequestNotFound);
    }
    var r := e.requestsMap[rid];
    e.Decide(r, decision == "approve");
    res := Success(rid);
  }

  /** `donate`: an amount that does not parse is refused first; then a user
      who is not a donor; then a request that is not stored or not approved.
      A donation of at least the requested amount funds the request and
      removes every entry with its id from the queue; a smaller one changes
      nothing. The result is the funded request's id. */
  method Donate(e: FundingEngine, donor: string, rid: string, amount: Option<int>) returns (res: Result<string, Error>)
    requires e.Valid()
    modifies e, e.requestList
    ensures e.Valid()
    ensures amount.None? ==> res == Failure(InvalidDonation)
    ensures amount.Some? && !old(e.HasRole(donor, Donor)) ==> res == Failure(NotADonor)
    ensures (&& amount.Some? && old(e.HasRole(donor, Donor))
             && (rid !in old(e.requestsMap) || old(e.requestsMap[rid].status) != Approved))
            ==> res == Failure(NotApproved)
    ensures (&& amount.Some? && old(e.HasRole(donor, Donor))
             && rid in old(e.requestsMap) && old(e.requestsMap[rid].status) == Approved)
            ==>
      var r := old(e.requestsMap[rid]);
      && (amount.value < r.amount ==> res == Failure(InsufficientDonation))
      && (amount.value >= r.amount ==>
            && res == Success(rid) && r.status == Funded && Step(old(r.status), r.status)
            && e.approvedQ == WithoutId(old(e.approvedQ), rid)
            && (forall x :: x in old(e.requestList) && x != r ==> unchanged(x)))
    ensures res.Failure? ==> unchanged(e) && unchanged(old(e.requestList))
    ensures e.usersSet == old(e.usersSet) && e.usersMap == old(e.usersMap) && e.userList == old(e.userList)
    ensures e.requestsMap == old(e.requestsMap) && e.requestList == old(e.requestList) && e.bst == old(e.bst)
    ensures e.heap == old(e.heap) && e.reqCounter == old(e.reqCounter)
  {
    if amount.None? {
      return Failure(InvalidDonation);
    }
    if !e.HasRole(donor, Donor) {
      return Failure(NotADonor);
    }
    if rid !in e.requestsMap || e.requestsMap[rid].status != Approved {
      return Failure(NotApproved);
    }
    var r := e.requestsMap[rid];
    if amount.value < r.amount {
      return Failure(InsufficientDonation);
    }
    e.Fund(r);
    res := Success(rid);
  }

  /** The users with role student, in dictionary order. */
  function Students(us: seq<User>): (s: seq<User>)
    ensures forall u :: u in s <==> u in us && u.role == Student
    ensures |s| <= |us|
  {
    if us == [] then []
    else
      var init, last := us[..|us| - 1], us[|us| - 1];
      assert us == init + [last];
      Students(init) + (if last.role == Student then [last] else [])
  }

  /** What the index page shows. */
  datatype IndexPage = IndexPage(
    users: seq<User>,
    students: seq<User>,
    approved: seq<FundingRequest>,
    sortedRequests: seq<FundingRequest>,
    heapTop: Option<FundingRequest>)

  /** `index`: every user, the students, the approved queue front first,
      the amount-sorted requests and the front of the heap. */
  function Index(e: FundingEngine): (page: IndexPage)
    reads e
    ensures page.heapTop.None? <==> e.heap == []
    ensures forall u :: u in page.students <==> u in page.users && u.role == Student
    ensures e.Valid() ==> SortedBy(page.sortedRequests, ByAmount)
  {
    IndexPage(e.userList, Students(e.userList), e.approvedQ, e.SortedRequests(),
              if e.heap == [] then None else Some(e.heap[0]))
  }

  /** The index page's heap top is the request the next review would take:
      missing exactly when nothing is pending, and otherwise a pending
      request served no later than any other. Its sorted list holds every
      stored request once, by ascending amount. */
  lemma IndexPageView(e: FundingEngine)
    requires e.Valid()
    ensures Index(e).heapTop.None? <==> e.heap == []
    ensures Index(e).heapTop.Some? ==>
      Index(e).heapTop.value in e.heap && forall y :: y in e.heap ==> AtOrBefore(Index(e).heapTop.value, y)
    ensures Index(e).heapTop.Some? ==> Index(e).heapTop.value in e.requestsMap.Values
    ensures SortedBy(Index(e).sortedRequests, ByAmount)
    ensures multiset(Index(e).sortedRequests) == multiset(e.requestList)
  {
    if e.heap != [] {
      var top := e.heap[0];
      forall y | y in e.heap ensures AtOrBefore(top, y) {
        var i :| 0 <= i < |e.heap| && e.heap[i] == y;
        HeapRootFirst(e.heap, i);
      }
      assert e.requestsMap[top.id] == top;
    }
    SortedRequestsView(e, 0);
  }

  /** `admin_page`'s pending list over the request dictionary's values
    `rs`: the requests whose status is submitted, sorted by descending
    urgency, stably. */
  function AdminPending(rs: seq<FundingRequest>): (pending: seq<FundingRequest>)
    reads rs
    ensures multiset(pending) == multiset(WithStatus(rs, Submitted))
    ensures SortedBy(pending, ByUrgencyDesc)
  {
    SortBySorted(WithStatus(rs, Submitted), ByUrgencyDesc);
    SortBy(WithStatus(rs, Submitted), ByUrgencyDesc)
  }

  /** The pending list holds exactly the submitted requests, each once
      (the dictionary's values are distinct), most urgent first. */
  lemma AdminPendingView(rs: seq<FundingRequest>)
    requires Distinct(rs)
    ensures forall x :: x in AdminPending(rs) <==> x in rs && x.status == Submitted
    ensures Distinct(AdminPending(rs))
    ensures forall i, j :: 0 <= i < j < |AdminPending(rs)| ==> AdminPending(rs)[i].urgency >= AdminPending(rs)[j].urgency
  {
    var pending := WithStatus(rs, Submitted);
    WithStatusMembers(rs, Submitted);
    SortByMembers(pending, ByUrgencyDesc);
    SortBySorted(pending, ByUrgencyDesc);
    var sorted := AdminPending(rs);
    forall i, j | 0 <= i < j < |sorted| ensures sorted[i].urgency >= sorted[j].urgency {
      assert KeyOf(sorted[i], ByUrgencyDesc) <= KeyOf(sorted[j], ByUrgencyDesc);
    }
  }

  /** Requests of equal urgency keep their dictionary order in the pending
      list, Python's `sorted` being stable: for every sort key (an urgency
      negated), the requests with that key come out in the order they went
      in. */
  lemma AdminPendingStable(rs: seq<FundingRequest>, key: int)
    ensures WithKey(AdminPending(rs), ByUrgencyDesc, key) == WithKey(WithStatus(rs, Submitted), ByUrgencyDesc, key)
  {
    SortByIsStable(WithStatus(rs, Submitted), ByUrgencyDesc, key);
  }
}
