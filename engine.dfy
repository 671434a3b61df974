/** The request-management state that both front ends (the command-line loop
    and the web routes) keep: the user set and map, the request map, the
    amount BST, the urgency heap, the approved queue and the id counter; the
    load-time rebuild of the indices; and request submission, which the two
    front ends implement identically. */
module Engine {
  import opened Wrappers
  import opened Models
  import opened Text
  import opened Ordering
  import opened RequestBST
  import opened UrgencyHeap
  import opened ApprovedQueue
  import opened Indices

  /** Why an operation was refused. A refusal leaves the state unchanged,
      except that a command-line review which finds the popped request
      already handled has still taken it off the heap. */
  datatype Error =
    | InvalidRegistration   // web form: empty id or name, or unknown role
    | DuplicateUser
    | InvalidRole
    | NotAStudent
    | InvalidAmount
    | InvalidUrgency
    | NotAnAdmin
    | NothingToReview
    | AlreadyHandled
    | NotADonor
    | NothingApproved
    | NotApproved
    | InvalidDonation
    | InsufficientDonation
    | RequestNotFound

  class FundingEngine {
    var usersSet: set<string>
    var usersMap: map<string, User>
    var userList: seq<User>                      // the values of usersMap, in insertion order
    var requestsMap: map<string, FundingRequest>
    var requestList: seq<FundingRequest>         // the values of requestsMap, in insertion order
    var bst: Tree
    var heap: seq<FundingRequest>
    var approvedQ: seq<FundingRequest>
    var reqCounter: nat

    /** The consistency both front ends keep. */
    ghost predicate Valid()
      reads this
    {
      Consistent(usersSet, usersMap, userList, requestsMap, requestList, bst, heap, approvedQ, reqCounter)
    }

    /** What the command-line loop keeps on top of `Valid`: the heap holds
        exactly the submitted requests and the queue exactly the approved
        ones, each once. The web routes do not keep it: a review pops without
        deciding, and a decision does not look at the prior status. */
    ghost predicate CliConsistent()
      reads this, requestList
    {
      StatusIndexed(requestList, heap, approvedQ) && Distinct(approvedQ)
    }

    /** `uid` is a registered user with role `role`. */
    predicate HasRole(uid: string, role: Role)
      reads this
    {
      uid in usersMap && usersMap[uid].role == role
    }

    /** Start-up: the two loaded dictionaries (each given with its values
        in insertion order) become the user and request dictionaries; the
        BST, heap and queue are rebuilt from the request statuses and the
        counter is recomputed from the ids. A role or status string that
        names a known role or status has been read as that one. */
    constructor Load(users: map<string, User>, userValues: seq<User>,
                     requests: map<string, FundingRequest>, requestValues: seq<FundingRequest>)
      requires UsersIndexed(users.Keys, users, userValues)
      requires RequestsIndexed(requests, requestValues)
      requires forall u :: u in userValues ==> CanonicalRole(u.role)
      requires forall r :: r in requestValues ==> CanonicalStatus(r.status)
      ensures Valid() && CliConsistent()
      ensures usersMap == users && userList == userValues
      ensures requestsMap == requests && requestList == requestValues
      ensures Rebuilt(requestValues, bst, heap, approvedQ)
      ensures reqCounter > 1 ==> exists k :: k in requests && IsNumberedId(k) && IdNumber(k) == reqCounter - 1
    {
      var t, h, q, counter := LoadIndices(users, userValues, requests, requestValues);
      usersMap, usersSet, userList := users, users.Keys, userValues;
      requestsMap, requestList, bst, heap, approvedQ, reqCounter := requests, requestValues, t, h, q, counter;
    }

    /** Stores a new submitted request under the counter's id: the counter
        moves on, and the request enters the dictionary, the BST and the
        heap. */
    method Store(r: FundingRequest)
      requires Valid() && r.id == RequestId(reqCounter) && r.status == Submitted
      modifies this
      ensures Valid()
      ensures r.id !in old(requestsMap) && reqCounter == old(reqCounter) + 1
      ensures requestsMap == old(requestsMap)[r.id := r] && requestList == old(requestList) + [r]
      ensures bst == Insert(old(bst), r) && multiset(heap) == multiset(old(heap)) + multiset{r}
      ensures approvedQ == old(approvedQ)
      ensures usersSet == old(usersSet) && usersMap == old(usersMap) && userList == old(userList)
    {
      var h := PushHeap(heap, r);
      SubmitKeepsConsistent(usersSet, usersMap, userList, requestsMap, requestList, bst, heap, approvedQ, reqCounter, r, h);
      reqCounter, requestsMap, requestList, bst, heap := reqCounter + 1, requestsMap[r.id := r], requestList + [r], Insert(bst, r), h;
    }

    /** Submitting a request (option 2 of the command line, `submit` of the
        web app): the student must exist with role student and both numbers
        must parse; then a new request with id `R<counter>` and status
        submitted is stored. */
    method Submit(sid: string, amount: Option<int>, urgency: Option<int>) returns (res: Result<string, Error>)
      requires Valid()
      modifies this
      ensures Valid()
      ensures old(CliConsistent()) ==> CliConsistent()
      ensures !old(HasRole(sid, Student)) ==> res == Failure(NotAStudent) && unchanged(this)
      ensures old(HasRole(sid, Student)) && amount.None? ==> res == Failure(InvalidAmount) && unchanged(this)
      ensures old(HasRole(sid, Student)) && amount.Some? && urgency.None? ==> res == Failure(InvalidUrgency) && unchanged(this)
      ensures old(HasRole(sid, Student)) && amount.Some? && urgency.Some? ==> res.Success?
      ensures res.Success? ==>
        && res.value == RequestId(old(reqCounter))
        && res.value !in old(requestsMap)
        && reqCounter == old(reqCounter) + 1
        && res.value in requestsMap
        && var r := requestsMap[res.value];
        && fresh(r)
        && r.id == res.value && r.studentId == sid && r.amount == amount.value && r.urgency == urgency.value
        && r.status == Submitted
        && requestsMap == old(requestsMap)[res.value := r]
        && requestList == old(requestList) + [r]
        && bst == Insert(old(bst), r)
        && multiset(heap) == multiset(old(heap)) + multiset{r}
        && approvedQ == old(approvedQ)
        && usersSet == old(usersSet) && usersMap == old(usersMap) && userList == old(userList)
    {
      if !HasRole(sid, Student) {
        return Failure(NotAStudent);
      }
      if amount.None? {
        return Failure(InvalidAmount);
      }
      if urgency.None? {
        return Failure(InvalidUrgency);
      }
      var rid := RequestId(reqCounter);
      var fr := new FundingRequest(rid, sid, amount.value, urgency.value, Submitted);
      ghost var consistent := CliConsistent();
      ghost var list, pending, approved, stored := requestList, heap, approvedQ, requestsMap;
      Store(fr);
      if consistent {
        SubmitKeepsStatusIndexed(list, pending, heap, approved, stored, fr);
      }
      res := Success(rid);
    }

    /** Registers `u` under its fresh id: `users_set.add`, then
        `users_map[uid] = user`. Nothing else changes. */
    method AddUser(u: User)
      requires Valid() && u.id !in usersSet
      modifies this
      ensures Valid()
      ensures usersSet == old(usersSet) + {u.id} && usersMap == old(usersMap)[u.id := u] && userList == old(userList) + [u]
      ensures requestsMap == old(requestsMap) && requestList == old(requestList) && bst == old(bst)
      ensures heap == old(heap) && approvedQ == old(approvedQ) && reqCounter == old(reqCounter)
    {
      AddUserIndexed(usersSet, usersMap, userList, u);
      usersSet, usersMap, userList := usersSet + {u.id}, usersMap[u.id := u], userList + [u];
    }

    /** `pop_heap(heap)`: `None` when nothing is pending; otherwise the most
        urgent pending request, ties going to the smaller id in string
        order, leaves the heap. Nothing else changes. */
    method PopPending() returns (r: Option<FundingRequest>)
      requires Valid()
      modifies this
      ensures Valid()
      ensures old(heap) == [] ==> r == None && heap == []
      ensures old(heap) != [] ==> r == Some(old(heap)[0]) && multiset(heap) + multiset{r.value} == multiset(old(heap))
      ensures r.Some? ==> forall y :: y in old(heap) ==> r.value.urgency >= y.urgency
      ensures r.Some? ==> forall y :: y in old(heap) && y.urgency == r.value.urgency ==> !StrLess(y.id, r.value.id)
      ensures usersSet == old(usersSet) && usersMap == old(usersMap) && userList == old(userList)
      ensures requestsMap == old(requestsMap) && requestList == old(requestList) && bst == old(bst)
      ensures approvedQ == old(approvedQ) && reqCounter == old(reqCounter)
    {
      var h;
      r, h := PopHeap(heap);
      if r.Some? {
        HeapAfterPop(heap, h, requestsMap, r.value);
      }
      heap := h;
    }

    /** The review decision on a stored request: approval sets the status to
        approved and queues the request at the back; anything else sets it
        to rejected. Nothing else changes. */
    method Decide(r: FundingRequest, approve: bool)
      requires Valid() && r.id in requestsMap && requestsMap[r.id] == r
      modifies this, r
      ensures Valid()
      ensures approve ==> r.status == Approved && approvedQ == old(approvedQ) + [r]
      ensures !approve ==> r.status == Rejected && approvedQ == old(approvedQ)
      ensures usersSet == old(usersSet) && usersMap == old(usersMap) && userList == old(userList)
      ensures requestsMap == old(requestsMap) && requestList == old(requestList) && bst == old(bst)
      ensures heap == old(heap) && reqCounter == old(reqCounter)
    {
      if approve {
        r.status := Approved;
        approvedQ := Enqueue(approvedQ, r);
      } else {
        r.status := Rejected;
      }
    }

    /** A donation covering the amount: the status becomes funded and every
        entry with the request's id leaves the approved queue. Nothing else
        changes. */
    method Fund(r: FundingRequest)
      requires Valid() && r.id in requestsMap && requestsMap[r.id] == r
      modifies this, r
      ensures Valid()
      ensures r.status == Funded && approvedQ == WithoutId(old(approvedQ), r.id)
      ensures usersSet == old(usersSet) && usersMap == old(usersMap) && userList == old(userList)
      ensures requestsMap == old(requestsMap) && requestList == old(requestList) && bst == old(bst)
      ensures heap == old(heap) && reqCounter == old(reqCounter)
    {
      WithoutIdMembers(approvedQ, r.id);
      r.status := Funded;
      approvedQ := WithoutId(approvedQ, r.id);
    }

    /** The amount-sorted view (option 5 of the command line, the sorted
        list of the web index page). */
    function SortedRequests(): (s: seq<FundingRequest>)
      reads this
      ensures Valid() ==> SortedBy(s, ByAmount) && multiset(s) == multiset(requestList)
    {
      InorderOfInserts(requestList, 0);
      Inorder(bst)
    }
  }

  /** The amount-sorted view lists every stored request exactly once, by
      ascending amount, requests of equal amount in submission order. */
  lemma SortedRequestsView(e: FundingEngine, amount: int)
    requires e.Valid()
    ensures SortedBy(e.SortedRequests(), ByAmount)
    ensures multiset(e.SortedRequests()) == multiset(e.requestList)
    ensures WithKey(e.SortedRequests(), ByAmount, amount) == WithKey(e.requestList, ByAmount, amount)
  {
    InorderOfInserts(e.requestList, amount);
  }
}
