# Campus funding tracker: the request-management engine in Dafny

This project models the in-memory engine of the campus funding tracker.
Students submit funding requests; admins review the most urgent pending
request and approve or reject it; donors fund approved requests in full.
The engine keeps four views of one set of request objects consistent:

- the request dictionary (`requests_map`);
- a binary search tree keyed on amount (`bst`);
- an urgency heap of pending requests (`heap`);
- a FIFO queue of approved requests (`approved_q`).

It also keeps the user set and dictionary and the request-id counter.
The engine appears twice in the program: in the command-line menu loop
(`campus_funding/main.py`) and in the Flask routes (`campus_funding/app.py`).

Layout, one module per file:

- `wrappers.dfy`, module `Wrappers`: `Option` and `Result`.
- `models.dfy`, module `Models`: the `User` record and the `FundingRequest` class.
  - `FundingRequest` is a class because every index holds the same object and `status` is assigned in place.
  - Also here: the status transitions (`Step`) and the distinctness lemmas.
- `text.dfy`, module `Text`: Python's string order (`StrLess`, the heap's tie-break) and the `R<digits>` request ids.
- `ordering.dfy`, module `Ordering`: a stable sort by a key (`SortBy`) and the per-key order (`WithKey`).
  - The BST traversal and the admin page's pending list are both stated against these.
- `bst.dfy`, module `RequestBST`: `RequestBST.insert` and `inorder`.
  - The tree is a datatype: nodes are never shared, so `Insert` returns the new tree.
- `heap.dfy`, module `UrgencyHeap`: `push_heap` and `pop_heap`.
  - A verified binary heap ordered by `(-urgency, id)`: `heapq`'s sift-up on a push, and a classic top-down sift-down on a pop.
  - `PushHeap` and `PopHeap` take the list and return its new value.
- `queue.dfy`, module `ApprovedQueue`: `make_queue`, `enqueue`, `dequeue`, and the donation's filtering of the queue by id.
- `indices.dfy`, module `Indices`, over values:
  - the consistency of the dictionaries, tree, heap, queue and counter (`Consistent`);
  - the load-time rebuild loop (`Rebuild`) and the counter recomputation loop (`NextCounter`);
  - the lemmas each change of state needs.
- `engine.dfy`, module `Engine`: the class `FundingEngine`, holding the state both front ends share.
  - `Load` is the start-up. `Submit` is the same in both front ends.
  - Small state changes used by the front ends: `AddUser`, `PopPending`, `Decide`, `Fund`.
  - The amount-sorted view.
- `cli.dfy`, module `Cli`: menu options 1, 3 and 4.
  - Option 2 is `Engine.FundingEngine.Submit`.
  - Option 5 is `Engine.FundingEngine.SortedRequests`.
- `web.dfy`, module `WebApp`: the routes `register`, `admin_review`, `admin_decide` and `donate`, and the `index` and `admin_page` views.
  - The route `submit` is `Engine.FundingEngine.Submit`.

Both front ends keep `Valid`: the predicate `Consistent` over the engine's fields. Under it:

- each user and each request is stored under its own id;
- the tree is the one built by inserting every request in dictionary order;
- the heap is a heap of distinct stored requests;
- the queue holds stored requests;
- the counter is above the number of every `R<digits>` id.

The command-line loop keeps more, `CliConsistent`: the heap holds exactly the submitted requests and the queue exactly the approved ones, each once.
Under it, `Cli.Review` never meets an already handled request.
The web routes do not keep it:

- `admin_review` pops a request without deciding it, so that request is not offered again while the server runs. After a restart it is pushed onto the heap again, being still submitted (`campus_funding/app.py:36-37`).
- `admin_decide` does not look at the prior status. It can queue a request twice or reopen a funded one.

The model states these behaviours as the code has them.

Three points of the program's own text are easy to misread; the model follows what the code does:

- The heap's tie-break (`campus_funding/structures.py:95-99`) compares ids as **strings**, so among equal urgencies "R10" comes out before "R9". `Text.TextualOrderOfIds` states this. It is not the order of creation.
- Submission (`campus_funding/main.py:97-101`, `campus_funding/app.py:113-118`) checks only that the amount parses; a negative amount is accepted.
- The web `submit` route reports the two parse failures with one message. The model returns `InvalidAmount` or `InvalidUrgency`; the state is the same either way.

## Model

| member | source | states |
|---|---|---|
| Models.ParseRole | campus_funding/main.py:81-85 | a role string is accepted exactly when it is "student", "admin" or "donor"; "student" becomes the student role, "admin" the admin role, "donor" the donor role, and no accepted string becomes an unknown role |
| Models.FundingRequest.constructor | campus_funding/models.py:24-45 | a new request holds the given id, student, amount, urgency and status |
| Text.StrLessTotal | campus_funding/structures.py:99 | Python's string comparison orders any two different strings one way or the other |
| Text.StrLessTransitive | campus_funding/structures.py:99 | string comparison is transitive |
| Text.StrLessAsymmetric | campus_funding/structures.py:99 | string comparison is asymmetric |
| Text.StrLessIrreflexive | campus_funding/structures.py:99 | no string is below itself |
| Text.StrLess | campus_funding/structures.py:95-99 | the tie-break compares ids as Python strings: a proper prefix comes before the longer string (the rest of the order is stated by the four lemmas around it) |
| Text.TextualOrderOfIds | campus_funding/structures.py:95-99 | the id tie-break is textual: "R10" is below "R9" and not the other way round |
| Text.NatToString | campus_funding/main.py:107 | the decimal text of a counter is a non-empty digit string without a leading zero |
| Text.DigitsValueOfNatToString | campus_funding/main.py:63-64 | parsing the decimal text of a number gives back the number |
| Text.RequestIdRoundTrip | campus_funding/main.py:63-64 | an id `R<n>` made from the counter passes the load-time `R<digits>` test, and its number is `n` |
| Text.RequestId | campus_funding/main.py:107 | the id `R<n>` made from the counter passes the load-time `R<digits>` test and has no leading zero |
| Text.IsNumberedId | campus_funding/main.py:63 | an id that passes the load-time test starts with "R" and has at least one digit after it |
| Text.IdNumber | campus_funding/main.py:63-64 | the number read from an id without a leading zero gives back that id when formatted as the program allocates ids |
| Text.NatToStringOfDigitsValue | campus_funding/main.py:63-64 | parsing a digit string without a leading zero and formatting the number gives back the string |
| Ordering.InsertAfterSorted | campus_funding/structures.py:66-70 | inserting after the elements of equal key adds exactly the element and keeps a sorted sequence sorted |
| Ordering.SortBySorted | campus_funding/app.py:83 | the stable sort is sorted by the key and is a permutation of its input |
| Ordering.SortByMembers | campus_funding/app.py:83 | the sort keeps exactly the elements of its input, and repeats none when the input repeats none |
| Ordering.InsertAfterKeepsArrivalOrder | campus_funding/structures.py:66-70 | inserting into a sorted sequence puts the new element after every element with its key: for every key, the order of arrival is kept |
| Ordering.SortByIsStable | campus_funding/app.py:83 | for every key value, the sort lists the elements with that key in their input order |
| RequestBST.Inorder | campus_funding/structures.py:75-87 | the traversal has one entry per node of the tree (its order is stated by `RequestBST.InorderSorted` and `RequestBST.InsertInorder`) |
| RequestBST.Insert | campus_funding/structures.py:55-73 | an insertion adds one node and the tree then holds the new request (ordering kept: `RequestBST.InsertKeepsOrder`) |
| RequestBST.InsertKeepsOrder | campus_funding/structures.py:63-73 | insertion keeps the search-tree ordering: left amounts below the node's, right amounts at least the node's |
| RequestBST.InsertAddsOne | campus_funding/structures.py:55-73 | after an insertion the traversal holds the old requests plus exactly the new one |
| RequestBST.InorderSorted | campus_funding/structures.py:75-87 | the traversal of a search tree is in non-decreasing amount order |
| RequestBST.InsertInorder | campus_funding/structures.py:63-87 | the traversal after an insertion is the old traversal with the request placed after every request of amount at most its own |
| RequestBST.BuildSnoc | campus_funding/structures.py:55-73 | the tree built from one more request is the old tree with that request inserted |
| RequestBST.BuildInorder | campus_funding/structures.py:48-87 | after any sequence of inserts the tree is a search tree and its traversal is the stable sort of the inserted requests by amount |
| RequestBST.InorderOfInserts | campus_funding/structures.py:48-87 | after n inserts the traversal holds exactly the n requests, ascending by amount, equal amounts in insertion order |
| UrgencyHeap.HeapRootFirst | campus_funding/structures.py:91-99 | the first entry of a heap is served no later than any other entry |
| UrgencyHeap.Before | campus_funding/structures.py:91-99 | a request served first has at least the other's urgency, and on equal urgency a different id that is not greater in string order |
| UrgencyHeap.HeapRootBest | campus_funding/structures.py:102-110 | the first entry has the highest urgency and, among equal urgencies, the smallest id in string order |
| UrgencyHeap.PushHeap | campus_funding/structures.py:91-99 | pushing keeps the heap order and adds exactly the request |
| UrgencyHeap.SiftDown | campus_funding/structures.py:109 | sifting the hole down restores the heap order and keeps the entries |
| UrgencyHeap.RemoveFirst | campus_funding/structures.py:109 | taking the first entry leaves a heap of exactly the other entries |
| UrgencyHeap.PopHeap | campus_funding/structures.py:102-110 | on an empty heap: None and the heap stays empty; otherwise the first entry comes out, it has maximal urgency and the smallest id among equal urgencies, and exactly it leaves the heap |
| ApprovedQueue.MakeQueue | campus_funding/structures.py:114-116 | a new queue is empty: nothing can be dequeued from it |
| ApprovedQueue.Enqueue | campus_funding/structures.py:119-121 | the entries already queued keep their places and the new entry waits behind all of them |
| ApprovedQueue.Dequeue | campus_funding/structures.py:124-128 | None exactly on an empty queue; otherwise the front entry and the rest make up the old queue |
| ApprovedQueue.WithoutId | campus_funding/main.py:166 | the filtered queue is never longer than the old one, and it is the old queue only when no entry was dropped (which entries go: `ApprovedQueue.WithoutIdCount`) |
| ApprovedQueue.FirstInFirstOut | campus_funding/structures.py:114-128 | dequeuing after an enqueue gives the new entry from an empty queue, and otherwise the old front, with the new entry kept at the back |
| ApprovedQueue.WithoutIdCount | campus_funding/main.py:166 | filtering by id drops every entry with that id and keeps each other entry as often as before |
| ApprovedQueue.WithoutIdMembers | campus_funding/main.py:166 | an entry survives the filter exactly when it was queued and its id differs |
| ApprovedQueue.WithoutIdConcat | campus_funding/app.py:187-189 | filtering works piece by piece, so the kept entries stay in their order |
| ApprovedQueue.WithoutIdDistinct | campus_funding/main.py:166 | filtering keeps a queue free of repeats |
| ApprovedQueue.WithoutIdAt | campus_funding/app.py:187-189 | removing the one entry with the id leaves the entries before it and after it, in order |
| Indices.WithStatusMembers | campus_funding/app.py:82 | the filter by status keeps exactly the requests with that status, and repeats none when the input repeats none |
| Indices.AddUserIndexed | campus_funding/main.py:85-87 | registering a fresh id keeps the user set and dictionary consistent |
| Indices.AddRequest | campus_funding/main.py:110 | storing a request under a fresh id keeps the request dictionary consistent |
| Indices.FreshId | campus_funding/main.py:107-108 | the id made from the counter is not yet a key, and the next counter is above every key including it |
| Indices.HeapAfterPush | campus_funding/main.py:112 | pushing a new stored request keeps the heap a heap of distinct stored requests |
| Indices.HeapAfterPop | campus_funding/main.py:122 | popping keeps the heap a heap of distinct stored requests |
| Indices.RebuildStep | campus_funding/main.py:52-57 | one step of the rebuild inserts the request into the tree, pushes it when submitted and queues it when approved |
| Indices.Rebuild | campus_funding/app.py:34-39 | the rebuild gives the tree of all requests in order, a heap of exactly the submitted ones and a queue of the approved ones in order |
| Indices.NextCounter | campus_funding/main.py:58-67 | the counter is at least one, above the number of every `R<digits>` id, and is one more than such a number when above one |
| Indices.RebuiltConsistent | campus_funding/main.py:50-57 | with distinct requests, the rebuilt heap and queue hold each submitted or approved request exactly once |
| Indices.LoadedCounter | campus_funding/app.py:41-47 | the recomputed counter is above the number of every numbered key of the loaded dictionary |
| Indices.LoadedConsistent | campus_funding/main.py:46-67 | the state filled from the loaded dictionaries is consistent, and its heap and queue hold exactly the submitted and approved requests |
| Indices.LoadIndices | campus_funding/main.py:46-67 | the start-up rebuild of the tree, heap and queue and the recomputed counter give a consistent state whose heap and queue hold exactly the submitted and the approved requests; the counter is one more than the largest number of an `R<digits>` key, or 1 when there is none |
| Indices.SubmitKeepsConsistent | campus_funding/main.py:107-112 | a new request under the counter's id, stored, inserted and pushed, keeps the state consistent |
| Indices.SubmitKeepsStatusIndexed | campus_funding/main.py:109-112 | a new submitted request, pushed, keeps the heap equal to the submitted requests and the queue to the approved ones |
| Engine.FundingEngine.Load | campus_funding/main.py:46-67 | start-up gives a consistent state holding the loaded dictionaries, with the tree, heap and queue rebuilt from the statuses, and the counter one more than the largest number of an `R<digits>` key, or 1 when there is none |
| Engine.FundingEngine.Store | campus_funding/main.py:107-112 | a new request gets the counter's id; the counter moves on; the request enters the dictionary, tree and heap; the rest is unchanged |
| Engine.FundingEngine.Submit | campus_funding/app.py:106-124 | refuses a non-student, then an unparsed amount, then an unparsed urgency, changing nothing; otherwise stores a fresh submitted request `R<counter>` with the given fields in dictionary, tree and heap |
| Engine.FundingEngine.AddUser | campus_funding/main.py:85-87 | the id enters the set, the user the dictionary; nothing else changes |
| Engine.FundingEngine.PopPending | campus_funding/main.py:122 | on an empty heap: None; otherwise the most urgent request with the smallest tied id leaves the heap; nothing else changes |
| Engine.FundingEngine.Decide | campus_funding/main.py:132-140 | approval sets approved and queues the request at the back; otherwise rejected and the queue untouched; nothing else changes |
| Engine.FundingEngine.Fund | campus_funding/main.py:163-166 | the request becomes funded and the queue loses exactly the entries with its id; nothing else changes |
| Engine.FundingEngine.SortedRequests | campus_funding/app.py:50-51 | in a consistent state, `bst.inorder()` is ascending by amount and holds every stored request once |
| Engine.SortedRequestsView | campus_funding/main.py:172-179 | the sorted view lists every stored request once, by ascending amount, equal amounts in submission order |
| Cli.Register | campus_funding/main.py:75-90 | a taken id is refused before the role is looked at, then an unknown role, changing nothing; otherwise the user enters set and dictionary |
| Cli.Review | campus_funding/main.py:116-140 | refuses a non-admin and an empty heap; pops the most urgent request; skips one no longer submitted, which never happens while the loop's consistency holds; otherwise "y" approves and queues it, anything else rejects it, and the status moves along an allowed transition |
| Cli.Donate | campus_funding/main.py:142-170 | refuses a non-donor, an empty queue, an unknown or unapproved request and an unparsed amount, changing nothing; a full donation funds the request and filters its id from the queue; a partial one changes nothing |
| WebApp.Register | campus_funding/app.py:87-103 | an empty id or name or an unknown role is refused first, then a taken id, changing nothing; otherwise the user enters set and dictionary |
| WebApp.AdminReview | campus_funding/app.py:131-142 | refuses a non-admin and an empty heap; otherwise the most urgent request leaves the heap and is returned, with no status changed |
| WebApp.AdminDecide | campus_funding/app.py:145-162 | an unknown id changes nothing; "approve" approves and queues whatever the prior status, anything else rejects |
| WebApp.Donate | campus_funding/app.py:165-195 | refuses an unparsed amount, then a non-donor, then an unknown or unapproved request, changing nothing; a full donation funds and filters the queue; a partial one changes nothing |
| WebApp.Students | campus_funding/app.py:59 | the student list holds exactly the users with role student |
| WebApp.Index | campus_funding/app.py:54-63 | the heap top is missing exactly when the heap is empty; the student list holds exactly the users with role student; in a consistent state the request list is ascending by amount |
| WebApp.IndexPageView | campus_funding/app.py:54-63 | the heap top is missing exactly when nothing is pending, and otherwise is a stored pending request served no later than any other; the sorted list holds every request once, by amount |
| WebApp.AdminPending | campus_funding/app.py:82-83 | the pending list holds the submitted requests with their multiplicities, sorted by descending urgency |
| WebApp.AdminPendingView | campus_funding/app.py:82-83 | the pending list holds exactly the submitted requests, each once, by non-increasing urgency |
| WebApp.AdminPendingStable | campus_funding/app.py:83 | requests of equal urgency keep their dictionary order in the pending list |

## Left out

- Persistence (`campus_funding/storage.py`): reading and writing the JSON file, and the defaults for missing fields. `save_state` has no effect on the in-memory state and is not modelled.
  - `Engine.FundingEngine.Load` takes the two loaded dictionaries, each given as a map with its values in insertion order.
  - It requires that every value is stored under its own id and that the values are distinct objects, as the loader produces them.
  - It requires that a loaded role or status string naming a known role or status has been read as that one (`Models.CanonicalRole`, `Models.CanonicalStatus`), so that `OtherRole` and `Unknown` carry only other names, as the program's string comparisons at `campus_funding/main.py:94` and `campus_funding/main.py:127` treat them.
- Console and web I/O: prompts, `print`, `flash`, `redirect`, the templates and `sys.exit`. Each operation takes the answers as parameters and returns a `Result`.
- Text handling: the stripping of input and `.lower()` of roles and answers are assumed done by the caller. The `input_nonempty` retry loop is not modelled.
- Parsing: `float()` and `int()` become `Option<int>` parameters, `None` when the text does not parse.
  - The web forms' defaults for missing fields ("0" amount, "1" urgency, "0" donation, "no" decision) belong to form reading and are not modelled.
- Amounts are floating point in the program and `int` here; the model compares them only with `<` and `>=`, as the program does.
- Not-a-number amounts and donations are left out. Python's `float()` accepts "nan" at submission (`campus_funding/main.py:98`, `campus_funding/app.py:114`) and at donation (`campus_funding/main.py:158`, `campus_funding/app.py:170`).
  - A request of NaN amount can never be funded: `amt >= req.amount` is false for every donation, and a NaN donation is too small for every request.
  - Every comparison with a NaN node sends the new request right (`campus_funding/structures.py:67`), so with a NaN amount in the tree `inorder()` need not be ascending: inserting NaN, then 5, then 3 lists NaN, 3, 5.
  - `RequestBST.InorderSorted`, `Engine.SortedRequestsView` and the funding branch of `Cli.Donate` and `WebApp.Donate` hold only because every amount here is a number.
- Text.IsDigits accepts the ASCII digits only. Python's `str.isdigit` also accepts other Unicode digits.
- UrgencyHeap.PopHeap: `UrgencyHeap.PushHeap` and `UrgencyHeap.PopHeap` sift entries as `heapq` does, but `heapq.heappop`'s bottom-up sift to a leaf is replaced by the classic sift-down. The layout of the list after a pop may therefore differ from `heapq`'s. The entry popped and the heap's contents are the same.
- `ApprovedQueue.Dequeue` is modelled (with `ApprovedQueue.FirstInFirstOut`), but neither front end calls it.
- The unused `heap_items` list of `admin_page` (campus_funding/app.py:80) is not modelled.
- The `donor_page` view (campus_funding/app.py:66-72) is not modelled. It shows the student list (`WebApp.Students`), the approved queue and the request dictionary's values, all of which the model already has.
- Engine.FundingEngine.Submit: the web `submit` route reports the two parse failures as one error; the model names which number failed.
- Multi-client concurrency of the Flask server, and the Flask application object itself.
