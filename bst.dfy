/** The amount index: an append-only binary search tree of requests keyed on
    `amount`, with equal amounts sent to the right subtree. Nodes are never
    shared, so the tree is a value and `Insert` returns the new tree. */
module RequestBST {
  import opened Models
  import opened Ordering

  datatype Tree = Leaf | Node(left: Tree, req: FundingRequest, right: Tree)

  /** `x` sits at some node of `t`. */
  predicate Holds(t: Tree, x: FundingRequest) {
    match t
    case Leaf => false
    case Node(l, y, r) => Holds(l, x) || y == x || Holds(r, x)
  }

  /** The number of nodes of `t`. */
  function Size(t: Tree): nat {
    match t
    case Leaf => 0
    case Node(l, _, r) => Size(l) + 1 + Size(r)
  }

  /** The in-order traversal: left subtree, node, right subtree. It has one
      entry per node. */
  function Inorder(t: Tree): (s: seq<FundingRequest>)
    ensures |s| == Size(t)
  {
    match t
    case Leaf => []
    case Node(l, x, r) => Inorder(l) + [x] + Inorder(r)
  }

  /** Every amount in `t` is below `a`. */
  predicate Below(t: Tree, a: int) {
    match t
    case Leaf => true
    case Node(l, x, r) => x.amount < a && Below(l, a) && Below(r, a)
  }

  /** Every amount in `t` is at least `a`. */
  predicate AtLeast(t: Tree, a: int) {
    match t
    case Leaf => true
    case Node(l, x, r) => a <= x.amount && AtLeast(l, a) && AtLeast(r, a)
  }

  /** Search-tree ordering: every amount in a left subtree is below the node's
      amount, every amount in a right subtree is at least the node's. */
  predicate Ordered(t: Tree) {
    match t
    case Leaf => true
    case Node(l, x, r) => Ordered(l) && Ordered(r) && Below(l, x.amount) && AtLeast(r, x.amount)
  }

  /** `RequestBST.insert`: walk down by amount, equal amounts to the right,
      and hang a new node where the walk ends. */
  function Insert(t: Tree, x: FundingRequest): (u: Tree)
    ensures Size(u) == Size(t) + 1
    ensures Holds(u, x)
  {
    match t
    case Leaf => Node(Leaf, x, Leaf)
    case Node(l, y, r) =>
      if x.amount < y.amount then Node(Insert(l, x), y, r)
      else Node(l, y, Insert(r, x))
  }

  /** Inserting an amount below (at least) `a` keeps every amount below (at
      least) `a`. */
  lemma {:induction false} InsertBounds(t: Tree, x: FundingRequest, a: int)
    ensures Below(t, a) && x.amount < a ==> Below(Insert(t, x), a)
    ensures AtLeast(t, a) && a <= x.amount ==> AtLeast(Insert(t, x), a)
  {
    if t.Node? {
      InsertBounds(t.left, x, a);
      InsertBounds(t.right, x, a);
    }
  }

  /** `insert` preserves the search-tree ordering. */
  lemma {:induction false} InsertKeepsOrder(t: Tree, x: FundingRequest)
    requires Ordered(t)
    ensures Ordered(Insert(t, x))
  {
    match t
    case Leaf =>
    case Node(l, y, r) =>
      if x.amount < y.amount {
        InsertKeepsOrder(l, x);
        InsertBounds(l, x, y.amount);
      } else {
        InsertKeepsOrder(r, x);
        InsertBounds(r, x, y.amount);
      }
  }

  /** `insert` adds exactly one entry and drops none. */
  lemma {:induction false} InsertAddsOne(t: Tree, x: FundingRequest)
    ensures multiset(Inorder(Insert(t, x))) == multiset(Inorder(t)) + multiset{x}
  {
    if t.Node? {
      var l, y, r := t.left, t.req, t.right;
      if x.amount < y.amount {
        var l' := Insert(l, x);
        InsertAddsOne(l, x);
        assert Insert(t, x) == Node(l', y, r);
        NodeMembers(l', y, r);
        NodeMembers(l, y, r);
      } else {
        var r' := Insert(r, x);
        InsertAddsOne(r, x);
        assert Insert(t, x) == Node(l, y, r');
        NodeMembers(l, y, r');
        NodeMembers(l, y, r);
      }
    }
  }

  /** The traversal of a node holds the left subtree's, the node's and the
      right subtree's requests. */
  lemma NodeMembers(l: Tree, y: FundingRequest, r: Tree)
    ensures multiset(Inorder(Node(l, y, r))) == multiset(Inorder(l)) + multiset{y} + multiset(Inorder(r))
  {
  }

  lemma {:induction false} BelowInorder(t: Tree, a: int)
    requires Below(t, a)
    ensures forall z :: z in Inorder(t) ==> z.amount < a
  {
    if t.Node? {
      BelowInorder(t.left, a);
      BelowInorder(t.right, a);
    }
  }

  lemma {:induction false} AtLeastInorder(t: Tree, a: int)
    requires AtLeast(t, a)
    ensures forall z :: z in Inorder(t) ==> a <= z.amount
  {
    if t.Node? {
      AtLeastInorder(t.left, a);
      AtLeastInorder(t.right, a);
    }
  }

  /** `inorder()` of a search tree lists the requests by ascending amount. */
  lemma {:induction false} InorderSorted(t: Tree)
    requires Ordered(t)
    ensures SortedBy(Inorder(t), ByAmount)
  {
    match t
    case Leaf =>
    case Node(l, x, r) =>
      InorderSorted(l);
      InorderSorted(r);
      BelowInorder(l, x.amount);
      AtLeastInorder(r, x.amount);
      var s := Inorder(t);
      var L, R := Inorder(l), Inorder(r);
      assert s == L + [x] + R;
      forall i, j | 0 <= i < j < |s| ensures s[i].amount <= s[j].amount {
        if j < |L| {
          assert s[i] == L[i] && s[j] == L[j];
        } else if i > |L| {
          assert s[i] == R[i - |L| - 1] && s[j] == R[j - |L| - 1];
        } else {
          assert i < |L| ==> s[i] == L[i] && s[i] in L;
          assert j > |L| ==> s[j] == R[j - |L| - 1] && s[j] in R;
        }
      }
  }

  /** The traversal after an insert is the old traversal with the new request
      placed after every request of smaller or equal amount: a later request
      follows the earlier ones with the same amount. */
  lemma {:induction false} InsertInorder(t: Tree, x: FundingRequest)
    requires Ordered(t)
    ensures Inorder(Insert(t, x)) == InsertAfter(Inorder(t), x, ByAmount)
  {
    if t.Node? {
      var l, y, r := t.left, t.req, t.right;
      if x.amount < y.amount {
        InsertInorder(l, x);
        assert Insert(t, x) == Node(Insert(l, x), y, r);
        InsertInorderLeft(Inorder(l), y, Inorder(r), x);
      } else {
        InsertInorder(r, x);
        BelowInorder(l, y.amount);
        assert Insert(t, x) == Node(l, y, Insert(r, x));
        InsertInorderRight(Inorder(l), y, Inorder(r), x);
      }
    }
  }

  /** The left-branch step: inserting into the left part of `L + [y] + R`
      when the new amount is below `y`'s. */
  lemma InsertInorderLeft(L: seq<FundingRequest>, y: FundingRequest, R: seq<FundingRequest>, x: FundingRequest)
    requires x.amount < y.amount
    ensures InsertAfter(L, x, ByAmount) + [y] + R == InsertAfter(L + [y] + R, x, ByAmount)
  {
    InsertAfterBefore(L, [y] + R, x, ByAmount);
    assert L + [y] + R == L + ([y] + R);
  }

  /** The right-branch step: inserting into the right part of `L + [y] + R`
      when every amount of `L` is below `y`'s and the new one is at least it. */
  lemma InsertInorderRight(L: seq<FundingRequest>, y: FundingRequest, R: seq<FundingRequest>, x: FundingRequest)
    requires y.amount <= x.amount
    requires forall z :: z in L ==> z.amount < y.amount
    ensures L + [y] + InsertAfter(R, x, ByAmount) == InsertAfter(L + [y] + R, x, ByAmount)
  {
    forall i | 0 <= i < |L + [y]| ensures KeyOf((L + [y])[i], ByAmount) <= KeyOf(x, ByAmount) {
      if i < |L| {
        assert (L + [y])[i] == L[i] && L[i] in L;
      }
    }
    InsertAfterPast(L + [y], R, x, ByAmount);
    assert L + [y] + R == (L + [y]) + R;
  }

  /** The tree obtained by inserting `rs` one after another into an empty tree. */
  function Build(rs: seq<FundingRequest>): Tree {
    if rs == [] then Leaf else Insert(Build(rs[..|rs| - 1]), rs[|rs| - 1])
  }

  /** Building from one more request inserts it into the tree built so far. */
  lemma BuildSnoc(rs: seq<FundingRequest>, r: FundingRequest)
    ensures Build(rs + [r]) == Insert(Build(rs), r)
  {
    assert (rs + [r])[..|rs|] == rs;
  }

  /** After any sequence of inserts the tree is a search tree and its traversal
      is the stable sort of the inserted requests by amount: each inserted
      request exactly once, ascending, equal amounts in insertion order. */
  lemma {:induction false} BuildInorder(rs: seq<FundingRequest>)
    ensures Ordered(Build(rs))
    ensures Inorder(Build(rs)) == SortBy(rs, ByAmount)
  {
    if rs != [] {
      var init := rs[..|rs| - 1];
      BuildInorder(init);
      InsertKeepsOrder(Build(init), rs[|rs| - 1]);
      InsertInorder(Build(init), rs[|rs| - 1]);
    }
  }

  /** What the traversal promises, stated without the sort: ascending by
      amount, the inserted requests with their multiplicities, and for each
      amount the requests in the order they were inserted. */
  lemma InorderOfInserts(rs: seq<FundingRequest>, amount: int)
    ensures SortedBy(Inorder(Build(rs)), ByAmount)
    ensures multiset(Inorder(Build(rs))) == multiset(rs)
    ensures WithKey(Inorder(Build(rs)), ByAmount, amount) == WithKey(rs, ByAmount, amount)
  {
    BuildInorder(rs);
    SortBySorted(rs, ByAmount);
    SortByIsStable(rs, ByAmount, amount);
  }
}
