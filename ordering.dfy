/** Stable ordering of requests by an integer key. Two views of the tracker
    are such an ordering: the BST traversal (ascending amount, equal amounts in
    insertion order) and the admin page's pending list (Python's stable
    `sorted` with key `-urgency`). */
module Ordering {
  import opened Models

  datatype Key = ByAmount | ByUrgencyDesc

  function KeyOf(r: FundingRequest, k: Key): int {
    match k
    case ByAmount => r.amount
    case ByUrgencyDesc => -r.urgency
  }

  predicate SortedBy(s: seq<FundingRequest>, k: Key) {
    forall i, j :: 0 <= i < j < |s| ==> KeyOf(s[i], k) <= KeyOf(s[j], k)
  }

  /** Putting `x` in front of a sorted sequence whose keys are all at least
      `x`'s keeps it sorted. */
  lemma SortedCons(x: FundingRequest, t: seq<FundingRequest>, k: Key)
    ensures SortedBy(t, k) && (forall y :: y in t ==> KeyOf(x, k) <= KeyOf(y, k))
        ==> SortedBy([x] + t, k)
  {
    var s := [x] + t;
    if !SortedBy(t, k) || exists y :: y in t && KeyOf(y, k) < KeyOf(x, k) { return; }
    forall i, j | 0 <= i < j < |s| ensures KeyOf(s[i], k) <= KeyOf(s[j], k) {
      if i == 0 {
        assert s[j] == t[j - 1];
        assert s[j] in t;
      } else {
        assert s[i] == t[i - 1] && s[j] == t[j - 1];
      }
    }
  }

  /** Inserts `r` after every leading element whose key is at most `r`'s. */
  function InsertAfter(s: seq<FundingRequest>, r: FundingRequest, k: Key): seq<FundingRequest> {
    if s == [] then [r]
    else if KeyOf(r, k) < KeyOf(s[0], k) then [r] + s
    else [s[0]] + InsertAfter(s[1..], r, k)
  }

  /** Inserting adds exactly `r`. */
  lemma {:induction false} InsertAfterAdds(s: seq<FundingRequest>, r: FundingRequest, k: Key)
    ensures multiset(InsertAfter(s, r, k)) == multiset(s) + multiset{r}
  {
    if s != [] && KeyOf(r, k) >= KeyOf(s[0], k) {
      InsertAfterAdds(s[1..], r, k);
      assert s == [s[0]] + s[1..];
    }
  }

  /** Inserting adds exactly `r`, and keeps a sorted sequence sorted. */
  lemma {:induction false} InsertAfterSorted(s: seq<FundingRequest>, r: FundingRequest, k: Key)
    ensures multiset(InsertAfter(s, r, k)) == multiset(s) + multiset{r}
    ensures SortedBy(s, k) ==> SortedBy(InsertAfter(s, r, k), k)
  {
    InsertAfterAdds(s, r, k);
    if !SortedBy(s, k) || s == [] {
    } else if KeyOf(r, k) < KeyOf(s[0], k) {
      assert forall y :: y in s ==> KeyOf(r, k) <= KeyOf(y, k);
      SortedCons(r, s, k);
    } else {
      var rest := InsertAfter(s[1..], r, k);
      InsertAfterSorted(s[1..], r, k);
      assert SortedBy(s[1..], k);
      assert multiset(rest) == multiset(s[1..]) + multiset{r};
      forall x | x in rest ensures KeyOf(s[0], k) <= KeyOf(x, k) {
        assert x in multiset(rest);
        assert x in s[1..] || x == r;
      }
      SortedCons(s[0], rest, k);
    }
  }

  /** Inserting before a block that starts above `r` leaves the block after. */
  lemma {:induction false} InsertAfterBefore(a: seq<FundingRequest>, b: seq<FundingRequest>, r: FundingRequest, k: Key)
    requires b != [] && KeyOf(r, k) < KeyOf(b[0], k)
    ensures InsertAfter(a + b, r, k) == InsertAfter(a, r, k) + b
  {
    if a == [] {
      assert a + b == b;
    } else {
      assert (a + b)[0] == a[0] && (a + b)[1..] == a[1..] + b;
      if KeyOf(r, k) >= KeyOf(a[0], k) {
        InsertAfterBefore(a[1..], b, r, k);
      }
    }
  }

  /** Inserting after a block whose keys are all at most `r`'s leaves the block
      in front. */
  lemma {:induction false} InsertAfterPast(a: seq<FundingRequest>, b: seq<FundingRequest>, r: FundingRequest, k: Key)
    requires forall i :: 0 <= i < |a| ==> KeyOf(a[i], k) <= KeyOf(r, k)
    ensures InsertAfter(a + b, r, k) == a + InsertAfter(b, r, k)
  {
    if a == [] {
      assert a + b == b;
    } else {
      assert (a + b)[0] == a[0] && (a + b)[1..] == a[1..] + b;
      InsertAfterPast(a[1..], b, r, k);
    }
  }

  /** Stable insertion sort: each element goes after the earlier ones with an
      equal key. */
  function SortBy(s: seq<FundingRequest>, k: Key): seq<FundingRequest> {
    if s == [] then [] else InsertAfter(SortBy(s[..|s| - 1], k), s[|s| - 1], k)
  }

  /** The sort is a sorted permutation of its input. */
  lemma {:induction false} SortBySorted(s: seq<FundingRequest>, k: Key)
    ensures multiset(SortBy(s, k)) == multiset(s)
    ensures SortedBy(SortBy(s, k), k)
  {
    if s != [] {
      var init, last := s[..|s| - 1], s[|s| - 1];
      assert s == init + [last];
      SortBySorted(init, k);
      InsertAfterSorted(SortBy(init, k), last, k);
    }
  }

  /** The elements of `s` whose key is `v`, in their order in `s`. */
  function WithKey(s: seq<FundingRequest>, k: Key, v: int): seq<FundingRequest> {
    if s == [] then []
    else (if KeyOf(s[0], k) == v then [s[0]] else []) + WithKey(s[1..], k, v)
  }

  lemma {:induction false} WithKeyConcat(a: seq<FundingRequest>, b: seq<FundingRequest>, k: Key, v: int)
    ensures WithKey(a + b, k, v) == WithKey(a, k, v) + WithKey(b, k, v)
  {
    if a != [] {
      var head := if KeyOf(a[0], k) == v then [a[0]] else [];
      assert (a + b)[0] == a[0];
      assert (a + b)[1..] == a[1..] + b;
      WithKeyConcat(a[1..], b, k, v);
      calc {
        WithKey(a + b, k, v);
        head + WithKey(a[1..] + b, k, v);
        head + (WithKey(a[1..], k, v) + WithKey(b, k, v));
        (head + WithKey(a[1..], k, v)) + WithKey(b, k, v);
      }
    } else {
      assert a + b == b;
    }
  }

  lemma {:induction false} WithKeyAbove(s: seq<FundingRequest>, k: Key, v: int)
    requires forall i :: 0 <= i < |s| ==> v < KeyOf(s[i], k)
    ensures WithKey(s, k, v) == []
  {
    if s != [] {
      WithKeyAbove(s[1..], k, v);
    }
  }

  /** Inserting in front of a sorted sequence whose first key is above
      `r`'s: only `r` itself can join the elements with key `v`, at the
      end. */
  lemma InsertFrontKeepsArrivalOrder(s: seq<FundingRequest>, r: FundingRequest, k: Key, v: int)
    requires SortedBy(s, k) && s != [] && KeyOf(r, k) < KeyOf(s[0], k)
    ensures WithKey([r] + s, k, v) == WithKey(s, k, v) + (if KeyOf(r, k) == v then [r] else [])
  {
    assert ([r] + s)[0] == r && ([r] + s)[1..] == s;
    if KeyOf(r, k) == v {
      WithKeyAbove(s, k, v);
    }
  }

  /** The tail of a sorted sequence is sorted. */
  lemma SortedTail(s: seq<FundingRequest>, k: Key)
    requires SortedBy(s, k) && s != []
    ensures SortedBy(s[1..], k)
  {
    forall i, j | 0 <= i < j < |s[1..]| ensures KeyOf(s[1..][i], k) <= KeyOf(s[1..][j], k) {
      assert s[1..][i] == s[i + 1] && s[1..][j] == s[j + 1];
    }
  }

  /** Inserting into a sorted sequence places `r` after all elements that share
      its key: the elements with any one key keep their arrival order. */
  lemma {:induction false} InsertAfterKeepsArrivalOrder(s: seq<FundingRequest>, r: FundingRequest, k: Key, v: int)
    requires SortedBy(s, k)
    ensures WithKey(InsertAfter(s, r, k), k, v)
         == WithKey(s, k, v) + (if KeyOf(r, k) == v then [r] else [])
  {
    var tail := if KeyOf(r, k) == v then [r] else [];
    if s == [] {
      assert [r][1..] == [];
    } else if KeyOf(r, k) < KeyOf(s[0], k) {
      InsertFrontKeepsArrivalOrder(s, r, k, v);
    } else {
      var rest := InsertAfter(s[1..], r, k);
      var head := if KeyOf(s[0], k) == v then [s[0]] else [];
      SortedTail(s, k);
      InsertAfterKeepsArrivalOrder(s[1..], r, k, v);
      assert ([s[0]] + rest)[0] == s[0] && ([s[0]] + rest)[1..] == rest;
      calc {
        WithKey(InsertAfter(s, r, k), k, v);
        head + WithKey(rest, k, v);
        head + (WithKey(s[1..], k, v) + tail);
        (head + WithKey(s[1..], k, v)) + tail;
        WithKey(s, k, v) + tail;
      }
    }
  }

  /** The sort is stable: for every key value, the elements with that key come
      out in the order they went in. */
  lemma {:induction false} SortByIsStable(s: seq<FundingRequest>, k: Key, v: int)
    ensures WithKey(SortBy(s, k), k, v) == WithKey(s, k, v)
  {
    if s != [] {
      var init, last := s[..|s| - 1], s[|s| - 1];
      SortByIsStable(init, k, v);
      SortBySorted(init, k);
      InsertAfterKeepsArrivalOrder(SortBy(init, k), last, k, v);
      WithKeyConcat(init, [last], k, v);
      assert s == init + [last];
    }
  }

  /** The sort keeps exactly the elements it is given, and repeats none
      when the input repeats none. */
  lemma SortByMembers(s: seq<FundingRequest>, k: Key)
    ensures forall x :: x in SortBy(s, k) <==> x in s
    ensures Distinct(s) ==> Distinct(SortBy(s, k))
  {
    var t := SortBy(s, k);
    SortBySorted(s, k);
    forall x ensures x in t <==> x in s {
      assert x in t <==> x in multiset(t);
      assert x in s <==> x in multiset(s);
    }
    DistinctCounts(s);
    DistinctCounts(t);
  }
}
