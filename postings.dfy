/** Inverted lists (postings lists) of record ids and the reference meaning of
    intersecting them: the filter of one list by membership in the other, and
    its fold over several lists. The merge loops that compute them live in
    module InvertedIndex and are proved equal to these definitions. */
module Postings {

  /** An inverted list: ascending record ids without repetition. */
  predicate StrictlyIncreasing(s: seq<int>) {
    forall i, j :: 0 <= i < j < |s| ==> s[i] < s[j]
  }

  /** The elements of `a` that also occur in `b`, in the order of `a`. */
  function Intersection(a: seq<int>, b: seq<int>): (r: seq<int>)
    ensures forall x :: x in r <==> x in a && x in b
    ensures StrictlyIncreasing(a) ==> StrictlyIncreasing(r)
  {
    if a == [] then []
    else
      var rest := Intersection(a[1..], b);
      if a[0] in b then
        assert StrictlyIncreasing(a) ==> forall k :: 0 <= k < |rest| ==> a[0] < rest[k] by {
          if StrictlyIncreasing(a) {
            forall k | 0 <= k < |rest|
              ensures a[0] < rest[k]
            {
              assert rest[k] in a[1..];
            }
          }
        }
        [a[0]] + rest
      else rest
  }

  /** The intersection of a list of inverted lists; no list means no match. */
  function IntersectAll(lists: seq<seq<int>>): seq<int> {
    if |lists| == 0 then []
    else if |lists| == 1 then lists[0]
    else Intersection(IntersectAll(lists[..|lists| - 1]), lists[|lists| - 1])
  }

  predicate AllStrictlyIncreasing(lists: seq<seq<int>>) {
    forall k :: 0 <= k < |lists| ==> StrictlyIncreasing(lists[k])
  }

  /** `x` is in every one of the lists. */
  predicate InAll(x: int, lists: seq<seq<int>>) {
    forall k :: 0 <= k < |lists| ==> x in lists[k]
  }

  predicate SortedByLength(lists: seq<seq<int>>) {
    forall i, j :: 0 <= i < j < |lists| ==> |lists[i]| <= |lists[j]|
  }

  /** Inserts `l` before the first list that is longer than it. */
  function InsertByLength(l: seq<int>, sorted: seq<seq<int>>): (r: seq<seq<int>>)
    requires SortedByLength(sorted)
    ensures SortedByLength(r)
    ensures |r| == |sorted| + 1 && (r[0] == l || (sorted != [] && r[0] == sorted[0]))
  {
    if sorted == [] then [l]
    else if |l| <= |sorted[0]| then [l] + sorted
    else
      var head, tail := sorted[0], InsertByLength(l, sorted[1..]);
      assert forall k :: 0 <= k < |tail| ==> |head| <= |tail[0]| <= |tail[k]|;
      [head] + tail
  }

  /** The lists ordered by ascending length (`sorted(lists, key=len)`): a
      permutation of the input. */
  function SortByLength(lists: seq<seq<int>>): (r: seq<seq<int>>)
    ensures SortedByLength(r)
    ensures multiset(r) == multiset(lists)
  {
    if lists == [] then []
    else
      var rest := SortByLength(lists[1..]);
      InsertByLengthPermutes(lists[0], rest);
      assert lists == [lists[0]] + lists[1..];
      InsertByLength(lists[0], rest)
  }

  // ---------------------------------------------------------------------------
  // Lemmas

  /** Inserting adds exactly the inserted list. */
  lemma {:induction false} InsertByLengthPermutes(l: seq<int>, sorted: seq<seq<int>>)
    requires SortedByLength(sorted)
    ensures multiset(InsertByLength(l, sorted)) == multiset(sorted) + multiset{l}
  {
    if sorted != [] && |l| > |sorted[0]| {
      var head, tail := sorted[0], sorted[1..];
      InsertByLengthPermutes(l, tail);
      assert sorted == [head] + tail;
      assert InsertByLength(l, sorted) == [head] + InsertByLength(l, tail);
    }
  }

  /** Two inverted lists with the same elements are the same list. */
  lemma {:induction false} SameElementsSameList(a: seq<int>, b: seq<int>)
    requires StrictlyIncreasing(a) && StrictlyIncreasing(b)
    requires forall x :: x in a <==> x in b
    ensures a == b
  {
    if a != [] {
      assert a[0] in a;
    }
    if b != [] {
      assert b[0] in b;
    }
    if a != [] && b != [] {
      assert a[0] in b && b[0] in a;
      var i :| 0 <= i < |b| && b[i] == a[0];
      var j :| 0 <= j < |a| && a[j] == b[0];
      assert a[0] == b[0];
      forall x
        ensures x in a[1..] <==> x in b[1..]
      {
        if x in a[1..] {
          assert x in b && x != b[0];
        }
        if x in b[1..] {
          assert x in a && x != a[0];
        }
      }
      SameElementsSameList(a[1..], b[1..]);
      assert a == [a[0]] + a[1..] && b == [b[0]] + b[1..];
    }
  }

  /** The intersection of two inverted lists is the one inverted list holding
      exactly the elements common to both. */
  lemma IntersectionIs(a: seq<int>, b: seq<int>, r: seq<int>)
    requires StrictlyIncreasing(a) && StrictlyIncreasing(r)
    requires forall x :: x in r <==> x in a && x in b
    ensures Intersection(a, b) == r
  {
    SameElementsSameList(Intersection(a, b), r);
  }

  /** The intersection of two inverted lists does not depend on their order. */
  lemma IntersectionCommutes(a: seq<int>, b: seq<int>)
    requires StrictlyIncreasing(a) && StrictlyIncreasing(b)
    ensures Intersection(a, b) == Intersection(b, a)
  {
    SameElementsSameList(Intersection(a, b), Intersection(b, a));
  }

  /** Intersecting an inverted list with itself gives it back. */
  lemma IntersectionWithItself(a: seq<int>)
    requires StrictlyIncreasing(a)
    ensures Intersection(a, a) == a
  {
    SameElementsSameList(Intersection(a, a), a);
  }

  /** An inverted list has as many elements as its set of elements. */
  lemma {:induction false} DistinctCardinality(s: seq<int>)
    requires StrictlyIncreasing(s)
    ensures |set x | x in s| == |s|
  {
    if s != [] {
      DistinctCardinality(s[1..]);
      assert (set x | x in s) == {s[0]} + (set x | x in s[1..]);
      assert s[0] !in (set x | x in s[1..]);
    }
  }

  /** An inverted list whose elements all occur in another one is no longer. */
  lemma SublistNoLonger(a: seq<int>, b: seq<int>)
    requires StrictlyIncreasing(a) && StrictlyIncreasing(b)
    requires forall x :: x in a ==> x in b
    ensures |a| <= |b|
  {
    DistinctCardinality(a);
    DistinctCardinality(b);
    var sa, sb := set x | x in a, set x | x in b;
    assert sb == sa + (sb - sa) && sa !! (sb - sa);
    assert |sb| == |sa| + |sb - sa|;
  }

  /** The intersection of nonempty many inverted lists is an inverted list
      holding exactly the ids present in all of them. */
  lemma {:induction false} IntersectAllMembers(lists: seq<seq<int>>)
    requires |lists| > 0 && AllStrictlyIncreasing(lists)
    ensures StrictlyIncreasing(IntersectAll(lists))
    ensures forall x :: x in IntersectAll(lists) <==> InAll(x, lists)
  {
    if |lists| > 1 {
      var n := |lists| - 1;
      IntersectAllMembers(lists[..n]);
      forall x
        ensures x in IntersectAll(lists) <==> InAll(x, lists)
      {
        if InAll(x, lists) {
          assert InAll(x, lists[..n]);
        }
        if x in IntersectAll(lists) {
          assert InAll(x, lists[..n]);
          forall k | 0 <= k < |lists|
            ensures x in lists[k]
          {
            if k < n {
              assert lists[..n][k] == lists[k];
            }
          }
        }
      }
    }
  }

  /** The lists can be intersected in any order: a permutation of the lists
      has the same intersection. */
  lemma IntersectAllPermutation(lists: seq<seq<int>>, other: seq<seq<int>>)
    requires |lists| > 0 && AllStrictlyIncreasing(lists)
    requires multiset(lists) == multiset(other)
    ensures IntersectAll(lists) == IntersectAll(other)
  {
    PermutationKeepsSorted(lists, other);
    IntersectAllMembers(lists);
    IntersectAllMembers(other);
    forall x
      ensures InAll(x, lists) <==> InAll(x, other)
    {
      SameListsSameMembership(lists, other, x);
    }
    SameElementsSameList(IntersectAll(lists), IntersectAll(other));
  }

  /** A permutation of inverted lists is a list of inverted lists. */
  lemma PermutationKeepsSorted(lists: seq<seq<int>>, other: seq<seq<int>>)
    requires AllStrictlyIncreasing(lists)
    requires multiset(lists) == multiset(other)
    ensures AllStrictlyIncreasing(other) && |other| == |lists|
  {
    assert |other| == |multiset(other)| == |multiset(lists)| == |lists|;
    forall k | 0 <= k < |other|
      ensures StrictlyIncreasing(other[k])
    {
      assert other[k] in multiset(lists);
    }
  }

  /** Permuting the lists does not change which ids are in all of them. */
  lemma SameListsSameMembership(lists: seq<seq<int>>, other: seq<seq<int>>, x: int)
    requires multiset(lists) == multiset(other)
    ensures InAll(x, lists) <==> InAll(x, other)
  {
    if InAll(x, lists) {
      forall k | 0 <= k < |other|
        ensures x in other[k]
      {
        assert other[k] in multiset(lists);
        var j :| 0 <= j < |lists| && lists[j] == other[k];
      }
    }
    if InAll(x, other) {
      forall k | 0 <= k < |lists|
        ensures x in lists[k]
      {
        assert lists[k] in multiset(other);
        var j :| 0 <= j < |other| && other[j] == lists[k];
      }
    }
  }

  /** The intersection of inverted lists is no longer than any of them. */
  lemma IntersectAllNoLonger(lists: seq<seq<int>>, k: int)
    requires |lists| > 0 && AllStrictlyIncreasing(lists)
    requires 0 <= k < |lists|
    ensures |IntersectAll(lists)| <= |lists[k]|
  {
    IntersectAllMembers(lists);
    SublistNoLonger(IntersectAll(lists), lists[k]);
  }

  /** One empty list empties the intersection. */
  lemma EmptyListNoMatch(lists: seq<seq<int>>, k: int)
    requires AllStrictlyIncreasing(lists)
    requires 0 <= k < |lists| && lists[k] == []
    ensures IntersectAll(lists) == []
  {
    IntersectAllNoLonger(lists, k);
  }

  /** A prefix of an inverted list is an inverted list. */
  lemma PrefixIncreasing(s: seq<int>, t: seq<int>)
    requires StrictlyIncreasing(s) && t <= s
    ensures StrictlyIncreasing(t)
  {
    assert forall k :: 0 <= k < |t| ==> t[k] == s[k];
  }
}
