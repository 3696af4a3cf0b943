/**
 Filtering one integer sequence by another.

 MatchVectors(a, b) keeps the elements of `a` whose value occurs nowhere in
 `b`, in their original order and with their duplicates. Only whether a value
 is in `b` matters: how often it occurs there, and values of `b` that never
 occur in `a`, make no difference.
 */
module VectorMatching {

  /** The elements of `a` whose values are not in `b`, in order. */
  function MatchVectors(a: seq<int>, b: seq<int>): (r: seq<int>)
    ensures |r| <= |a|
    ensures forall i :: 0 <= i < |r| ==> r[i] in a && r[i] !in b
    decreases |a|
  {
    if a == [] then []
    else if a[0] in b then MatchVectors(a[1..], b)
    else [a[0]] + MatchVectors(a[1..], b)
  }

  /** Each value is kept exactly as often as it occurs in `a`, unless it is in `b`, when it is dropped entirely. */
  lemma {:induction false} MatchVectorsCount(a: seq<int>, b: seq<int>, x: int)
    ensures multiset(MatchVectors(a, b))[x] == if x in b then 0 else multiset(a)[x]
    decreases |a|
  {
    if a != [] {
      MatchVectorsCount(a[1..], b, x);
      assert a == [a[0]] + a[1..];
      assert multiset(a) == multiset{a[0]} + multiset(a[1..]);
    }
  }

  /** Filtering distributes over concatenation, so the kept elements keep their relative order. */
  lemma {:induction false} MatchVectorsConcat(left: seq<int>, right: seq<int>, b: seq<int>)
    ensures MatchVectors(left + right, b) == MatchVectors(left, b) + MatchVectors(right, b)
    decreases |left|
  {
    if left == [] {
      assert left + right == right;
    } else {
      assert (left + right)[0] == left[0];
      assert (left + right)[1..] == left[1..] + right;
      MatchVectorsConcat(left[1..], right, b);
    }
  }

  /** `a` comes back unchanged exactly when none of its values is in `b`. */
  lemma {:induction false} MatchVectorsKeepsAll(a: seq<int>, b: seq<int>)
    ensures MatchVectors(a, b) == a <==> forall i :: 0 <= i < |a| ==> a[i] !in b
    decreases |a|
  {
    if a != [] {
      MatchVectorsKeepsAll(a[1..], b);
      if a[0] in b {
        assert |MatchVectors(a, b)| < |a|;
      } else {
        assert a == [a[0]] + a[1..];
        assert forall i :: 0 < i < |a| ==> a[i] == a[1..][i - 1];
      }
    }
  }

  /** The result is empty exactly when every value of `a` is in `b`. */
  lemma {:induction false} MatchVectorsDropsAll(a: seq<int>, b: seq<int>)
    ensures MatchVectors(a, b) == [] <==> forall i :: 0 <= i < |a| ==> a[i] in b
    decreases |a|
  {
    if a != [] {
      MatchVectorsDropsAll(a[1..], b);
      assert forall i :: 0 < i < |a| ==> a[i] == a[1..][i - 1];
    }
  }

  /** Nothing is excluded by an empty `b`, and an empty `a` leaves nothing to keep. */
  lemma MatchVectorsEmpty(a: seq<int>, b: seq<int>)
    ensures MatchVectors(a, []) == a
    ensures MatchVectors([], b) == []
  {
    MatchVectorsKeepsAll(a, []);
  }

  /** Two exclusion sequences that agree on the values of `a` filter `a` alike. */
  lemma {:induction false} MatchVectorsMembershipOnly(a: seq<int>, b: seq<int>, b': seq<int>)
    requires forall i :: 0 <= i < |a| ==> (a[i] in b <==> a[i] in b')
    ensures MatchVectors(a, b) == MatchVectors(a, b')
    decreases |a|
  {
    if a != [] {
      assert forall i :: 0 < i < |a| ==> a[i] == a[1..][i - 1];
      MatchVectorsMembershipOnly(a[1..], b, b');
    }
  }

  /** Basic removal: 2 and 4 are dropped from 1..5, and 6, absent from `a`, changes nothing. */
  lemma MatchVectorsBasicExample()
    ensures MatchVectors([1, 2, 3, 4, 5], [2, 4, 6]) == [1, 3, 5]
  {
  }

  /** An empty `b` keeps `a`; an empty `a` gives nothing. */
  lemma MatchVectorsEmptyExamples()
    ensures MatchVectors([7, 8, 9], []) == [7, 8, 9]
    ensures MatchVectors([], [1, 2, 3]) == []
  {
  }

  /** Every value excluded. */
  lemma MatchVectorsAllRemovedExample()
    ensures MatchVectors([1, 1, 2, 2], [1, 2]) == []
  {
  }

  /** Duplicates of a kept value are all kept, in their original places. */
  lemma MatchVectorsDuplicatesExample()
    ensures MatchVectors([3, 3, 2, 3, 1, 3], [2]) == [3, 3, 3, 1, 3]
  {
  }

  /** Values of `b` that are not in `a` have no effect. */
  lemma MatchVectorsExtrasExample()
    ensures MatchVectors([10, 11], [0, 1, 2, 10]) == [11]
  {
  }
}
