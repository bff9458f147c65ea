/**
 * What it means to sort the closed index range [lo, hi] of a sequence of
 * ints in place: the range is non-decreasing, its values are a rearrangement
 * of the values it held before, and every slot outside it is unchanged.
 * The methods of module Quicksort are specified with these predicates, and
 * the lemmas below are what their proofs, and their callers, rely on.
 */
module SortSpec {

  /** s[lo..hi] (both ends included) is non-decreasing. */
  ghost predicate Sorted(s: seq<int>, lo: int, hi: int)
    requires 0 <= lo && hi < |s|
  {
    forall i, j :: lo <= i <= j <= hi ==> s[i] <= s[j]
  }

  /** The form of sortedness a left-to-right scan checks: each slot is at least its left neighbour. */
  ghost predicate AdjacentSorted(s: seq<int>, lo: int, hi: int)
    requires 0 <= lo && hi < |s|
  {
    forall i :: lo < i <= hi ==> s[i - 1] <= s[i]
  }

  /** Every value in s[lo..hi] is at most x. */
  ghost predicate AllAtMost(s: seq<int>, lo: int, hi: int, x: int)
    requires 0 <= lo && hi < |s|
  {
    forall k :: lo <= k <= hi ==> s[k] <= x
  }

  /** Every value in s[lo..hi] is at least x. */
  ghost predicate AllAtLeast(s: seq<int>, lo: int, hi: int, x: int)
    requires 0 <= lo && hi < |s|
  {
    forall k :: lo <= k <= hi ==> x <= s[k]
  }

  /**
   * Every slot below lo holds a value at most every value in s[lo..hi].
   * This is what lets an insertion sort whose shift loop stops only at
   * index 0 stay inside [lo, hi].
   */
  ghost predicate BelowBounded(s: seq<int>, lo: int, hi: int)
    requires 0 <= lo && hi < |s|
  {
    forall k, m :: 0 <= k < lo <= m <= hi ==> s[k] <= s[m]
  }

  /** t is s with the values of s[lo..hi] rearranged and every other slot unchanged. */
  ghost predicate PermutedWithin(t: seq<int>, s: seq<int>, lo: int, hi: int)
    requires 0 <= lo <= hi + 1 <= |s|
  {
    && |t| == |s|
    && (forall k :: 0 <= k < lo ==> t[k] == s[k])
    && (forall k :: hi < k < |s| ==> t[k] == s[k])
    && multiset(t) == multiset(s)
  }

  /** A range is sorted exactly when every adjacent pair in it is in order. */
  lemma {:induction false} SortedIffAdjacent(s: seq<int>, lo: int, hi: int)
    requires 0 <= lo && hi < |s|
    ensures Sorted(s, lo, hi) <==> AdjacentSorted(s, lo, hi)
  {
    if lo < hi {
      SortedIffAdjacent(s, lo, hi - 1);
      if AdjacentSorted(s, lo, hi) {
        assert Sorted(s, lo, hi - 1);
        forall i, j | lo <= i <= j <= hi
          ensures s[i] <= s[j]
        {
          if i < j == hi {
            assert s[i] <= s[hi - 1];
          }
        }
      }
    }
  }

  /** A rearrangement of a rearrangement is a rearrangement. */
  lemma PermutedTransitive(u: seq<int>, t: seq<int>, s: seq<int>, lo: int, hi: int)
    requires 0 <= lo <= hi + 1 <= |s|
    requires PermutedWithin(t, s, lo, hi) && PermutedWithin(u, t, lo, hi)
    ensures PermutedWithin(u, s, lo, hi)
  {
  }

  /** A rearrangement inside [lo, hi] is one inside any wider range. */
  lemma PermutedWiden(t: seq<int>, s: seq<int>, lo: int, hi: int, lo': int, hi': int)
    requires 0 <= lo' <= lo && lo <= hi + 1 && hi <= hi' < |s|
    requires PermutedWithin(t, s, lo, hi)
    ensures PermutedWithin(t, s, lo', hi')
  {
  }

  /** Rearranging inside [lo, hi] and nowhere else keeps the multiset of that range. */
  lemma RangeMultiset(t: seq<int>, s: seq<int>, lo: int, hi: int)
    requires 0 <= lo <= hi + 1 <= |s|
    requires PermutedWithin(t, s, lo, hi)
    ensures multiset(t[lo..hi + 1]) == multiset(s[lo..hi + 1])
  {
    assert t[..lo] == s[..lo];
    assert t[hi + 1..] == s[hi + 1..];
    assert t == t[..lo] + t[lo..hi + 1] + t[hi + 1..];
    assert s == s[..lo] + s[lo..hi + 1] + s[hi + 1..];
    assert multiset(t[lo..hi + 1]) == multiset(t) - multiset(t[..lo]) - multiset(t[hi + 1..]);
    assert multiset(s[lo..hi + 1]) == multiset(s) - multiset(s[..lo]) - multiset(s[hi + 1..]);
  }

  /** Every value of the rearranged range is a value the range held before. */
  lemma PermutedWithinValues(t: seq<int>, s: seq<int>, lo: int, hi: int)
    requires 0 <= lo <= hi + 1 <= |s|
    requires PermutedWithin(t, s, lo, hi)
    ensures forall m :: lo <= m <= hi ==> exists k :: lo <= k <= hi && t[m] == s[k]
  {
    RangeMultiset(t, s, lo, hi);
    forall m | lo <= m <= hi
      ensures exists k :: lo <= k <= hi && t[m] == s[k]
    {
      var u, v := t[lo..hi + 1], s[lo..hi + 1];
      assert t[m] == u[m - lo];
      assert t[m] in multiset(u);
      assert t[m] in v;
      var i :| 0 <= i < |v| && v[i] == t[m];
      assert s[lo + i] == t[m];
    }
  }

  /** Bounds on the values of a range survive rearranging it. */
  lemma PermutedKeepsBounds(t: seq<int>, s: seq<int>, lo: int, hi: int, x: int)
    requires 0 <= lo <= hi + 1 <= |s|
    requires PermutedWithin(t, s, lo, hi)
    ensures AllAtMost(s, lo, hi, x) ==> AllAtMost(t, lo, hi, x)
    ensures AllAtLeast(s, lo, hi, x) ==> AllAtLeast(t, lo, hi, x)
  {
    PermutedWithinValues(t, s, lo, hi);
  }

  /** Rearranging [lo, hi] keeps every slot below lo at most every value of the range. */
  lemma PermutedKeepsBelowBounded(t: seq<int>, s: seq<int>, lo: int, hi: int)
    requires 0 <= lo <= hi + 1 <= |s|
    requires PermutedWithin(t, s, lo, hi)
    requires BelowBounded(s, lo, hi)
    ensures BelowBounded(t, lo, hi)
  {
    PermutedWithinValues(t, s, lo, hi);
  }

  /** Once a rearranged range is sorted, its last slot holds its largest value. */
  lemma SortedLastIsMax(t: seq<int>, s: seq<int>, lo: int, hi: int)
    requires 0 <= lo <= hi < |s|
    requires PermutedWithin(t, s, lo, hi)
    requires Sorted(t, lo, hi)
    ensures forall m :: lo <= m <= hi ==> s[m] <= t[hi]
  {
    PermutedWithinValues(s, t, lo, hi);
  }

  /** The first value of a sorted sequence is at most each of its values. */
  lemma SortedHeadIsMin(s: seq<int>, x: int)
    requires Sorted(s, 0, |s| - 1)
    requires x in s
    ensures s[0] <= x
  {
    var i :| 0 <= i < |s| && s[i] == x;
    assert s[0] <= s[i];
  }

  /** Dropping the first value of a sorted sequence leaves it sorted. */
  lemma SortedTail(s: seq<int>)
    requires s != [] && Sorted(s, 0, |s| - 1)
    ensures Sorted(s[1..], 0, |s| - 2)
  {
    forall i, j | 0 <= i <= j <= |s| - 2
      ensures s[1..][i] <= s[1..][j]
    {
      assert s[1..][i] == s[i + 1] && s[1..][j] == s[j + 1];
    }
  }

  /** Removing the first value of a sequence removes one occurrence of it from the multiset. */
  lemma TailMultiset(s: seq<int>)
    requires s != []
    ensures multiset(s[1..]) == multiset(s) - multiset{s[0]}
  {
    assert s == [s[0]] + s[1..];
  }

  /** Two non-empty sorted sequences with the same multiset of values start with the same value. */
  lemma SortedHeadsEqual(s: seq<int>, t: seq<int>)
    requires s != [] && t != []
    requires Sorted(s, 0, |s| - 1) && Sorted(t, 0, |t| - 1)
    requires multiset(s) == multiset(t)
    ensures s[0] == t[0]
  {
    assert s[0] in multiset(t) && t[0] in multiset(s);
    SortedHeadIsMin(s, t[0]);
    SortedHeadIsMin(t, s[0]);
  }

  /** Two sorted sequences with the same multiset of values are equal. */
  lemma {:induction false} SortedSeqUnique(s: seq<int>, t: seq<int>)
    requires Sorted(s, 0, |s| - 1) && Sorted(t, 0, |t| - 1)
    requires multiset(s) == multiset(t)
    ensures s == t
  {
    assert |s| == |t| by {
      assert |multiset(s)| == |multiset(t)|;
    }
    if s != [] {
      SortedHeadsEqual(s, t);
      TailMultiset(s);
      TailMultiset(t);
      SortedTail(s);
      SortedTail(t);
      var s', t' := s[1..], t[1..];
      SortedSeqUnique(s', t');
      forall k | 0 < k < |s|
        ensures s[k] == t[k]
      {
        assert s[k] == s'[k - 1] && t[k] == t'[k - 1];
      }
    }
  }

  /**
   * Sorting is determined by its input: a sorted rearrangement of [lo, hi]
   * that changes nothing outside it is unique. So sorting an already sorted
   * range changes nothing, sorting twice gives what sorting once gives, and
   * any two correct sorts of a range agree.
   */
  lemma SortedPermutationUnique(t: seq<int>, s: seq<int>, lo: int, hi: int)
    requires 0 <= lo <= hi + 1 <= |s|
    requires PermutedWithin(t, s, lo, hi)
    requires Sorted(t, lo, hi) && Sorted(s, lo, hi)
    ensures t == s
  {
    RangeMultiset(t, s, lo, hi);
    var u, v := t[lo..hi + 1], s[lo..hi + 1];
    SortedSlice(t, lo, hi);
    SortedSlice(s, lo, hi);
    SortedSeqUnique(u, v);
    forall k | 0 <= k < |t|
      ensures t[k] == s[k]
    {
      if lo <= k <= hi {
        assert t[k] == u[k - lo] && s[k] == v[k - lo];
      }
    }
  }

  /** The slice of a sorted range is a sorted sequence. */
  lemma SortedSlice(s: seq<int>, lo: int, hi: int)
    requires 0 <= lo <= hi + 1 <= |s|
    requires Sorted(s, lo, hi)
    ensures Sorted(s[lo..hi + 1], 0, hi - lo)
  {
    var u := s[lo..hi + 1];
    forall i, j | 0 <= i <= j <= hi - lo
      ensures u[i] <= u[j]
    {
      assert u[i] == s[lo + i] && u[j] == s[lo + j];
    }
  }

  /** A range of at most one slot has only one rearrangement: leaving it as it is. */
  lemma ShortRangeUnchanged(t: seq<int>, s: seq<int>, lo: int, hi: int)
    requires 0 <= lo <= hi + 1 <= |s| && hi <= lo
    requires PermutedWithin(t, s, lo, hi)
    ensures t == s
  {
    SortedPermutationUnique(t, s, lo, hi);
  }

  /** Two sorted pieces separated by a value x make one sorted range. */
  lemma SortedGlue(s: seq<int>, lo: int, mid: int, hi: int, x: int)
    requires 0 <= lo <= mid <= hi + 1 <= |s|
    requires Sorted(s, lo, mid - 1) && AllAtMost(s, lo, mid - 1, x)
    requires Sorted(s, mid, hi) && AllAtLeast(s, mid, hi, x)
    ensures Sorted(s, lo, hi)
  {
    forall i, j | lo <= i <= j <= hi
      ensures s[i] <= s[j]
    {
      if i < mid <= j {
        assert s[i] <= x <= s[j];
      }
    }
  }
}
