/**
 * An in-place three-pivot quicksort of an int array, after Kushagra et al.,
 * "Multi-Pivot Quicksort: Theory and Experiments". Ranges are closed:
 * [lo, hi] means the slots lo, lo + 1, ..., hi. Ranges shorter than the
 * threshold are insertion-sorted; longer ones are split around three pivots
 * p <= q <= r into the parts below p, between p and q, between q and r, and
 * above r, and each part is sorted recursively.
 */
module Quicksort {
  import opened SortSpec

  /** Ranges with hi - lo below this are insertion-sorted. */
  const InsertionSortThreshold := 47

  /** s with the values at i and j exchanged. */
  ghost function Swapped(s: seq<int>, i: int, j: int): (t: seq<int>)
    requires 0 <= i < |s| && 0 <= j < |s|
    ensures |t| == |s| && t[i] == s[j] && t[j] == s[i]
    ensures forall k :: 0 <= k < |s| && k != i && k != j ==> t[k] == s[k]
  {
    s[i := s[j]][j := s[i]]
  }

  /** Exchanging two values keeps the multiset of values. */
  lemma SwappedPermutes(s: seq<int>, s0: seq<int>, lo: int, hi: int, i: int, j: int)
    requires 0 <= lo <= i <= hi < |s0| && lo <= j <= hi
    requires PermutedWithin(s, s0, lo, hi)
    ensures PermutedWithin(Swapped(s, i, j), s0, lo, hi)
  {
    assert multiset(Swapped(s, i, j)) == multiset(s);
  }

  /** Exchanges A[i] and A[j] (i == j is allowed and changes nothing). */
  method Swap(A: array<int>, i: int, j: int)
    requires 0 <= i < A.Length && 0 <= j < A.Length
    modifies A
    ensures A[..] == Swapped(old(A[..]), i, j)
  {
    var temp := A[i];
    A[i] := A[j];
    A[j] := temp;
  }

  /**
   * Sorts A[lo..hi] by insertion. The shift loop stops at index 0, not at lo,
   * so the slots below lo stay untouched here because every value there is at
   * most every value of the range (BelowBounded), and the comparison is strict.
   */
  method InsertionSort(A: array<int>, lo: int, hi: int)
    requires 0 <= lo <= hi + 1 <= A.Length
    requires BelowBounded(A[..], lo, hi)
    modifies A
    ensures Sorted(A[..], lo, hi)
    ensures PermutedWithin(A[..], old(A[..]), lo, hi)
    ensures hi <= lo ==> A[..] == old(A[..])
  {
    var i := lo + 1;
    while i < hi + 1
      invariant lo < i && (lo <= hi ==> i <= hi + 1)
      invariant lo <= hi ==> Sorted(A[..], lo, i - 1)
      invariant PermutedWithin(A[..], old(A[..]), lo, hi)
      invariant BelowBounded(A[..], lo, hi)
    {
      ghost var s := A[..];
      InsertOne(A, lo, hi, i);
      PermutedTransitive(A[..], s, old(A[..]), lo, hi);
      i := i + 1;
    }
    if hi <= lo {
      ShortRangeUnchanged(A[..], old(A[..]), lo, hi);
    }
  }

  /**
   * One pass of the outer insertion-sort loop: the value at i is moved down
   * past every larger value before it, which shift up by one slot.
   */
  method InsertOne(A: array<int>, lo: int, hi: int, i: int)
    requires 0 <= lo < i <= hi < A.Length
    requires Sorted(A[..], lo, i - 1) && BelowBounded(A[..], lo, hi)
    modifies A
    ensures Sorted(A[..], lo, i) && BelowBounded(A[..], lo, hi)
    ensures PermutedWithin(A[..], old(A[..]), lo, i)
    ensures PermutedWithin(A[..], old(A[..]), lo, hi)
  {
    var valueToSort := A[i];
    var j := i;
    ghost var s0 := A[..];
    ghost var u := s0;
    assert s0[i] == valueToSort;
    while j > 0 && A[j - 1] > valueToSort
      invariant lo <= j <= i
      invariant A[..] == u && |u| == |s0|
      invariant forall k :: 0 <= k < lo ==> u[k] <= valueToSort
      invariant forall k :: 0 <= k <= j ==> u[k] == s0[k]
      invariant forall k :: j < k <= i ==> u[k] == s0[k - 1]
      invariant forall k :: j <= k < i ==> s0[k] > valueToSort
      invariant forall k :: i < k < |u| ==> u[k] == s0[k]
    {
      A[j] := A[j - 1];
      u := u[j := u[j - 1]];
      j := j - 1;
    }
    assert j == lo || s0[j - 1] <= valueToSort;
    A[j] := valueToSort;
    ghost var t := A[..];
    InsertionStep(t, u, s0, lo, hi, i, j, valueToSort);
  }

  /**
   * One pass of the outer insertion-sort loop: u is s0 with s0[j..i - 1]
   * shifted up by one slot, and t is u with v == s0[i] written to slot j. If
   * s0[lo..i - 1] was sorted and the shifted values are exactly those above
   * v, then t[lo..i] is sorted, and t is a rearrangement of s0 inside [lo, hi].
   */
  lemma InsertionStep(t: seq<int>, u: seq<int>, s0: seq<int>, lo: int, hi: int, i: int, j: int, v: int)
    requires 0 <= lo <= j <= i <= hi < |s0| == |u|
    requires Sorted(s0, lo, i - 1) && BelowBounded(s0, lo, hi)
    requires v == s0[i]
    requires forall k :: 0 <= k <= j ==> u[k] == s0[k]
    requires forall k :: j < k <= i ==> u[k] == s0[k - 1]
    requires forall k :: j <= k < i ==> s0[k] > v
    requires forall k :: i < k < |u| ==> u[k] == s0[k]
    requires j == lo || s0[j - 1] <= v
    requires t == u[j := v]
    ensures Sorted(t, lo, i) && BelowBounded(t, lo, hi)
    ensures PermutedWithin(t, s0, lo, i) && PermutedWithin(t, s0, lo, hi)
  {
    InsertionStepPermutes(t, s0, i, j);
    forall x, y | lo <= x <= y <= i
      ensures t[x] <= t[y]
    {
      if x < j && j <= y {
        assert t[x] <= s0[j - 1] <= s0[i];
      }
    }
    forall k, m | 0 <= k < lo <= m <= hi
      ensures t[k] <= t[m]
    {
      if j < m <= i {
        assert s0[k] <= s0[m - 1];
      } else if m == j {
        assert s0[k] <= s0[i];
      }
    }
  }

  /** Moving s0[i] down to slot j and shifting s0[j..i - 1] up by one keeps the multiset. */
  lemma InsertionStepPermutes(t: seq<int>, s0: seq<int>, i: int, j: int)
    requires 0 <= j <= i < |s0| == |t|
    requires forall k :: 0 <= k < j ==> t[k] == s0[k]
    requires t[j] == s0[i]
    requires forall k :: j < k <= i ==> t[k] == s0[k - 1]
    requires forall k :: i < k < |t| ==> t[k] == s0[k]
    ensures multiset(t) == multiset(s0)
  {
    assert t[..j] == s0[..j];
    assert t[j + 1..i + 1] == s0[j..i];
    assert t[i + 1..] == s0[i + 1..];
    assert t == t[..j] + [t[j]] + t[j + 1..i + 1] + t[i + 1..];
    assert s0 == s0[..j] + s0[j..i] + [s0[i]] + s0[i + 1..];
  }

  /**
   * The middle index (lo + hi) >>> 1, for non-negative bounds. It splits the
   * range into two halves whose sizes differ by at most one, and on a range
   * long enough to be partitioned it lies strictly between lo + 1 and hi.
   */
  function Midpoint(lo: int, hi: int): (m: int)
    requires 0 <= lo <= hi
    ensures lo <= m <= hi
    ensures m - lo <= hi - m <= m - lo + 1
    ensures InsertionSortThreshold <= hi - lo ==> lo + 1 < m < hi
  {
    (lo + hi) / 2
  }

  /**
   * The three conditional swaps that order A[lo], A[mid], A[hi]: a sorting
   * network for three slots. Nothing else changes.
   */
  method SortThree(A: array<int>, lo: int, mid: int, hi: int)
    requires 0 <= lo < mid < hi < A.Length
    modifies A
    ensures A[lo] <= A[mid] <= A[hi]
    ensures multiset{A[lo], A[mid], A[hi]} == multiset{old(A[lo]), old(A[mid]), old(A[hi])}
    ensures forall k :: 0 <= k < A.Length && k != lo && k != mid && k != hi ==> A[k] == old(A[k])
    ensures PermutedWithin(A[..], old(A[..]), lo, hi)
  {
    ghost var s := A[..];
    if A[lo] > A[mid] {
      ghost var s0 := A[..];
      Swap(A, lo, mid);
      SwappedPermutes(s0, s, lo, hi, lo, mid);
      SwappedKeepsThree(s0, lo, mid, hi, lo, mid);
    }
    if A[mid] > A[hi] {
      ghost var s1 := A[..];
      Swap(A, mid, hi);
      SwappedPermutes(s1, s, lo, hi, mid, hi);
      SwappedKeepsThree(s1, lo, mid, hi, mid, hi);
    }
    if A[lo] > A[mid] {
      ghost var s2 := A[..];
      Swap(A, lo, mid);
      SwappedPermutes(s2, s, lo, hi, lo, mid);
      SwappedKeepsThree(s2, lo, mid, hi, lo, mid);
    }
  }

  /** Exchanging two of the three slots lo, mid, hi keeps the three values they hold. */
  lemma SwappedKeepsThree(s: seq<int>, lo: int, mid: int, hi: int, i: int, j: int)
    requires 0 <= lo < mid < hi < |s|
    requires (i == lo && j == mid) || (i == mid && j == hi)
    ensures var t := Swapped(s, i, j);
      multiset{t[lo], t[mid], t[hi]} == multiset{s[lo], s[mid], s[hi]}
  {
  }

  /**
   * Median-of-three pivot choice: orders A[lo], A[mid], A[hi], reads the
   * pivots p <= q <= r off them, then moves q to lo + 1 by exchanging it with
   * the value there.
   */
  method SelectPivots(A: array<int>, lo: int, hi: int) returns (p: int, q: int, r: int)
    requires 0 <= lo && InsertionSortThreshold <= hi - lo && hi < A.Length
    modifies A
    ensures p <= q <= r
    ensures multiset{p, q, r} == multiset{old(A[lo]), old(A[Midpoint(lo, hi)]), old(A[hi])}
    ensures A[lo] == p && A[lo + 1] == q && A[hi] == r
    ensures A[Midpoint(lo, hi)] == old(A[lo + 1])
    ensures forall k :: 0 <= k < A.Length && k != lo && k != lo + 1 && k != Midpoint(lo, hi) && k != hi ==>
      A[k] == old(A[k])
    ensures PermutedWithin(A[..], old(A[..]), lo, hi)
  {
    var midpoint := Midpoint(lo, hi);
    SortThree(A, lo, midpoint, hi);
    p := A[lo];
    q := A[midpoint];
    r := A[hi];
    Swap(A, lo + 1, midpoint);
  }

  /** The cursor bounds the partition loop keeps. */
  ghost predicate CursorBounds(lo: int, hi: int, a: int, b: int, c: int, d: int)
  {
    lo + 2 <= a <= b <= c + 2 && b <= d + 1 && c <= d <= hi - 1
  }

  /**
   * The partition loop's classification of the range: the pivots are parked
   * at lo, lo + 1 and hi; [lo + 2, a) holds values below p, [a, b) values in
   * [p, q], (c, d] values in [q, r] and (d, hi - 1] values above r. The
   * slots [b, c] are not yet classified.
   */
  ghost predicate Classified(s: seq<int>, lo: int, hi: int, p: int, q: int, r: int,
                             a: int, b: int, c: int, d: int)
    requires 0 <= lo && hi < |s| && CursorBounds(lo, hi, a, b, c, d)
  {
    && s[lo] == p && s[lo + 1] == q && s[hi] == r
    && (forall k :: lo + 2 <= k < a ==> s[k] < p)
    && (forall k :: a <= k < b ==> p <= s[k] <= q)
    && (forall k :: c < k <= d ==> q <= s[k] <= r)
    && (forall k :: d < k < hi ==> r < s[k])
  }

  /**
   * What the partition leaves: p at a, q at b and r at d; the slots of [lo, a)
   * hold values below p, (a, b) values in [p, q], (b, d) values in [q, r] and
   * (d, hi] values above r; c, where the third recursive range starts, is b
   * or b + 1.
   */
  ghost predicate Partitioned(s: seq<int>, lo: int, hi: int, p: int, q: int, r: int,
                              a: int, b: int, c: int, d: int)
    requires 0 <= lo && hi < |s|
  {
    && lo <= a < b < d <= hi && (c == b || c == b + 1) && c <= d
    && s[a] == p && s[b] == q && s[d] == r
    && (forall k :: lo <= k < a ==> s[k] < p)
    && (forall k :: a < k < b ==> p <= s[k] <= q)
    && (forall k :: b < k < d ==> q <= s[k] <= r)
    && (forall k :: d < k <= hi ==> r < s[k])
  }

  /**
   * The four-cursor partition of A[lo..hi] around the parked pivots, then
   * the placement of the pivots. On return p is at a, q at b and r at d; the
   * slots before a hold values below p, (a, b) values in [p, q], (b, d)
   * values in [q, r], (d, hi] values above r, and c, where the third
   * recursive range starts, is b or b + 1.
   */
  method Partition(A: array<int>, lo: int, hi: int, p: int, q: int, r: int)
    returns (a: int, b: int, c: int, d: int)
    requires 0 <= lo && InsertionSortThreshold <= hi - lo && hi < A.Length
    requires p <= q <= r && A[lo] == p && A[lo + 1] == q && A[hi] == r
    modifies A
    ensures Partitioned(A[..], lo, hi, p, q, r, a, b, c, d)
    ensures PermutedWithin(A[..], old(A[..]), lo, hi)
  {
    a := lo + 2;
    b := lo + 2;
    c := hi - 1;
    d := hi - 1;
    while b <= c
      invariant CursorBounds(lo, hi, a, b, c, d)
      invariant Classified(A[..], lo, hi, p, q, r, a, b, c, d)
      invariant PermutedWithin(A[..], old(A[..]), lo, hi)
      decreases c - b + 2
    {
      a, b := ScanLeft(A, lo, hi, p, q, r, a, b, c, d);
      c, d := ScanRight(A, lo, hi, p, q, r, a, b, c, d);
      if b <= c {
        a, b, c, d := Exchange(A, lo, hi, p, q, r, a, b, c, d);
      }
    }
    a, b, c, d := PlacePivots(A, lo, hi, p, q, r, a, b, c, d);
  }

  /**
   * The scan that moves b right while A[b] < q; each value below p met on the
   * way is exchanged into slot a, which then moves right too. The test reads
   * A[b] before checking b <= c, so it may read A[c + 1].
   */
  method ScanLeft(A: array<int>, lo: int, hi: int, p: int, q: int, r: int,
                  a0: int, b0: int, c: int, d: int)
    returns (a: int, b: int)
    requires 0 <= lo && hi < A.Length && p <= q <= r
    requires CursorBounds(lo, hi, a0, b0, c, d) && b0 <= c
    requires Classified(A[..], lo, hi, p, q, r, a0, b0, c, d)
    modifies A
    ensures CursorBounds(lo, hi, a, b, c, d) && b0 <= b <= c + 1
    ensures Classified(A[..], lo, hi, p, q, r, a, b, c, d)
    ensures b <= c ==> q <= A[b]
    ensures PermutedWithin(A[..], old(A[..]), lo, hi)
  {
    a, b := a0, b0;
    while A[b] < q && b <= c
      invariant CursorBounds(lo, hi, a, b, c, d) && b0 <= b <= c + 1
      invariant Classified(A[..], lo, hi, p, q, r, a, b, c, d)
      invariant PermutedWithin(A[..], old(A[..]), lo, hi)
      decreases c - b
    {
      ghost var s := A[..];
      ScanLeftStep(s, lo, hi, p, q, r, a, b, c, d);
      if A[b] < p {
        Swap(A, a, b);
        SwappedPermutes(s, old(A[..]), lo, hi, a, b);
        a := a + 1;
      }
      b := b + 1;
    }
  }

  /** One step of the left scan keeps the classification, one slot further on. */
  lemma ScanLeftStep(s: seq<int>, lo: int, hi: int, p: int, q: int, r: int,
                     a: int, b: int, c: int, d: int)
    requires 0 <= lo && hi < |s| && CursorBounds(lo, hi, a, b, c, d) && b <= c
    requires Classified(s, lo, hi, p, q, r, a, b, c, d) && s[b] < q
    ensures s[b] < p ==> Classified(Swapped(s, a, b), lo, hi, p, q, r, a + 1, b + 1, c, d)
    ensures p <= s[b] ==> Classified(s, lo, hi, p, q, r, a, b + 1, c, d)
  {
  }

  /**
   * The scan that moves c left while A[c] > q; each value above r met on the
   * way is exchanged into slot d, which then moves left too. The test reads
   * A[c] before checking b <= c, so it may read A[b - 1].
   */
  method ScanRight(A: array<int>, lo: int, hi: int, p: int, q: int, r: int,
                   a: int, b: int, c0: int, d0: int)
    returns (c: int, d: int)
    requires 0 <= lo && hi < A.Length && p <= q <= r
    requires CursorBounds(lo, hi, a, b, c0, d0) && b <= c0 + 1
    requires Classified(A[..], lo, hi, p, q, r, a, b, c0, d0)
    requires b <= c0 ==> q <= A[b]
    modifies A
    ensures CursorBounds(lo, hi, a, b, c, d) && b - 1 <= c <= c0
    ensures Classified(A[..], lo, hi, p, q, r, a, b, c, d)
    ensures b <= c ==> q <= A[b] && A[c] <= q
    ensures PermutedWithin(A[..], old(A[..]), lo, hi)
  {
    c, d := c0, d0;
    while A[c] > q && b <= c
      invariant CursorBounds(lo, hi, a, b, c, d) && b - 1 <= c <= c0
      invariant Classified(A[..], lo, hi, p, q, r, a, b, c, d)
      invariant PermutedWithin(A[..], old(A[..]), lo, hi)
      invariant b <= c ==> q <= A[b]
      decreases c - b
    {
      ghost var s := A[..];
      ScanRightStep(s, lo, hi, p, q, r, a, b, c, d);
      if A[c] > r {
        Swap(A, c, d);
        SwappedPermutes(s, old(A[..]), lo, hi, c, d);
        d := d - 1;
      }
      c := c - 1;
    }
  }

  /** One step of the right scan keeps the classification, one slot further on. */
  lemma ScanRightStep(s: seq<int>, lo: int, hi: int, p: int, q: int, r: int,
                      a: int, b: int, c: int, d: int)
    requires 0 <= lo && hi < |s| && CursorBounds(lo, hi, a, b, c, d) && b <= c
    requires Classified(s, lo, hi, p, q, r, a, b, c, d) && q < s[c]
    ensures r < s[c] ==> Classified(Swapped(s, c, d), lo, hi, p, q, r, a, b, c - 1, d - 1)
    ensures r < s[c] && b < c ==> Swapped(s, c, d)[b] == s[b]
    ensures s[c] <= r ==> Classified(s, lo, hi, p, q, r, a, b, c - 1, d)
  {
  }

  /**
   * One exchange of the partition loop, reached when both scans have stopped
   * with b <= c: A[b] is at least q and A[c] at most q, so each is on the
   * wrong side. A[b] goes to the (q, r] part, or past d when above r; A[c]
   * goes to the [p, q] part, or to a when below p. Both cursors move inward.
   */
  method Exchange(A: array<int>, lo: int, hi: int, p: int, q: int, r: int,
                  a0: int, b0: int, c0: int, d0: int)
    returns (a: int, b: int, c: int, d: int)
    requires 0 <= lo && hi < A.Length && p <= q <= r
    requires CursorBounds(lo, hi, a0, b0, c0, d0) && b0 <= c0
    requires Classified(A[..], lo, hi, p, q, r, a0, b0, c0, d0)
    requires q <= A[b0] && A[c0] <= q
    modifies A
    ensures CursorBounds(lo, hi, a, b, c, d) && c - b == c0 - b0 - 2
    ensures Classified(A[..], lo, hi, p, q, r, a, b, c, d)
    ensures PermutedWithin(A[..], old(A[..]), lo, hi)
    ensures b == b0 + 1 && c == c0 - 1 && (d == d0 - 1 <==> r < old(A[b0])) && d0 - 1 <= d <= d0
    ensures a0 <= a <= a0 + 1 && (a == a0 + 1 <==> old(A[c0]) < p)
  {
    if A[b0] > r {
      a, b, c, d := ExchangeAboveR(A, lo, hi, p, q, r, a0, b0, c0, d0);
    } else {
      a, b, c, d := ExchangeInQR(A, lo, hi, p, q, r, a0, b0, c0, d0);
    }
  }

  /** The exchange when the value at b is above r: it ends up at d, past the [q, r] part. */
  method ExchangeAboveR(A: array<int>, lo: int, hi: int, p: int, q: int, r: int,
                             a0: int, b0: int, c0: int, d0: int)
    returns (a: int, b: int, c: int, d: int)
    requires 0 <= lo && hi < A.Length && p <= q <= r
    requires CursorBounds(lo, hi, a0, b0, c0, d0) && b0 <= c0
    requires Classified(A[..], lo, hi, p, q, r, a0, b0, c0, d0)
    requires r < A[b0] && A[c0] <= q
    modifies A
    ensures CursorBounds(lo, hi, a, b, c, d) && c - b == c0 - b0 - 2
    ensures Classified(A[..], lo, hi, p, q, r, a, b, c, d)
    ensures PermutedWithin(A[..], old(A[..]), lo, hi)
    ensures b == b0 + 1 && c == c0 - 1 && d == d0 - 1
    ensures a0 <= a <= a0 + 1 && (a == a0 + 1 <==> old(A[c0]) < p)
  {
    a, b, c, d := a0, b0, c0, d0;
    ghost var s := A[..];
    ghost var s1 := s;
    ghost var belowP := s[c0] < p;
    if A[c] < p {
      Swap(A, b, a);
      SwappedPermutes(s, s, lo, hi, b, a);
      s1 := A[..];
      Swap(A, a, c);
      SwappedPermutes(s1, s, lo, hi, a, c);
      a := a + 1;
    } else {
      Swap(A, b, c);
      SwappedPermutes(s, s, lo, hi, b, c);
    }
    ghost var s2 := A[..];
    Swap(A, c, d);
    SwappedPermutes(s2, s, lo, hi, c, d);
    if belowP {
      AboveRBelowPExchanged(s, s1, s2, A[..], lo, hi, p, q, r, a0, b0, c0, d0);
    } else {
      AboveRExchanged(s, s2, A[..], lo, hi, p, q, r, a0, b0, c0, d0);
    }
    b := b + 1;
    c := c - 1;
    d := d - 1;
  }

  /** The exchange when the value at b is in [q, r]: it ends up at c, the new end of the unscanned part. */
  method ExchangeInQR(A: array<int>, lo: int, hi: int, p: int, q: int, r: int,
                           a0: int, b0: int, c0: int, d0: int)
    returns (a: int, b: int, c: int, d: int)
    requires 0 <= lo && hi < A.Length && p <= q <= r
    requires CursorBounds(lo, hi, a0, b0, c0, d0) && b0 <= c0
    requires Classified(A[..], lo, hi, p, q, r, a0, b0, c0, d0)
    requires q <= A[b0] <= r && A[c0] <= q
    modifies A
    ensures CursorBounds(lo, hi, a, b, c, d) && c - b == c0 - b0 - 2
    ensures Classified(A[..], lo, hi, p, q, r, a, b, c, d)
    ensures PermutedWithin(A[..], old(A[..]), lo, hi)
    ensures b == b0 + 1 && c == c0 - 1 && d == d0
    ensures a0 <= a <= a0 + 1 && (a == a0 + 1 <==> old(A[c0]) < p)
  {
    a, b, c, d := a0, b0, c0, d0;
    ghost var s := A[..];
    if A[c] < p {
      Swap(A, b, a);
      SwappedPermutes(s, s, lo, hi, b, a);
      ghost var s1 := A[..];
      Swap(A, a, c);
      SwappedPermutes(s1, s, lo, hi, a, c);
      a := a + 1;
      BelowPExchanged(s, s1, A[..], lo, hi, p, q, r, a0, b0, c0, d0);
    } else {
      Swap(A, b, c);
      SwappedPermutes(s, s, lo, hi, b, c);
      InPExchanged(s, A[..], lo, hi, p, q, r, a0, b0, c0, d0);
    }
    b := b + 1;
    c := c - 1;
  }

  /**
   * The exchange when the value at b is above r and the one at c below p:
   * the value at c goes to a, the one at a to b, the one at b to d, past the
   * [q, r] part, and the one at d to c.
   */
  lemma AboveRBelowPExchanged(s: seq<int>, s1: seq<int>, s2: seq<int>, t: seq<int>,
                             lo: int, hi: int, p: int, q: int, r: int,
                             a: int, b: int, c: int, d: int)
    requires 0 <= lo && hi < |s| && p <= q <= r
    requires CursorBounds(lo, hi, a, b, c, d) && b <= c
    requires Classified(s, lo, hi, p, q, r, a, b, c, d)
    requires r < s[b] && s[c] < p
    requires s1 == Swapped(s, b, a) && s2 == Swapped(s1, a, c) && t == Swapped(s2, c, d)
    ensures b < c
    ensures Classified(t, lo, hi, p, q, r, a + 1, b + 1, c - 1, d - 1)
  {
  }

  /**
   * The exchange when the value at b is above r and the one at c is not below
   * p: the value at c goes to b, the one at b to d, past the [q, r] part,
   * and the one at d to c.
   */
  lemma AboveRExchanged(s: seq<int>, s2: seq<int>, t: seq<int>,
                       lo: int, hi: int, p: int, q: int, r: int,
                       a: int, b: int, c: int, d: int)
    requires 0 <= lo && hi < |s| && p <= q <= r
    requires CursorBounds(lo, hi, a, b, c, d) && b <= c
    requires Classified(s, lo, hi, p, q, r, a, b, c, d)
    requires r < s[b] && p <= s[c] <= q
    requires s2 == Swapped(s, b, c) && t == Swapped(s2, c, d)
    ensures b < c
    ensures Classified(t, lo, hi, p, q, r, a, b + 1, c - 1, d - 1)
  {
  }

  /**
   * The exchange when the value at b is in [q, r] and the one at c below p:
   * the value at c goes to a, the one at a to b and the one at b to c.
   */
  lemma BelowPExchanged(s: seq<int>, s1: seq<int>, t: seq<int>,
                       lo: int, hi: int, p: int, q: int, r: int,
                       a: int, b: int, c: int, d: int)
    requires 0 <= lo && hi < |s| && p <= q <= r
    requires CursorBounds(lo, hi, a, b, c, d) && b <= c
    requires Classified(s, lo, hi, p, q, r, a, b, c, d)
    requires q <= s[b] <= r && s[c] < p
    requires s1 == Swapped(s, b, a) && t == Swapped(s1, a, c)
    ensures Classified(t, lo, hi, p, q, r, a + 1, b + 1, c - 1, d)
  {
  }

  /**
   * The exchange when the value at b is in [q, r] and the one at c in
   * [p, q]: the two trade places.
   */
  lemma InPExchanged(s: seq<int>, t: seq<int>,
                    lo: int, hi: int, p: int, q: int, r: int,
                    a: int, b: int, c: int, d: int)
    requires 0 <= lo && hi < |s| && p <= q <= r
    requires CursorBounds(lo, hi, a, b, c, d) && b <= c
    requires Classified(s, lo, hi, p, q, r, a, b, c, d)
    requires q <= s[b] <= r && p <= s[c] <= q
    requires t == Swapped(s, b, c)
    ensures Classified(t, lo, hi, p, q, r, a, b + 1, c - 1, d)
  {
  }

  /**
   * After the partition loop: steps the cursors back, moves q from lo + 1 to
   * the end of the [p, q] part and p from lo to just before it, and
   * exchanges r at hi with the first value above r.
   */
  method PlacePivots(A: array<int>, lo: int, hi: int, p: int, q: int, r: int,
                     a0: int, b0: int, c0: int, d0: int)
    returns (a: int, b: int, c: int, d: int)
    requires 0 <= lo && hi < A.Length && p <= q <= r
    requires CursorBounds(lo, hi, a0, b0, c0, d0) && c0 < b0
    requires Classified(A[..], lo, hi, p, q, r, a0, b0, c0, d0)
    modifies A
    ensures Partitioned(A[..], lo, hi, p, q, r, a, b, c, d)
    ensures PermutedWithin(A[..], old(A[..]), lo, hi)
  {
    a, b, c, d := a0, b0, c0, d0;
    a := a - 1;
    b := b - 1;
    c := c + 1;
    d := d + 1;
    ghost var s0 := A[..];
    Swap(A, lo + 1, a);
    ghost var s1 := A[..];
    Swap(A, a, b);
    ghost var s2 := A[..];
    QPlaced(s0, s1, s2, lo, hi, p, q, r, a, b, c, d);
    a := a - 1;
    Swap(A, lo, a);
    SwappedPermutes(s2, s0, lo, hi, lo, a);
    ghost var s3 := A[..];
    Swap(A, hi, d);
    SwappedPermutes(s3, s0, lo, hi, hi, d);
    PRPlaced(s2, s3, A[..], lo, hi, p, q, r, a, b, c, d);
  }

  /**
   * The first two exchanges after the partition loop: q goes from lo + 1 to
   * b - 1, the last slot of the [p, q] part, and the value below p that was
   * at a - 1 goes to lo + 1.
   */
  lemma QPlaced(s0: seq<int>, s1: seq<int>, s2: seq<int>,
                lo: int, hi: int, p: int, q: int, r: int, a: int, b: int, c: int, d: int)
    requires 0 <= lo && hi < |s0| && p <= q <= r
    requires CursorBounds(lo, hi, a + 1, b + 1, c - 1, d - 1) && c <= b + 1
    requires Classified(s0, lo, hi, p, q, r, a + 1, b + 1, c - 1, d - 1)
    requires s1 == Swapped(s0, lo + 1, a) && s2 == Swapped(s1, a, b)
    ensures s2[lo] == p && s2[b] == q && s2[hi] == r
    ensures forall k :: lo < k < a ==> s2[k] < p
    ensures forall k :: a <= k < b ==> p <= s2[k] <= q
    ensures forall k :: b < k < d ==> q <= s2[k] <= r
    ensures forall k :: d <= k < hi ==> r < s2[k]
    ensures PermutedWithin(s2, s0, lo, hi)
  {
    assert forall k :: lo < k < a ==> s1[k] < p;
    SwappedPermutes(s0, s0, lo, hi, lo + 1, a);
    SwappedPermutes(s1, s0, lo, hi, a, b);
  }

  /**
   * The last two exchanges after the partition loop: p goes from lo to a,
   * just before the [p, q] part, and r from hi to d, just after the [q, r]
   * part.
   */
  lemma PRPlaced(s2: seq<int>, s3: seq<int>, t: seq<int>,
                 lo: int, hi: int, p: int, q: int, r: int, a: int, b: int, c: int, d: int)
    requires 0 <= lo <= a && a + 1 <= b < d <= hi < |s2| && p <= q <= r
    requires c == b || c == b + 1
    requires c <= d
    requires s2[lo] == p && s2[b] == q && s2[hi] == r
    requires forall k :: lo < k < a + 1 ==> s2[k] < p
    requires forall k :: a + 1 <= k < b ==> p <= s2[k] <= q
    requires forall k :: b < k < d ==> q <= s2[k] <= r
    requires forall k :: d <= k < hi ==> r < s2[k]
    requires s3 == Swapped(s2, lo, a) && t == Swapped(s3, hi, d)
    ensures Partitioned(t, lo, hi, p, q, r, a, b, c, d)
  {
    assert s3[a] == p && forall k :: lo <= k < a ==> s3[k] < p;
  }

  /**
   * Sorts A[lo..hi] in place. The recursive ranges are exactly the ones the
   * code passes: [lo, a - 1], [a + 1, b], [c, d - 1] and [d + 1, hi]; some
   * may be empty, and when c == b the second and third share the slot b,
   * which holds q, the largest value of the one and the smallest of the other.
   */
  method Quicksort3PivotBasic(A: array<int>, lo: int, hi: int)
    requires 0 <= lo <= hi + 1 <= A.Length
    requires BelowBounded(A[..], lo, hi)
    modifies A
    ensures Sorted(A[..], lo, hi)
    ensures PermutedWithin(A[..], old(A[..]), lo, hi)
    decreases hi - lo + 1, 1
  {
    if hi == lo {
      return;
    }
    if hi - lo < InsertionSortThreshold {
      InsertionSort(A, lo, hi);
      return;
    }
    ghost var s0 := A[..];
    var p, q, r := SelectPivots(A, lo, hi);
    ghost var sp := A[..];
    var a, b, c, d := Partition(A, lo, hi, p, q, r);
    ghost var s1 := A[..];
    PermutedTransitive(s1, sp, s0, lo, hi);
    PermutedKeepsBelowBounded(s1, s0, lo, hi);
    SortParts(A, lo, hi, p, q, r, a, b, c, d);
    PermutedTransitive(A[..], s1, s0, lo, hi);
  }

  /**
   * The four recursive calls that end a partitioning step: they sort
   * [lo, a - 1], [a + 1, b], [c, d - 1] and [d + 1, hi], exactly the ranges
   * the code passes. Some may be empty, and when c == b the second and third
   * share the slot b, which holds q, the largest value of the one and the
   * smallest of the other.
   */
  method SortParts(A: array<int>, lo: int, hi: int, p: int, q: int, r: int,
                   a: int, b: int, c: int, d: int)
    requires 0 <= lo && hi < A.Length && p <= q <= r
    requires Partitioned(A[..], lo, hi, p, q, r, a, b, c, d) && BelowBounded(A[..], lo, hi)
    modifies A
    ensures Sorted(A[..], lo, hi)
    ensures PermutedWithin(A[..], old(A[..]), lo, hi)
    decreases hi - lo + 1, 0
  {
    ghost var s1 := A[..];
    BelowBoundedSub(s1, lo, hi, a - 1);

    Quicksort3PivotBasic(A, lo, a - 1);
    ghost var s2 := A[..];
    AfterFirstCall(s1, s2, lo, hi, p, q, r, a, b, c, d);

    Quicksort3PivotBasic(A, a + 1, b);
    ghost var s3 := A[..];
    AfterSecondCall(s1, s2, s3, lo, hi, p, q, r, a, b, c, d);

    Quicksort3PivotBasic(A, c, d - 1);
    ghost var s4 := A[..];
    AfterThirdCall(s1, s2, s3, s4, lo, hi, p, q, r, a, b, c, d);

    Quicksort3PivotBasic(A, d + 1, hi);
    ghost var s5 := A[..];
    AfterLastCall(s1, s2, s3, s4, s5, lo, hi, p, q, r, a, b, c, d);
    CallsPermute(s1, s2, s3, s4, s5, lo, hi, a, b, c, d);
  }

  /** A bound below the whole range is a bound below any prefix of it. */
  lemma BelowBoundedSub(s: seq<int>, lo: int, hi: int, mid: int)
    requires 0 <= lo && mid <= hi < |s|
    requires BelowBounded(s, lo, hi)
    ensures BelowBounded(s, lo, mid)
  {
  }

  /**
   * After the part below p is sorted, it is still below p, and every slot
   * before the [p, q] part is at most every value in it, as the second
   * recursive call requires.
   */
  lemma AfterFirstCall(s1: seq<int>, s2: seq<int>,
                       lo: int, hi: int, p: int, q: int, r: int, a: int, b: int, c: int, d: int)
    requires 0 <= lo && hi < |s1| && p <= q <= r
    requires Partitioned(s1, lo, hi, p, q, r, a, b, c, d) && BelowBounded(s1, lo, hi)
    requires PermutedWithin(s2, s1, lo, a - 1)
    ensures AllAtMost(s2, lo, a - 1, p)
    ensures BelowBounded(s2, a + 1, b)
  {
    assert AllAtMost(s1, lo, a - 1, p);
    PermutedKeepsBounds(s2, s1, lo, a - 1, p);
    forall k, m | 0 <= k < a + 1 <= m <= b
      ensures s2[k] <= s2[m]
    {
      assert s2[m] == s1[m] && p <= s1[m];
      if k < lo {
        assert s2[k] == s1[k] <= s1[m];
      }
    }
  }

  /**
   * After the [p, q] part is sorted, its values are still in [p, q] and its
   * last slot b holds q, so every slot before c is at most every value of
   * the [q, r] part, as the third recursive call requires.
   */
  lemma AfterSecondCall(s1: seq<int>, s2: seq<int>, s3: seq<int>,
                        lo: int, hi: int, p: int, q: int, r: int, a: int, b: int, c: int, d: int)
    requires 0 <= lo && hi < |s1| && p <= q <= r
    requires Partitioned(s1, lo, hi, p, q, r, a, b, c, d) && BelowBounded(s1, lo, hi)
    requires PermutedWithin(s2, s1, lo, a - 1) && AllAtMost(s2, lo, a - 1, p)
    requires PermutedWithin(s3, s2, a + 1, b) && Sorted(s3, a + 1, b)
    ensures AllAtLeast(s3, a + 1, b, p) && AllAtMost(s3, a + 1, b, q) && q <= s3[b]
    ensures BelowBounded(s3, c, d - 1)
  {
    assert AllAtLeast(s2, a + 1, b, p) && AllAtMost(s2, a + 1, b, q);
    PermutedKeepsBounds(s3, s2, a + 1, b, p);
    PermutedKeepsBounds(s3, s2, a + 1, b, q);
    SortedLastIsMax(s3, s2, a + 1, b);
    assert s2[b] == q;
    BelowThirdRange(s1, s2, s3, lo, hi, p, q, r, a, b, c, d);
  }

  /** The slots before c are at most q once the first two parts are done, and [c, d - 1] is at least q. */
  lemma BelowThirdRange(s1: seq<int>, s2: seq<int>, s3: seq<int>,
                        lo: int, hi: int, p: int, q: int, r: int, a: int, b: int, c: int, d: int)
    requires 0 <= lo && hi < |s1| && p <= q <= r
    requires Partitioned(s1, lo, hi, p, q, r, a, b, c, d) && BelowBounded(s1, lo, hi)
    requires PermutedWithin(s2, s1, lo, a - 1) && AllAtMost(s2, lo, a - 1, p)
    requires PermutedWithin(s3, s2, a + 1, b)
    requires AllAtMost(s3, a + 1, b, q) && q <= s3[b]
    ensures BelowBounded(s3, c, d - 1)
  {
    forall k, m | 0 <= k < c <= m <= d - 1
      ensures s3[k] <= s3[m]
    {
      if m != b {
        assert s3[m] == s1[m];
      }
      if k < lo {
        assert s3[k] == s1[k] <= s1[b];
      } else if k < a {
        assert s3[k] == s2[k];
      }
    }
  }

  /**
   * After the [q, r] part is sorted, its values are still in [q, r], so
   * every slot up to d is at most every value above r, as the last recursive
   * call requires.
   */
  lemma AfterThirdCall(s1: seq<int>, s2: seq<int>, s3: seq<int>, s4: seq<int>,
                       lo: int, hi: int, p: int, q: int, r: int, a: int, b: int, c: int, d: int)
    requires 0 <= lo && hi < |s1| && p <= q <= r
    requires Partitioned(s1, lo, hi, p, q, r, a, b, c, d) && BelowBounded(s1, lo, hi)
    requires PermutedWithin(s2, s1, lo, a - 1) && AllAtMost(s2, lo, a - 1, p)
    requires PermutedWithin(s3, s2, a + 1, b) && AllAtMost(s3, a + 1, b, q) && q <= s3[b]
    requires PermutedWithin(s4, s3, c, d - 1)
    ensures AllAtLeast(s4, c, d - 1, q) && AllAtMost(s4, c, d - 1, r)
    ensures BelowBounded(s4, d + 1, hi)
  {
    forall m | c <= m <= d - 1
      ensures q <= s3[m] <= r
    {
      if m != b {
        assert s3[m] == s1[m];
      }
    }
    PermutedKeepsBounds(s4, s3, c, d - 1, q);
    PermutedKeepsBounds(s4, s3, c, d - 1, r);
    forall k, m | 0 <= k < d + 1 <= m <= hi
      ensures s4[k] <= s4[m]
    {
      assert s4[m] == s1[m];
      if k < lo {
        assert s4[k] == s1[k];
      } else if k < a {
        assert s4[k] == s2[k];
      } else if a < k < c {
        assert s4[k] == s3[k];
      }
    }
  }

  /**
   * Once all four parts are sorted, the whole range is: each part is sorted,
   * untouched by the later calls, and separated from the next by p, q or r.
   */
  lemma AfterLastCall(s1: seq<int>, s2: seq<int>, s3: seq<int>, s4: seq<int>, s5: seq<int>,
                      lo: int, hi: int, p: int, q: int, r: int, a: int, b: int, c: int, d: int)
    requires 0 <= lo && hi < |s1| && p <= q <= r
    requires Partitioned(s1, lo, hi, p, q, r, a, b, c, d)
    requires PermutedWithin(s2, s1, lo, a - 1) && Sorted(s2, lo, a - 1) && AllAtMost(s2, lo, a - 1, p)
    requires PermutedWithin(s3, s2, a + 1, b) && Sorted(s3, a + 1, b)
    requires AllAtLeast(s3, a + 1, b, p) && AllAtMost(s3, a + 1, b, q)
    requires PermutedWithin(s4, s3, c, d - 1) && Sorted(s4, c, d - 1)
    requires AllAtLeast(s4, c, d - 1, q) && AllAtMost(s4, c, d - 1, r)
    requires PermutedWithin(s5, s4, d + 1, hi) && Sorted(s5, d + 1, hi)
    ensures Sorted(s5, lo, hi)
  {
    UpperPartsSorted(s1, s4, s5, lo, hi, p, q, r, a, b, c, d);
    assert Sorted(s5, a + 1, c - 1) && AllAtMost(s5, a + 1, c - 1, q) && AllAtLeast(s5, a + 1, c - 1, p) by {
      forall k | a + 1 <= k <= c - 1
        ensures s5[k] == s3[k]
      {
        assert s5[k] == s4[k];
      }
    }
    SortedGlue(s5, a + 1, c, hi, q);
    assert Sorted(s5, lo, a - 1) && AllAtMost(s5, lo, a - 1, p) by {
      forall k | lo <= k <= a - 1
        ensures s5[k] == s2[k]
      {
        assert s5[k] == s4[k] == s3[k];
      }
    }
    assert s5[a] == p by {
      assert s5[a] == s4[a] == s3[a] == s2[a];
    }
    SortedGlue(s5, a, a + 1, hi, p);
    SortedGlue(s5, lo, a, hi, p);
  }

  /** The parts [c, d - 1], {d} and [d + 1, hi], once sorted, make a sorted range of values at least q. */
  lemma UpperPartsSorted(s1: seq<int>, s4: seq<int>, s5: seq<int>,
                         lo: int, hi: int, p: int, q: int, r: int, a: int, b: int, c: int, d: int)
    requires 0 <= lo && hi < |s1| && p <= q <= r
    requires Partitioned(s1, lo, hi, p, q, r, a, b, c, d)
    requires |s4| == |s1| && forall k :: d <= k < |s1| ==> s4[k] == s1[k]
    requires Sorted(s4, c, d - 1)
    requires AllAtLeast(s4, c, d - 1, q) && AllAtMost(s4, c, d - 1, r)
    requires PermutedWithin(s5, s4, d + 1, hi) && Sorted(s5, d + 1, hi)
    ensures Sorted(s5, c, hi) && AllAtLeast(s5, c, hi, q)
  {
    assert AllAtLeast(s4, d + 1, hi, r);
    PermutedKeepsBounds(s5, s4, d + 1, hi, r);
    SortedGlue(s5, d, d + 1, hi, r);
    SortedGlue(s5, c, d, hi, r);
  }

  /** The four recursive calls, each a rearrangement of its part, together rearrange [lo, hi]. */
  lemma CallsPermute(s1: seq<int>, s2: seq<int>, s3: seq<int>, s4: seq<int>, s5: seq<int>,
                     lo: int, hi: int, a: int, b: int, c: int, d: int)
    requires 0 <= lo <= a && a + 1 <= b + 1 && b <= c && c <= d && d <= hi < |s1|
    requires PermutedWithin(s2, s1, lo, a - 1)
    requires PermutedWithin(s3, s2, a + 1, b)
    requires PermutedWithin(s4, s3, c, d - 1)
    requires PermutedWithin(s5, s4, d + 1, hi)
    ensures PermutedWithin(s5, s1, lo, hi)
  {
    PermutedWiden(s2, s1, lo, a - 1, lo, hi);
    PermutedWiden(s3, s2, a + 1, b, lo, hi);
    PermutedWiden(s4, s3, c, d - 1, lo, hi);
    PermutedWiden(s5, s4, d + 1, hi, lo, hi);
    PermutedTransitive(s3, s2, s1, lo, hi);
    PermutedTransitive(s4, s3, s1, lo, hi);
    PermutedTransitive(s5, s4, s1, lo, hi);
  }

  /** Scans A[lo..hi] left to right and reports whether each value is at least the one before it. */
  method IsSorted(A: array<int>, lo: int, hi: int) returns (sorted: bool)
    requires lo < hi ==> 0 <= lo && hi < A.Length
    ensures sorted <==> forall i :: lo < i <= hi ==> A[i - 1] <= A[i]
    ensures 0 <= lo && hi < A.Length ==> (sorted <==> Sorted(A[..], lo, hi))
  {
    var i := lo + 1;
    while i <= hi
      invariant lo < i <= hi + 1 || i == lo + 1
      invariant forall k :: lo < k < i ==> A[k - 1] <= A[k]
    {
      if A[i] < A[i - 1] {
        return false;
      }
      i := i + 1;
    }
    if 0 <= lo && hi < A.Length {
      SortedIffAdjacent(A[..], lo, hi);
    }
    return true;
  }
}
