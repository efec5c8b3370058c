/**
 The library's top-down merge sort. Both `Merge` and `MergeSort` work on an
 INCLUSIVE index range `[left, right]` of the buffer: `Merge` joins the runs
 `[left, middle]` and `[middle + 1, right]`. The buffer is modelled as a value:
 each method takes its contents before the call and returns them after it.
 */
module MergeSorting {
  import opened Ordering

  /**
   Reference merge: `acc` followed by the merge of the remaining parts xs[i..] and
   ys[j..] of two runs. The head of xs is taken while it is <= the head of ys (so
   ties go to xs) or ys is used up; otherwise the head of ys is taken.
   */
  function MergeAcc(xs: seq<real>, ys: seq<real>, i: nat, j: nat, acc: seq<real>): seq<real>
    requires i <= |xs| && j <= |ys|
    decreases |xs| - i + |ys| - j
  {
    if i < |xs| && (j == |ys| || xs[i] <= ys[j]) then MergeAcc(xs, ys, i + 1, j, acc + [xs[i]])
    else if j < |ys| then MergeAcc(xs, ys, i, j + 1, acc + [ys[j]])
    else acc
  }

  /** Reference merge of two whole runs. */
  function MergeSeqs(xs: seq<real>, ys: seq<real>): seq<real> {
    MergeAcc(xs, ys, 0, 0, [])
  }

  /** The merge is a rearrangement of the accumulator and the two remaining parts. */
  lemma {:induction false} MergeAccPermutes(xs: seq<real>, ys: seq<real>, i: nat, j: nat, acc: seq<real>)
    requires i <= |xs| && j <= |ys|
    ensures multiset(MergeAcc(xs, ys, i, j, acc)) == multiset(acc) + multiset(xs[i..]) + multiset(ys[j..])
    decreases |xs| - i + |ys| - j
  {
    if i < |xs| && (j == |ys| || xs[i] <= ys[j]) {
      MergeAccPermutes(xs, ys, i + 1, j, acc + [xs[i]]);
      MoveHead(acc, xs, i, multiset(ys[j..]));
    } else if j < |ys| {
      MergeAccPermutes(xs, ys, i, j + 1, acc + [ys[j]]);
      MoveHead(acc, ys, j, multiset(xs[i..]));
    } else {
      assert xs[i..] == [] && ys[j..] == [];
    }
  }

  /** Moving the head of s[k..] onto the end of acc keeps the multiset of all values,
      whatever other values m sit next to them. */
  lemma MoveHead(acc: seq<real>, s: seq<real>, k: nat, m: multiset<real>)
    requires k < |s|
    ensures multiset(acc + [s[k]]) + multiset(s[k + 1..]) + m == multiset(acc) + multiset(s[k..]) + m
    ensures multiset(acc + [s[k]]) + m + multiset(s[k + 1..]) == multiset(acc) + m + multiset(s[k..])
  {
    assert s[k..] == [s[k]] + s[k + 1..];
  }

  /** Appending a value no smaller than the last element keeps a sequence sorted. */
  lemma AppendSorted(s: seq<real>, x: real)
    requires Sorted(s) && (|s| > 0 ==> s[|s| - 1] <= x)
    ensures Sorted(s + [x])
  {
  }

  /** Merging sorted runs onto a sorted accumulator whose last element is no larger
      than either remaining head gives a sorted sequence. */
  lemma {:induction false} MergeAccSorted(xs: seq<real>, ys: seq<real>, i: nat, j: nat, acc: seq<real>)
    requires i <= |xs| && j <= |ys|
    requires Sorted(xs) && Sorted(ys) && Sorted(acc)
    requires |acc| > 0 && i < |xs| ==> acc[|acc| - 1] <= xs[i]
    requires |acc| > 0 && j < |ys| ==> acc[|acc| - 1] <= ys[j]
    ensures Sorted(MergeAcc(xs, ys, i, j, acc))
    decreases |xs| - i + |ys| - j
  {
    if i < |xs| && (j == |ys| || xs[i] <= ys[j]) {
      AppendSorted(acc, xs[i]);
      MergeAccSorted(xs, ys, i + 1, j, acc + [xs[i]]);
    } else if j < |ys| {
      AppendSorted(acc, ys[j]);
      MergeAccSorted(xs, ys, i, j + 1, acc + [ys[j]]);
    }
  }

  /**
   Merges the sorted runs a[left..middle] and a[middle+1..right] (both inclusive)
   back into a[left..right]. The runs are first copied out (the C code's temporary
   arrays L and R); `MergeRuns` then produces, in order, the values the C code
   writes to arr[left], arr[left + 1], ..., arr[right], which are put back in place.
   */
  method Merge(a: seq<real>, left: int, middle: int, right: int) returns (b: seq<real>)
    requires 0 <= left <= middle + 1 <= right + 1 <= |a|
    ensures SameOutside(a, b, left, right + 1)
    ensures b[left..right + 1] == MergeSeqs(a[left..middle + 1], a[middle + 1..right + 1])
    ensures multiset(b[left..right + 1]) == multiset(a[left..right + 1])
    ensures Sorted(a[left..middle + 1]) && Sorted(a[middle + 1..right + 1]) ==> Sorted(b[left..right + 1])
  {
    var L := a[left..middle + 1];
    var R := a[middle + 1..right + 1];
    var out := MergeRuns(L, R);
    b := a[..left] + out + a[right + 1..];
    assert b[left..right + 1] == out;
    MergedRange(a, b, left, middle, right);
  }

  /**
   The three loops of the C merge: while both runs have elements, emit the smaller
   head, taking L's on a tie; then emit what is left of L; then what is left of R.
   */
  method MergeRuns(L: seq<real>, R: seq<real>) returns (out: seq<real>)
    ensures out == MergeSeqs(L, R)
    ensures |out| == |L| + |R|
  {
    var n1, n2 := |L|, |R|;
    var i, j := 0, 0;
    out := [];
    while i < n1 && j < n2
      invariant 0 <= i <= n1 && 0 <= j <= n2 && |out| == i + j
      invariant MergeAcc(L, R, i, j, out) == MergeSeqs(L, R)
    {
      if L[i] <= R[j] {
        out := out + [L[i]];
        i := i + 1;
      } else {
        out := out + [R[j]];
        j := j + 1;
      }
    }
    while i < n1
      invariant 0 <= i <= n1 && 0 <= j <= n2 && |out| == i + j
      invariant i < n1 ==> j == n2
      invariant MergeAcc(L, R, i, j, out) == MergeSeqs(L, R)
    {
      out := out + [L[i]];
      i := i + 1;
    }
    while j < n2
      invariant i == n1 && 0 <= j <= n2 && |out| == i + j
      invariant MergeAcc(L, R, i, j, out) == MergeSeqs(L, R)
    {
      out := out + [R[j]];
      j := j + 1;
    }
  }

  /** What a merged range holds: a sorted (when both runs were) rearrangement of the runs. */
  lemma MergedRange(a: seq<real>, b: seq<real>, left: int, middle: int, right: int)
    requires 0 <= left <= middle + 1 <= right + 1 <= |a| == |b|
    requires b[left..right + 1] == MergeSeqs(a[left..middle + 1], a[middle + 1..right + 1])
    ensures multiset(b[left..right + 1]) == multiset(a[left..right + 1])
    ensures Sorted(a[left..middle + 1]) && Sorted(a[middle + 1..right + 1]) ==> Sorted(b[left..right + 1])
  {
    var L, R := a[left..middle + 1], a[middle + 1..right + 1];
    SliceSplit(a, left, middle + 1, right + 1);
    MergeAccPermutes(L, R, 0, 0, []);
    assert L[0..] == L && R[0..] == R;
    if Sorted(L) && Sorted(R) {
      MergeAccSorted(L, R, 0, 0, []);
    }
  }

  /** A slice splits at any point inside it. */
  lemma SliceSplit(s: seq<real>, lo: int, mid: int, hi: int)
    requires 0 <= lo <= mid <= hi <= |s|
    ensures s[lo..hi] == s[lo..mid] + s[mid..hi]
    ensures multiset(s[lo..hi]) == multiset(s[lo..mid]) + multiset(s[mid..hi])
  {
  }

  /** Two slices that are rearrangements of each other half by half are rearrangements
      of each other. */
  lemma SumOfHalves(a: seq<real>, b: seq<real>, lo: int, mid: int, hi: int)
    requires 0 <= lo <= mid <= hi <= |a| && hi <= |b|
    requires multiset(b[lo..mid]) == multiset(a[lo..mid])
    requires multiset(b[mid..hi]) == multiset(a[mid..hi])
    ensures multiset(b[lo..hi]) == multiset(a[lo..hi])
  {
    SliceSplit(a, lo, mid, hi);
    SliceSplit(b, lo, mid, hi);
  }

  /** A slice that avoids the changed range [lo, hi) is the same in a and b. */
  lemma SliceOutside(a: seq<real>, b: seq<real>, lo: int, hi: int, x: int, y: int)
    requires SameOutside(a, b, lo, hi)
    requires 0 <= x <= y <= |a| && (y <= lo || hi <= x)
    ensures a[x..y] == b[x..y]
  {
  }

  /** The range condition the sort needs: a range it actually works on lies inside the buffer. */
  predicate RangeWithin(len: int, left: int, right: int) {
    left >= right || (0 <= left && right < len)
  }

  /** b is a with a[lo..hi] (inclusive) replaced by its ascending rearrangement. */
  predicate SortsRange(a: seq<real>, b: seq<real>, lo: int, hi: int) {
    && 0 <= lo <= hi < |a|
    && SameOutside(a, b, lo, hi + 1)
    && Sorted(b[lo..hi + 1])
    && multiset(b[lo..hi + 1]) == multiset(a[lo..hi + 1])
  }

  /**
   Sorts a[left..right] (inclusive) ascending in place by splitting at
   `left + (right - left) / 2`, sorting both halves and merging them.
   A range with left >= right is left alone.
   */
  method MergeSort(a: seq<real>, left: int, right: int) returns (b: seq<real>)
    requires RangeWithin(|a|, left, right)
    ensures left >= right ==> b == a
    ensures 0 <= left <= right < |a| ==> SortsRange(a, b, left, right)
    decreases right - left
  {
    if left < right {
      var middle := left + (right - left) / 2;
      var b1 := MergeSort(a, left, middle);
      var b2 := MergeSort(b1, middle + 1, right);
      b := Merge(b2, left, middle, right);
      CombineHalves(a, b1, b2, b, left, middle, right);
    } else {
      b := a;
    }
  }

  /** A sorted range is exactly the reference sort of the original range. */
  lemma SortsRangeAgreesWithSort(a: seq<real>, b: seq<real>, lo: int, hi: int)
    requires SortsRange(a, b, lo, hi)
    ensures b[lo..hi + 1] == Sort(a[lo..hi + 1])
  {
    SortCharacterized(a[lo..hi + 1], b[lo..hi + 1]);
  }

  /** Sorting a range that is already in order changes nothing, so sorting a range
      twice is the same as sorting it once. */
  lemma SortedRangeUnchanged(a: seq<real>, b: seq<real>, lo: int, hi: int)
    requires SortsRange(a, b, lo, hi) && Sorted(a[lo..hi + 1])
    ensures b == a
  {
    SortedUnique(b[lo..hi + 1], a[lo..hi + 1]);
    forall k | 0 <= k < |a|
      ensures a[k] == b[k]
    {
      if lo <= k <= hi {
        assert a[k] == a[lo..hi + 1][k - lo] && b[k] == b[lo..hi + 1][k - lo];
      }
    }
  }

  /** Sorting both halves and merging them sorts the whole range. */
  lemma CombineHalves(a: seq<real>, b1: seq<real>, b2: seq<real>, b: seq<real>, left: int, middle: int, right: int)
    requires 0 <= left <= middle < right < |a|
    requires SortsRange(a, b1, left, middle)
    requires SortsRange(b1, b2, middle + 1, right)
    requires SameOutside(b2, b, left, right + 1)
    requires multiset(b[left..right + 1]) == multiset(b2[left..right + 1])
    requires Sorted(b2[left..middle + 1]) && Sorted(b2[middle + 1..right + 1]) ==> Sorted(b[left..right + 1])
    ensures SortsRange(a, b, left, right)
  {
    SliceOutside(b1, b2, middle + 1, right + 1, left, middle + 1);
    SliceOutside(a, b1, left, middle + 1, middle + 1, right + 1);
    assert Sorted(b2[left..middle + 1]);
    SumOfHalves(a, b2, left, middle + 1, right + 1);
    forall k | 0 <= k < |a| && (k < left || right + 1 <= k)
      ensures a[k] == b[k]
    {
      assert a[k] == b1[k] == b2[k];
    }
  }
}
