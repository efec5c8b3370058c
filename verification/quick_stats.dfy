/**
 The order statistics of the library: minimum, maximum, median and mode of the
 first m samples. Each copies the samples into a local buffer, merge-sorts the
 buffer and reads from it, so the caller's samples are never changed (they are
 a value here). The samples are the whole sequence `samples`, so m = |samples|.
 Every statistic reads sorted[0] at least, so m >= 1 is required.

 The library calls mergeSort(sorted, 0, m) although mergeSort's right end is
 inclusive: the call needs RangeWithin(m, 0, m), which is false for every
 m >= 1, so it sorts one cell past the m-element buffer. The statistics below
 are the intended ones, sorting with mergeSort(sorted, 0, m - 1); the members
 ending in `AsWritten` model the literal call, with the value that happens to
 lie past the buffer as the parameter `beyond`.
 */
module QuickStats {
  import opened Ordering
  import opened MergeSorting
  import opened Runs

  /** The local sorted copy: the samples copied into a buffer of size m and merge-sorted
      over the inclusive range [0, m - 1]. */
  method SortedCopy(samples: seq<real>) returns (sorted: seq<real>)
    requires |samples| >= 1
    ensures |sorted| == |samples| && IsSortingOf(sorted, samples)
  {
    var m := |samples|;
    sorted := samples;
    sorted := MergeSort(sorted, 0, m - 1);
    assert samples[0..m] == samples && sorted[0..m] == sorted;
  }

  /** The smallest sample: the first element of the sorted copy. */
  method Minimum(samples: seq<real>) returns (r: real)
    requires |samples| >= 1
    ensures r in samples
    ensures forall k :: 0 <= k < |samples| ==> r <= samples[k]
  {
    var sorted := SortedCopy(samples);
    r := sorted[0];
    SortedEnds(sorted, samples);
  }

  /** x is one of the samples and no sample is larger. */
  predicate IsMaximumOf(x: real, samples: seq<real>) {
    x in samples && forall k :: 0 <= k < |samples| ==> samples[k] <= x
  }

  /** The largest sample: the last element of the sorted copy. */
  method Maximum(samples: seq<real>) returns (r: real)
    requires |samples| >= 1
    ensures IsMaximumOf(r, samples)
  {
    var m := |samples|;
    var sorted := SortedCopy(samples);
    r := sorted[m - 1];
    SortedEnds(sorted, samples);
  }

  /** Median of an ascending sequence: the middle element when the length is odd,
      the mean of the two middle elements when it is even. */
  function MedianOfSorted(s: seq<real>): real
    requires |s| >= 1
  {
    var m := |s|;
    if m % 2 == 1 then s[m / 2] else (s[m / 2 - 1] + s[m / 2]) / 2.0
  }

  /** r is the median of the samples: the median of their ascending arrangement. */
  ghost predicate IsMedianOf(samples: seq<real>, r: real) {
    exists t :: IsSortingOf(t, samples) && |t| == |samples| >= 1 && r == MedianOfSorted(t)
  }

  /** The median of the samples. The C code tests the lowest bit of m (bitRead(m, 0)),
      which for m >= 1 is m % 2. */
  method Median(samples: seq<real>) returns (r: real)
    requires |samples| >= 1
    ensures IsMedianOf(samples, r)
    ensures |samples| % 2 == 1 ==> r in samples
    ensures exists i, j :: 0 <= i < |samples| && 0 <= j < |samples| && samples[i] <= r <= samples[j]
  {
    var m := |samples|;
    var sorted := SortedCopy(samples);
    if m % 2 == 1 {
      r := sorted[m / 2];
    } else {
      r := (sorted[m / 2 - 1] + sorted[m / 2]) / 2.0;
    }
    assert IsSortingOf(sorted, samples);
    MedianBetween(sorted);
    SortedEnds(sorted, samples);
    assert sorted[m / 2] in multiset(samples);
  }

  /** The median of a sorted sequence lies between its first and last elements. */
  lemma MedianBetween(s: seq<real>)
    requires |s| >= 1 && Sorted(s)
    ensures s[0] <= MedianOfSorted(s) <= s[|s| - 1]
  {
    var m := |s|;
    if m % 2 == 0 {
      assert s[0] <= s[m / 2 - 1] && s[m / 2] <= s[m - 1];
    }
  }

  /** The median is determined by the values alone: samples holding the same values,
      in whatever order, have the same median. */
  lemma MedianOrderIndependent(a: seq<real>, b: seq<real>, ra: real, rb: real)
    requires multiset(a) == multiset(b)
    requires IsMedianOf(a, ra) && IsMedianOf(b, rb)
    ensures ra == rb
  {
    var ta :| IsSortingOf(ta, a) && |ta| == |a| >= 1 && ra == MedianOfSorted(ta);
    var tb :| IsSortingOf(tb, b) && |tb| == |b| >= 1 && rb == MedianOfSorted(tb);
    SortedUnique(ta, tb);
  }

  /**
   The mode of the samples under tolerance epsilon: the first value of the
   earliest longest run of the sorted copy, or 0.0 when no two neighbours
   are closer than epsilon.
   */
  method Mode(samples: seq<real>, epsilon: real) returns (r: real)
    requires |samples| >= 1
    ensures exists t :: IsSortingOf(t, samples) && IsModeOf(t, epsilon, r)
    ensures epsilon <= 0.0 || |samples| == 1 ==> r == 0.0
    ensures r == 0.0 || r in samples
  {
    var sorted := SortedCopy(samples);
    r := ModeOfSorted(sorted, epsilon);
    assert IsSortingOf(sorted, samples);
    if epsilon <= 0.0 || |sorted| == 1 {
      NothingJoined(sorted, epsilon);
    }
    if exists k :: Joined(sorted, epsilon, k) {
      var lo, hi :| ModalRun(sorted, epsilon, lo, hi) && r == sorted[lo];
      assert sorted[lo] in multiset(samples);
    }
  }

  /** The mode is determined by the values alone: samples holding the same values,
      in whatever order, have the same mode. */
  lemma ModeOrderIndependent(a: seq<real>, b: seq<real>, epsilon: real, ra: real, rb: real)
    requires multiset(a) == multiset(b)
    requires exists t :: IsSortingOf(t, a) && IsModeOf(t, epsilon, ra)
    requires exists t :: IsSortingOf(t, b) && IsModeOf(t, epsilon, rb)
    ensures ra == rb
  {
    var ta :| IsSortingOf(ta, a) && IsModeOf(ta, epsilon, ra);
    var tb :| IsSortingOf(tb, b) && IsModeOf(tb, epsilon, rb);
    SortedUnique(ta, tb);
    ModeUnique(ta, epsilon, ra, rb);
  }

  /** Sum of counts. */
  function Sum(xs: seq<int>): int {
    if |xs| == 0 then 0 else Sum(xs[..|xs| - 1]) + xs[|xs| - 1]
  }

  /** Appending x to a sequence of counts adds x to its sum. */
  lemma SumSnoc(xs: seq<int>, x: int)
    ensures Sum(xs + [x]) == Sum(xs) + x
  {
    assert (xs + [x])[..|xs|] == xs;
  }

  /** Counts that are all at least 1 sum to at least their number. */
  lemma {:induction false} SumAtLeastLength(xs: seq<int>)
    requires forall k :: 0 <= k < |xs| ==> xs[k] >= 1
    ensures Sum(xs) >= |xs|
  {
    if |xs| > 0 {
      SumAtLeastLength(xs[..|xs| - 1]);
    }
  }

  /** Adding one to count p adds one to the sum of counts 0..p. */
  lemma BumpCount(xs: seq<int>, p: nat)
    requires p < |xs|
    ensures Sum(xs[p := xs[p] + 1][..p + 1]) == Sum(xs[..p + 1]) + 1
  {
    assert xs[p := xs[p] + 1][..p + 1] == xs[..p] + [xs[p] + 1];
    assert xs[..p + 1] == xs[..p] + [xs[p]];
    SumSnoc(xs[..p], xs[p] + 1);
    SumSnoc(xs[..p], xs[p]);
  }

  /** Starting count p + 1 at one adds one to the sum of the counts. */
  lemma NewCount(xs: seq<int>, p: nat)
    requires p + 1 < |xs|
    ensures Sum(xs[p + 1 := 1][..p + 2]) == Sum(xs[..p + 1]) + 1
  {
    assert xs[p + 1 := 1][..p + 2] == xs[..p + 1] + [1];
    SumSnoc(xs[..p + 1], 1);
  }

  /**
   The scan of the sorted copy. `unique[p]` is the first value of the current
   run and `uniquect[p]` its length; both arrays have m cells, as in the C code
   (which leaves them uninitialised: only cells up to p are ever read). A run
   replaces the best one (`maxp`, `maxidx`) only when its count becomes strictly
   greater, so of several longest runs the earliest is kept. The ghost `cur` and
   `best` are the positions where the current and the best run start.
   */
  method ModeOfSorted(s: seq<real>, epsilon: real) returns (r: real)
    requires |s| >= 1
    ensures IsModeOf(s, epsilon, r)
  {
    var m := |s|;
    var unique := seq(m, _ => 0.0);
    var uniquect := seq(m, _ => 0);
    unique := unique[0 := s[0]];
    uniquect := uniquect[0 := 1];
    var p, maxp, maxidx := 0, 0, 0;
    ghost var cur, best := 0, 0;
    assert uniquect[..1] == [1];
    assert Sum([1]) == Sum([]) + 1;
    var i := 1;
    while i < m
      invariant 1 <= i <= m && |unique| == m && |uniquect| == m
      invariant 0 <= p < m && 0 <= maxidx <= p
      invariant Sum(uniquect[..p + 1]) == i
      invariant forall k :: 0 <= k <= p ==> uniquect[k] >= 1
      invariant Scan(s, epsilon, i, cur, best, maxp) == Scan(s, epsilon, 1, 0, 0, 0)
      invariant 0 <= cur < i && 0 <= best < i
      invariant unique[p] == s[cur] && uniquect[p] == i - cur
      invariant unique[maxidx] == s[best]
    {
      if Fabs(s[i] - s[i - 1]) < epsilon {
        BumpCount(uniquect, p);
        uniquect := uniquect[p := uniquect[p] + 1];
        if uniquect[p] > maxp {
          maxp := uniquect[p];
          maxidx := p;
          best := cur;
        }
      } else {
        SumAtLeastLength(uniquect[..p + 1]);
        NewCount(uniquect, p);
        p := p + 1;
        unique := unique[p := s[i]];
        uniquect := uniquect[p := 1];
        cur := i;
      }
      i := i + 1;
    }
    ScanFindsMode(s, epsilon);
    if maxp > 1 {
      r := unique[maxidx];
    } else {
      r := 0.0;
    }
  }

  /** The range the library passes, [0, m] with m the buffer size, always runs one
      cell past the buffer; [0, m - 1] is the range that covers it exactly. */
  lemma CallerRangeOverruns(m: int)
    requires m >= 1
    ensures !RangeWithin(m, 0, m)
    ensures RangeWithin(m, 0, m - 1)
  {
  }

  /**
   minimum() as written: the sort runs over m + 1 cells, the m samples and the
   value `beyond` that lies past the buffer. When `beyond` is smaller than every
   sample it is returned, although it is not a sample.
   */
  method MinimumAsWritten(samples: seq<real>, beyond: real) returns (r: real)
    requires |samples| >= 1
    ensures (forall k :: 0 <= k < |samples| ==> beyond < samples[k]) ==> r == beyond && r !in samples
    ensures (exists k :: 0 <= k < |samples| && samples[k] <= beyond) ==>
              r in samples && forall k :: 0 <= k < |samples| ==> r <= samples[k]
  {
    var m := |samples|;
    var buffer := samples + [beyond];
    buffer := MergeSort(buffer, 0, m);
    r := buffer[0];
    OverrunSortsAll(samples, beyond, buffer);
    SortedEnds(buffer, samples + [beyond]);
    assert forall k :: 0 <= k < |samples| ==> samples[k] == (samples + [beyond])[k];
    assert beyond == (samples + [beyond])[m];
  }

  /**
   maximum() as written: it reads sorted[m - 1] of the m + 1 sorted cells, the
   second largest of the samples and `beyond`. That is the largest sample exactly
   when `beyond` is no smaller than every sample or the largest sample occurs
   twice. When `beyond` is smaller than every sample the result is the second
   largest sample (or `beyond` itself when there is one sample).
   */
  method MaximumAsWritten(samples: seq<real>, beyond: real) returns (r: real)
    requires |samples| >= 1
    ensures exists t :: IsSortingOf(t, samples + [beyond]) && |t| == |samples| + 1 && r == t[|samples| - 1]
    ensures IsMaximumOf(r, samples) <==>
              (forall k :: 0 <= k < |samples| ==> samples[k] <= beyond) ||
              (exists x :: IsMaximumOf(x, samples) && multiset(samples)[x] >= 2)
    ensures (forall k :: 0 <= k < |samples| ==> beyond < samples[k]) ==>
              r == (if |samples| == 1 then beyond else Sort(samples)[|samples| - 2])
  {
    var m := |samples|;
    var buffer := samples + [beyond];
    buffer := MergeSort(buffer, 0, m);
    r := buffer[m - 1];
    OverrunSortsAll(samples, beyond, buffer);
    SecondFromTop(samples, beyond, buffer);
    if forall k :: 0 <= k < m ==> beyond < samples[k] {
      BelowAllSortsFirst(samples, beyond);
    }
  }

  /**
   Cell m - 1 of an ascending arrangement t of the m samples and `beyond` holds the
   largest sample exactly when `beyond` is no smaller than every sample or the
   largest sample occurs at least twice.
   */
  lemma SecondFromTop(samples: seq<real>, beyond: real, t: seq<real>)
    requires |samples| >= 1 && |t| == |samples| + 1 && IsSortingOf(t, samples + [beyond])
    ensures IsMaximumOf(t[|samples| - 1], samples) <==>
              (forall k :: 0 <= k < |samples| ==> samples[k] <= beyond) ||
              (exists x :: IsMaximumOf(x, samples) && multiset(samples)[x] >= 2)
  {
    var m := |samples|;
    var all := samples + [beyond];
    assert forall k :: 0 <= k < m ==> all[k] == samples[k];
    assert all[m] == beyond;
    SortedEnds(t, all);
    var top := t[m];
    assert multiset(all) == multiset(samples) + multiset{beyond};
    if forall k :: 0 <= k < m ==> samples[k] <= beyond {
      assert top == beyond;
      DropSameLast(t, all);
      assert all[..m] == samples;
      SortedEnds(t[..m], samples);
    } else {
      var k0 :| 0 <= k0 < m && beyond < samples[k0];
      assert top != beyond;
      assert top in multiset(samples);
      assert IsMaximumOf(top, samples);
      TopTwice(t, top);
      assert multiset(t)[top] == multiset(samples)[top];
      forall x | IsMaximumOf(x, samples)
        ensures x == top
      {
      }
    }
  }

  /** Two rearrangements of each other that end in the same value are, without it,
      still rearrangements of each other. */
  lemma DropSameLast(t: seq<real>, u: seq<real>)
    requires |t| == |u| >= 1 && multiset(t) == multiset(u) && t[|t| - 1] == u[|u| - 1]
    ensures multiset(t[..|t| - 1]) == multiset(u[..|u| - 1])
  {
    var n := |t|;
    assert t == t[..n - 1] + [t[n - 1]];
    assert u == u[..n - 1] + [u[n - 1]];
    assert multiset(t[..n - 1]) == multiset(t) - multiset{t[n - 1]};
  }

  /** The largest element of a sorted sequence of length >= 2 occurs twice exactly
      when it also fills the next-to-last cell. */
  lemma TopTwice(t: seq<real>, top: real)
    requires |t| >= 2 && Sorted(t) && top == t[|t| - 1]
    ensures t[|t| - 2] == top <==> multiset(t)[top] >= 2
  {
    var n := |t|;
    var front := t[..n - 2];
    assert t == front + [t[n - 2]] + [top];
    if t[n - 2] != top {
      assert forall k :: 0 <= k < |front| ==> front[k] <= t[n - 2] < top;
      assert top !in front;
    }
  }

  /** The over-long sort leaves the m + 1 cells holding the reference sort of the
      samples together with `beyond`. */
  lemma OverrunSortsAll(samples: seq<real>, beyond: real, buffer: seq<real>)
    requires |samples| >= 1
    requires SortsRange(samples + [beyond], buffer, 0, |samples|)
    ensures buffer == Sort(samples + [beyond])
    ensures Sorted(buffer) && multiset(buffer) == multiset(samples + [beyond])
  {
    var m := |samples|;
    SortsRangeAgreesWithSort(samples + [beyond], buffer, 0, m);
    assert (samples + [beyond])[0..m + 1] == samples + [beyond];
    assert buffer[0..m + 1] == buffer;
  }

  /** A value below every sample sorts first. */
  lemma BelowAllSortsFirst(samples: seq<real>, beyond: real)
    requires forall k :: 0 <= k < |samples| ==> beyond < samples[k]
    ensures Sort(samples + [beyond]) == [beyond] + Sort(samples)
  {
    SortSpec(samples);
    var t := [beyond] + Sort(samples);
    assert LowerBound(beyond, samples);
    LowerBoundOfPermutation(beyond, samples, Sort(samples));
    ConsSorted(beyond, Sort(samples));
    assert multiset(t) == multiset(samples + [beyond]);
    SortCharacterized(samples + [beyond], t);
  }
}
