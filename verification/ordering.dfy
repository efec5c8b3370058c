/**
 Ascending order over real-valued samples, and a reference sort that the
 library's own sorting routines and order statistics are measured against.
 Samples are modelled as `real`, so every comparison, difference and sum is
 exact; the float rounding and overflow of the C code are not modelled.
 */
module Ordering {

  /** s is in non-decreasing order. */
  predicate Sorted(s: seq<real>) {
    forall i, j :: 0 <= i < j < |s| ==> s[i] <= s[j]
  }

  /** Neither the first `lo` nor the elements from `hi` on differ between a and b. */
  predicate SameOutside(a: seq<real>, b: seq<real>, lo: int, hi: int) {
    |a| == |b| && forall k :: 0 <= k < |a| && (k < lo || hi <= k) ==> a[k] == b[k]
  }

  /** t holds the values of s in ascending order. */
  predicate IsSortingOf(t: seq<real>, s: seq<real>) {
    Sorted(t) && multiset(t) == multiset(s)
  }

  /** x is a lower bound of every element of s. */
  predicate LowerBound(x: real, s: seq<real>) {
    forall k :: 0 <= k < |s| ==> x <= s[k]
  }

  /** A lower bound of s is a lower bound of every rearrangement of s. */
  lemma LowerBoundOfPermutation(x: real, s: seq<real>, t: seq<real>)
    requires multiset(s) == multiset(t)
    requires LowerBound(x, s)
    ensures LowerBound(x, t)
  {
    forall k | 0 <= k < |t|
      ensures x <= t[k]
    {
      assert t[k] in multiset(s);
      var j :| 0 <= j < |s| && s[j] == t[k];
    }
  }

  /** Reference insertion: x goes in front of the first element that is >= x. */
  function Insert(x: real, s: seq<real>): (r: seq<real>)
    ensures |r| == |s| + 1
  {
    if |s| == 0 then [x]
    else if x <= s[0] then [x] + s
    else [s[0]] + Insert(x, s[1..])
  }

  /** Reference sort (insertion sort), independent of the library's algorithms. */
  function Sort(s: seq<real>): (r: seq<real>)
    ensures |r| == |s|
  {
    if |s| == 0 then [] else Insert(s[0], Sort(s[1..]))
  }

  /** Insertion adds exactly x. */
  lemma {:induction false} InsertPermutes(x: real, s: seq<real>)
    ensures multiset(Insert(x, s)) == multiset(s) + multiset{x}
  {
    if |s| > 0 && x > s[0] {
      InsertPermutes(x, s[1..]);
      assert s == [s[0]] + s[1..];
    }
  }

  /** A lower bound of a sorted sequence can go in front of it. */
  lemma ConsSorted(h: real, t: seq<real>)
    requires LowerBound(h, t) && Sorted(t)
    ensures Sorted([h] + t)
  {
  }

  /** Insertion keeps a sorted sequence sorted. */
  lemma {:induction false} InsertSorted(x: real, s: seq<real>)
    requires Sorted(s)
    ensures Sorted(Insert(x, s))
  {
    if |s| > 0 && x > s[0] {
      var rest := Insert(x, s[1..]);
      InsertSorted(x, s[1..]);
      InsertPermutes(x, s[1..]);
      assert LowerBound(s[0], [x] + s[1..]);
      assert multiset([x] + s[1..]) == multiset(rest);
      LowerBoundOfPermutation(s[0], [x] + s[1..], rest);
      ConsSorted(s[0], rest);
    }
  }

  /** The reference sort returns a sorted rearrangement of its input. */
  lemma {:induction false} SortSpec(s: seq<real>)
    ensures Sorted(Sort(s))
    ensures multiset(Sort(s)) == multiset(s)
  {
    if |s| > 0 {
      SortSpec(s[1..]);
      InsertPermutes(s[0], Sort(s[1..]));
      InsertSorted(s[0], Sort(s[1..]));
      assert s == [s[0]] + s[1..];
      calc {
        multiset(Sort(s));
        multiset(Sort(s[1..])) + multiset{s[0]};
        multiset(s[1..]) + multiset{s[0]};
        multiset(s);
      }
    }
  }

  /** Removing equal first elements from two rearrangements of each other leaves
      rearrangements of each other. */
  lemma DropEqualHeads(a: seq<real>, b: seq<real>)
    requires multiset(a) == multiset(b)
    requires |a| > 0 && |b| > 0 && a[0] == b[0]
    ensures multiset(a[1..]) == multiset(b[1..])
  {
    assert a == [a[0]] + a[1..];
    assert b == [b[0]] + b[1..];
    calc {
      multiset(a[1..]);
      (multiset{a[0]} + multiset(a[1..])) - multiset{a[0]};
      multiset(a) - multiset{a[0]};
      multiset(b) - multiset{b[0]};
      (multiset{b[0]} + multiset(b[1..])) - multiset{b[0]};
      multiset(b[1..]);
    }
  }

  /** Two sorted rearrangements of each other start with the same element. */
  lemma SortedSameHead(a: seq<real>, b: seq<real>)
    requires Sorted(a) && Sorted(b)
    requires multiset(a) == multiset(b)
    requires |a| > 0 && |b| > 0
    ensures a[0] == b[0]
  {
    assert a[0] in multiset(b);
    var j :| 0 <= j < |b| && b[j] == a[0];
    assert b[0] in multiset(a);
    var i :| 0 <= i < |a| && a[i] == b[0];
  }

  /** Two sorted sequences holding the same multiset of values are equal. */
  lemma {:induction false} SortedUnique(a: seq<real>, b: seq<real>)
    requires Sorted(a) && Sorted(b)
    requires multiset(a) == multiset(b)
    ensures a == b
  {
    assert |a| == |multiset(a)| == |multiset(b)| == |b|;
    if |a| > 0 {
      SortedSameHead(a, b);
      DropEqualHeads(a, b);
      SortedUnique(a[1..], b[1..]);
      assert a == [a[0]] + a[1..];
      assert b == [b[0]] + b[1..];
    }
  }

  /** Sort(s) is the only sorted rearrangement of s. */
  lemma SortCharacterized(s: seq<real>, r: seq<real>)
    requires Sorted(r) && multiset(r) == multiset(s)
    ensures r == Sort(s)
  {
    SortSpec(s);
    SortedUnique(r, Sort(s));
  }

  /** The first and last elements of a sorted rearrangement of t are elements of t
      and bound every element of t. */
  lemma SortedEnds(s: seq<real>, t: seq<real>)
    requires Sorted(s) && multiset(s) == multiset(t) && |s| > 0
    ensures s[0] in t && s[|s| - 1] in t
    ensures forall k :: 0 <= k < |t| ==> s[0] <= t[k] <= s[|s| - 1]
  {
    assert s[0] in multiset(t);
    assert s[|s| - 1] in multiset(t);
    forall k | 0 <= k < |t|
      ensures s[0] <= t[k] <= s[|s| - 1]
    {
      assert t[k] in multiset(s);
      var j :| 0 <= j < |s| && s[j] == t[k];
    }
  }
}
