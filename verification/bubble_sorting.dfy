/**
 The library's bubble sort of the prefix A[0..len). Every pass walks the whole
 prefix swapping adjacent out-of-order pairs and remembers the position of its
 last swap; passes repeat until that position is 1 (a pass that swaps nothing
 also reports 1). As for the merge sort, the buffer is a value: the method takes
 its contents before the call and returns them after it.
 */
module BubbleSorting {
  import opened Ordering

  /**
   Every element at an index j >= n (inside the prefix of length len) is no
   smaller than anything before it: the tail from n on holds the largest
   values of the prefix, in order.
   */
  predicate PlacedFrom(s: seq<real>, len: int, n: int)
    requires len <= |s|
  {
    forall i, j :: 0 <= i < j < len && n <= j ==> s[i] <= s[j]
  }

  /** s with the elements at i and j exchanged. */
  function Swap(s: seq<real>, i: int, j: int): (r: seq<real>)
    requires 0 <= i < |s| && 0 <= j < |s|
    ensures |r| == |s| && r[i] == s[j] && r[j] == s[i]
    ensures forall k :: 0 <= k < |s| && k != i && k != j ==> r[k] == s[k]
    ensures multiset(r) == multiset(s)
  {
    s[i := s[j]][j := s[i]]
  }

  /**
   One pass of the do-while body: for p = 1 .. len-1, swap A[p-1] and A[p] when
   A[p-1] > A[p], recording p as `newn`. If the elements from n on were already
   in place, no swap happens at or beyond n, so the pass ends with a smaller
   bound (or with 1), and every element from `newn` on is now in place.
   */
  method BubblePass(a: seq<real>, len: int, ghost n: int) returns (b: seq<real>, newn: int)
    requires len <= |a|
    requires PlacedFrom(a, len, n)
    ensures |b| == |a| && SameOutside(a, b, 0, len) && multiset(b) == multiset(a)
    ensures 1 <= newn && (newn == 1 || newn < n)
    ensures PlacedFrom(b, len, newn)
    ensures len <= 1 ==> b == a
  {
    b := a;
    newn := 1;
    var p := 1;
    while p < len
      invariant 1 <= p && (len >= 1 ==> p <= len)
      invariant |b| == |a| && SameOutside(a, b, 0, len) && multiset(b) == multiset(a)
      invariant len <= 1 ==> b == a
      invariant forall k :: p <= k < |a| ==> b[k] == a[k]
      invariant forall k :: 0 <= k < p <= len ==> b[k] <= b[p - 1]
      invariant forall i, j :: 0 <= i < j < p && j < len && newn <= j ==> b[i] <= b[j]
      invariant forall i, j :: 0 <= i < p <= j < len && n <= j ==> b[i] <= b[j]
      invariant 1 <= newn && (newn == 1 || newn < n) && newn < p + 1
    {
      if b[p - 1] > b[p] {
        b := Swap(b, p, p - 1);
        newn := p;
      }
      p := p + 1;
    }
  }

  /**
   Sorts A[0..len) ascending in place. `n` is the bound the do-while tests: the
   position of the last swap of the latest pass. It strictly decreases from
   pass to pass until it reaches 1, which is why the loop terminates.
   */
  method BubbleSort(a: seq<real>, len: int) returns (b: seq<real>)
    requires len <= |a|
    ensures |b| == |a| && SameOutside(a, b, 0, len)
    ensures 0 <= len ==> Sorted(b[..len]) && multiset(b[..len]) == multiset(a[..len])
    ensures 0 <= len ==> b[..len] == Sort(a[..len])
    ensures len <= 1 ==> b == a
  {
    var n := len;
    b, n := BubblePass(a, len, n);
    while n > 1
      invariant 1 <= n
      invariant |b| == |a| && SameOutside(a, b, 0, len) && multiset(b) == multiset(a)
      invariant PlacedFrom(b, len, n)
      invariant len <= 1 ==> b == a
      decreases n
    {
      b, n := BubblePass(b, len, n);
    }
    if 0 <= len {
      PrefixPermutes(a, b, len);
      SortCharacterized(a[..len], b[..len]);
    }
  }

  /** Two rearrangements of each other that agree from `len` on are rearrangements
      of each other on the first `len` elements. */
  lemma PrefixPermutes(a: seq<real>, b: seq<real>, len: int)
    requires 0 <= len <= |a| && multiset(b) == multiset(a) && SameOutside(a, b, 0, len)
    ensures multiset(b[..len]) == multiset(a[..len])
  {
    assert a == a[..len] + a[len..];
    assert b == b[..len] + b[len..];
    assert a[len..] == b[len..];
    calc {
      multiset(b[..len]);
      multiset(b) - multiset(b[len..]);
      multiset(a) - multiset(a[len..]);
      multiset(a[..len]);
    }
  }
}
