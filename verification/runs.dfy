/**
 Runs of a sorted sample sequence, as the mode computation sees them: two
 neighbours belong to the same run when their absolute difference is strictly
 below the tolerance epsilon. Runs are chained, so a run may span values that
 differ by more than epsilon in total.
 */
module Runs {

  /** Absolute value of a sample. */
  function Fabs(x: real): (r: real)
    ensures r >= 0.0
    ensures r == x || r == -x
  {
    if x < 0.0 then -x else x
  }

  /** Position k is joined to its left neighbour k - 1. */
  predicate Joined(s: seq<real>, eps: real, k: int) {
    1 <= k < |s| && Fabs(s[k] - s[k - 1]) < eps
  }

  /**
   [lo, hi) is a maximal run of s as far as the first n positions show: it is
   not joined to the left, every inner position is joined, and it either
   reaches n or is not joined to the right.
   */
  predicate RunWithin(s: seq<real>, eps: real, n: int, lo: int, hi: int) {
    && 0 <= lo < hi <= n <= |s|
    && !Joined(s, eps, lo)
    && (forall k :: lo < k < hi ==> Joined(s, eps, k))
    && (hi == n || !Joined(s, eps, hi))
  }

  /** [lo, hi) is a maximal run of the whole of s. */
  predicate IsRun(s: seq<real>, eps: real, lo: int, hi: int) {
    RunWithin(s, eps, |s|, lo, hi)
  }

  /** No run among the first n positions is longer than `bound`. */
  ghost predicate LongestWithin(s: seq<real>, eps: real, n: int, bound: int) {
    forall lo, hi :: RunWithin(s, eps, n, lo, hi) ==> hi - lo <= bound
  }

  /** Every run among the first n positions that starts before `start` is shorter than `len`. */
  ghost predicate ShorterBefore(s: seq<real>, eps: real, n: int, start: int, len: int) {
    forall lo, hi :: RunWithin(s, eps, n, lo, hi) && lo < start ==> hi - lo < len
  }

  /** No position below n is joined to its left neighbour. */
  predicate NoneJoinedBelow(s: seq<real>, eps: real, n: int) {
    forall k :: 1 <= k < n ==> !Joined(s, eps, k)
  }

  /**
   [lo, hi) is the modal run: a run of at least two samples, no run is longer,
   and every run that starts earlier is strictly shorter (the earliest of the
   longest runs wins).
   */
  ghost predicate ModalRun(s: seq<real>, eps: real, lo: int, hi: int) {
    && IsRun(s, eps, lo, hi)
    && hi - lo >= 2
    && LongestWithin(s, eps, |s|, hi - lo)
    && ShorterBefore(s, eps, |s|, lo, hi - lo)
  }

  /**
   r is the mode of the sorted samples s under tolerance eps: the first sample
   of the modal run when some neighbours are joined, and the sentinel 0.0 when
   none are.
   */
  ghost predicate IsModeOf(s: seq<real>, eps: real, r: real) {
    if exists k :: Joined(s, eps, k) then
      exists lo, hi :: ModalRun(s, eps, lo, hi) && r == s[lo]
    else
      r == 0.0
  }

  /** A strict comparison with a non-positive tolerance never holds, and a single
      sample has no neighbour: in both cases nothing is joined. */
  lemma NothingJoined(s: seq<real>, eps: real)
    requires eps <= 0.0 || |s| <= 1
    ensures NoneJoinedBelow(s, eps, |s|)
    ensures forall k :: !Joined(s, eps, k)
  {
  }

  /** Two runs ending at n + 1 where [cur, n) is the run ending at n: the later run
      continues [cur, n) when n is joined, and otherwise starts at n. */
  lemma RunEndingAt(s: seq<real>, eps: real, n: int, cur: int, lo: int)
    requires RunWithin(s, eps, n, cur, n)
    requires RunWithin(s, eps, n + 1, lo, n + 1)
    ensures lo == (if Joined(s, eps, n) then cur else n)
  {
    assert lo < cur ==> Joined(s, eps, cur);
    assert cur < lo < n ==> Joined(s, eps, lo);
    assert lo < n ==> Joined(s, eps, n);
  }

  /** A run among the first n + 1 positions that ends by n is a run among the first n. */
  lemma RunShrinks(s: seq<real>, eps: real, n: int, lo: int, hi: int)
    requires RunWithin(s, eps, n + 1, lo, hi) && hi <= n
    ensures RunWithin(s, eps, n, lo, hi)
  {
  }

  /** A run among the first n positions that stops short of n lies before the run
      [cur, n) that reaches n. */
  lemma RunBeforeCurrent(s: seq<real>, eps: real, n: int, cur: int, lo: int, hi: int)
    requires RunWithin(s, eps, n, cur, n)
    requires RunWithin(s, eps, n, lo, hi) && hi < n
    ensures hi <= cur
  {
    assert lo < cur < hi ==> Joined(s, eps, cur);
    assert cur < lo < hi ==> Joined(s, eps, lo);
    assert lo == cur < hi ==> Joined(s, eps, hi);
  }

  /** Position n joins the current run [cur, n), which becomes the longest run. */
  lemma {:induction false} StepNewLongest(s: seq<real>, eps: real, n: int, cur: int, bound: int)
    requires n < |s| && RunWithin(s, eps, n, cur, n) && Joined(s, eps, n)
    requires LongestWithin(s, eps, n, bound) && bound < n + 1 - cur
    ensures RunWithin(s, eps, n + 1, cur, n + 1)
    ensures LongestWithin(s, eps, n + 1, n + 1 - cur)
    ensures ShorterBefore(s, eps, n + 1, cur, n + 1 - cur)
  {
    var next := n + 1;
    forall lo, hi | RunWithin(s, eps, next, lo, hi)
      ensures hi - lo <= n + 1 - cur
      ensures lo < cur ==> hi - lo < n + 1 - cur
    {
      if hi == next {
        RunEndingAt(s, eps, n, cur, lo);
      } else {
        RunShrinks(s, eps, n, lo, hi);
      }
    }
  }

  /** Position n joins the current run [cur, n), which stays no longer than the best
      run [best, best + len); the best run and both facts about it carry over. */
  lemma {:induction false} StepKeepLongest(s: seq<real>, eps: real, n: int, cur: int, best: int, len: int)
    requires n < |s| && RunWithin(s, eps, n, cur, n) && Joined(s, eps, n)
    requires RunWithin(s, eps, n, best, best + len) && n + 1 - cur <= len
    requires LongestWithin(s, eps, n, len) && ShorterBefore(s, eps, n, best, len)
    ensures RunWithin(s, eps, n + 1, cur, n + 1)
    ensures RunWithin(s, eps, n + 1, best, best + len)
    ensures LongestWithin(s, eps, n + 1, len)
    ensures ShorterBefore(s, eps, n + 1, best, len)
  {
    if best + len == n {
      RunWithinSameEnd(s, eps, n, cur, best);
    }
    RunBeforeCurrent(s, eps, n, cur, best, best + len);
    var next := n + 1;
    forall lo, hi | RunWithin(s, eps, next, lo, hi)
      ensures hi - lo <= len
      ensures lo < best ==> hi - lo < len
    {
      if hi == next {
        RunEndingAt(s, eps, n, cur, lo);
      } else {
        RunShrinks(s, eps, n, lo, hi);
      }
    }
  }

  /** Two runs among the first n positions that both reach n are the same run. */
  lemma RunWithinSameEnd(s: seq<real>, eps: real, n: int, lo1: int, lo2: int)
    requires RunWithin(s, eps, n, lo1, n) && RunWithin(s, eps, n, lo2, n)
    ensures lo1 == lo2
  {
    assert lo1 < lo2 ==> Joined(s, eps, lo2);
    assert lo2 < lo1 ==> Joined(s, eps, lo1);
  }

  /** Position n is not joined: a new run [n, n + 1) starts; every earlier run,
      including the best one, carries over unchanged. */
  lemma {:induction false} StepNewRun(s: seq<real>, eps: real, n: int, cur: int, best: int, len: int, bound: int)
    requires n < |s| && RunWithin(s, eps, n, cur, n) && !Joined(s, eps, n)
    requires 1 <= bound && LongestWithin(s, eps, n, bound)
    requires best <= n && ShorterBefore(s, eps, n, best, len)
    ensures RunWithin(s, eps, n + 1, n, n + 1)
    ensures forall hi :: RunWithin(s, eps, n, best, hi) ==> RunWithin(s, eps, n + 1, best, hi)
    ensures LongestWithin(s, eps, n + 1, bound)
    ensures ShorterBefore(s, eps, n + 1, best, len)
  {
    var next := n + 1;
    forall lo, hi | RunWithin(s, eps, next, lo, hi)
      ensures hi - lo <= bound
      ensures lo < best ==> hi - lo < len
    {
      if hi == next {
        RunEndingAt(s, eps, n, cur, lo);
      } else {
        RunShrinks(s, eps, n, lo, hi);
      }
    }
  }

  /**
   What the mode scan knows after looking at the first n positions: [cur, n) is
   the current run; when `maxp` is 0 nothing is joined yet, and otherwise
   [best, best + maxp) is a run of at least two; no run is longer than maxp
   (or than 1 while maxp is 0), and every run starting before `best` is
   strictly shorter than maxp.
   */
  ghost predicate ScanState(s: seq<real>, eps: real, n: int, cur: int, best: int, maxp: int) {
    && 0 <= cur < n <= |s|
    && RunWithin(s, eps, n, cur, n)
    && (maxp == 0 ==> best == 0 && NoneJoinedBelow(s, eps, n))
    && (maxp != 0 ==> 2 <= maxp && RunWithin(s, eps, n, best, best + maxp))
    && LongestWithin(s, eps, n, if maxp == 0 then 1 else maxp)
    && best < n && ShorterBefore(s, eps, n, best, maxp)
  }

  /** Before the scan: the first sample on its own is the current run. */
  lemma ScanStart(s: seq<real>, eps: real)
    requires |s| >= 1
    ensures ScanState(s, eps, 1, 0, 0, 0)
  {
    assert forall lo, hi :: RunWithin(s, eps, 1, lo, hi) ==> lo == 0 && hi == 1;
  }

  /** Position n is joined: the current run grows, and becomes the best run (best2,
      maxp2) exactly when its length exceeds maxp; otherwise the best run stays. */
  lemma ScanJoined(s: seq<real>, eps: real, n: int, cur: int, best: int, maxp: int, best2: int, maxp2: int)
    requires ScanState(s, eps, n, cur, best, maxp) && n < |s| && Joined(s, eps, n)
    requires n + 1 - cur > maxp ==> best2 == cur && maxp2 == n + 1 - cur
    requires n + 1 - cur <= maxp ==> best2 == best && maxp2 == maxp
    ensures ScanState(s, eps, n + 1, cur, best2, maxp2)
  {
    if n + 1 - cur > maxp {
      StepNewLongest(s, eps, n, cur, if maxp == 0 then 1 else maxp);
    } else {
      StepKeepLongest(s, eps, n, cur, best, maxp);
    }
  }

  /** Position n is not joined: a new current run starts at n. */
  lemma ScanSplit(s: seq<real>, eps: real, n: int, cur: int, best: int, maxp: int)
    requires ScanState(s, eps, n, cur, best, maxp) && n < |s| && !Joined(s, eps, n)
    ensures ScanState(s, eps, n + 1, n, best, maxp)
  {
    StepNewRun(s, eps, n, cur, best, maxp, if maxp == 0 then 1 else maxp);
  }

  /**
   The mode scan from position n on, as a function of where the current run
   starts (`cur`), where the best run starts (`best`) and the best count
   (`maxp`); it returns the final values of the three. A joined position grows
   the current run, which becomes the best one only when it is strictly longer;
   any other position starts a new run.
   */
  function Scan(s: seq<real>, eps: real, n: int, cur: int, best: int, maxp: int): (int, int, int)
    decreases |s| - n
  {
    if n >= |s| then (cur, best, maxp)
    else if Joined(s, eps, n) then
      if n + 1 - cur > maxp then Scan(s, eps, n + 1, cur, cur, n + 1 - cur)
      else Scan(s, eps, n + 1, cur, best, maxp)
    else Scan(s, eps, n + 1, n, best, maxp)
  }

  /** One step of the scan at position n keeps what the scan knows; (cur2, best2,
      maxp2) are the values the scan continues with. */
  lemma ScanStep(s: seq<real>, eps: real, n: int, cur: int, best: int, maxp: int)
      returns (cur2: int, best2: int, maxp2: int)
    requires ScanState(s, eps, n, cur, best, maxp) && n < |s|
    ensures Scan(s, eps, n, cur, best, maxp) == Scan(s, eps, n + 1, cur2, best2, maxp2)
    ensures ScanState(s, eps, n + 1, cur2, best2, maxp2)
  {
    if Joined(s, eps, n) {
      if n + 1 - cur > maxp {
        cur2, best2, maxp2 := cur, cur, n + 1 - cur;
      } else {
        cur2, best2, maxp2 := cur, best, maxp;
      }
      ScanJoined(s, eps, n, cur, best, maxp, best2, maxp2);
    } else {
      cur2, best2, maxp2 := n, best, maxp;
      ScanSplit(s, eps, n, cur, best, maxp);
    }
  }

  /** Whatever the scan knows at position n, it still knows at the end, where it
      stops with the values (c, b, mp). */
  lemma {:induction false} ScanSound(s: seq<real>, eps: real, n: int, cur: int, best: int, maxp: int)
      returns (c: int, b: int, mp: int)
    requires ScanState(s, eps, n, cur, best, maxp)
    ensures (c, b, mp) == Scan(s, eps, n, cur, best, maxp)
    ensures ScanState(s, eps, |s|, c, b, mp)
    decreases |s| - n
  {
    if n < |s| {
      var cur2, best2, maxp2 := ScanStep(s, eps, n, cur, best, maxp);
      c, b, mp := ScanSound(s, eps, n + 1, cur2, best2, maxp2);
    } else {
      c, b, mp := cur, best, maxp;
    }
  }

  /** The scan of a non-empty sequence ends with the modal run as its best run when
      some neighbours are joined, and with a count of 0 otherwise. */
  lemma ScanFindsMode(s: seq<real>, eps: real)
    requires |s| >= 1
    ensures var (_, best, maxp) := Scan(s, eps, 1, 0, 0, 0);
            0 <= best < |s| && IsModeOf(s, eps, if maxp > 1 then s[best] else 0.0)
  {
    ScanStart(s, eps);
    var cur, best, maxp := ScanSound(s, eps, 1, 0, 0, 0);
    ScanEnd(s, eps, cur, best, maxp);
  }

  /** After the whole scan, the best run is the modal run, or there is none. */
  lemma ScanEnd(s: seq<real>, eps: real, cur: int, best: int, maxp: int)
    requires ScanState(s, eps, |s|, cur, best, maxp)
    ensures 0 <= best < |s|
    ensures IsModeOf(s, eps, if maxp > 1 then s[best] else 0.0)
  {
    if maxp > 1 {
      assert Joined(s, eps, best + 1);
      assert ModalRun(s, eps, best, best + maxp);
    }
  }

  /** Only one run can be modal: an earlier modal run would be strictly longer than a
      later one, which is no longer than any run. */
  lemma ModalRunUnique(s: seq<real>, eps: real, lo1: int, hi1: int, lo2: int, hi2: int)
    requires ModalRun(s, eps, lo1, hi1) && ModalRun(s, eps, lo2, hi2)
    ensures lo1 == lo2 && hi1 == hi2
  {
    assert lo1 == lo2 && hi1 < hi2 ==> Joined(s, eps, hi1);
    assert lo1 == lo2 && hi2 < hi1 ==> Joined(s, eps, hi2);
  }

  /** The mode of a sorted sample sequence is determined: at most one value meets
      the definition. */
  lemma ModeUnique(s: seq<real>, eps: real, r1: real, r2: real)
    requires IsModeOf(s, eps, r1) && IsModeOf(s, eps, r2)
    ensures r1 == r2
  {
    if exists k :: Joined(s, eps, k) {
      var lo1, hi1 :| ModalRun(s, eps, lo1, hi1) && r1 == s[lo1];
      var lo2, hi2 :| ModalRun(s, eps, lo2, hi2) && r2 == s[lo2];
      ModalRunUnique(s, eps, lo1, hi1, lo2, hi2);
    }
  }
}
