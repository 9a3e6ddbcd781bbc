/** No other way of placing the residents of a Robin Hood table brings them nearer to their wanted slots
    on average: the total is counted by the slots each resident passes. */
module TotalDisplacement {
  import opened RobinHood

  /** The sum of the displacements in the first n slots. */
  function TotalDisp(l: Layout, n: nat): nat
    requires IsLayout(l) && n <= |l|
  {
    if n == 0 then 0 else TotalDisp(l, n - 1) + if Taken(l, n - 1) then Disp(l, n - 1) else 0
  }

  /** On the way from slot w forward to slot i the boundary in front of slot k is passed. */
  predicate Passes(c: nat, w: nat, i: nat, k: nat)
    requires w < c && i < c && k < c
  {
    Dist(c, k, i) < Dist(c, w, i)
  }

  predicate PassesAt(l: Layout, i: nat, k: nat)
    requires IsLayout(l) && i < |l| && k < |l|
  {
    Taken(l, i) && Passes(|l|, l[i], i, k)
  }

  /** How many of the first m boundaries are passed from w to i. */
  function PassedBy(c: nat, w: nat, i: nat, m: nat): nat
    requires w < c && i < c && m <= c
  {
    if m == 0 then 0 else PassedBy(c, w, i, m - 1) + if Passes(c, w, i, m - 1) then 1 else 0
  }

  function Least(a: int, b: int): int {
    if a < b then a else b
  }

  /** As many boundaries are passed as steps are made. */
  lemma {:induction false} PassedIsDist(c: nat, w: nat, i: nat, m: nat)
    requires w < c && i < c && m <= c
    ensures PassedBy(c, w, i, m) == Least(m, i + 1) - Least(m, w + 1) + if w <= i then 0 else m
    ensures m == c ==> PassedBy(c, w, i, m) == Dist(c, w, i)
  {
    if m > 0 {
      PassedIsDist(c, w, i, m - 1);
    }
  }

  /** How many residents of the first n slots pass the boundary in front of slot k. */
  function Passing(l: Layout, k: nat, n: nat): nat
    requires IsLayout(l) && k < |l| && n <= |l|
  {
    if n == 0 then 0 else Passing(l, k, n - 1) + if PassesAt(l, n - 1, k) then 1 else 0
  }

  /** The same, for the first m boundaries together. */
  function PassingSum(l: Layout, m: nat, n: nat): nat
    requires IsLayout(l) && m <= |l| && n <= |l|
  {
    if m == 0 then 0 else PassingSum(l, m - 1, n) + Passing(l, m - 1, n)
  }

  lemma {:induction false} OneMoreResident(l: Layout, m: nat, n: nat)
    requires IsLayout(l) && m <= |l| && n < |l|
    ensures PassingSum(l, m, n + 1) == PassingSum(l, m, n) + if Taken(l, n) then PassedBy(|l|, l[n], n, m) else 0
    decreases m
  {
    hide Passes;
    if m > 0 {
      OneMoreResident(l, m - 1, n);
    }
  }

  lemma {:induction false} NobodyPasses(l: Layout, m: nat)
    requires IsLayout(l) && m <= |l|
    ensures PassingSum(l, m, 0) == 0
  {
    if m > 0 {
      NobodyPasses(l, m - 1);
    }
  }

  /** Counting by residents or by boundaries comes to the same. */
  lemma {:induction false} TotalIsPassing(l: Layout, n: nat)
    requires IsLayout(l) && n <= |l|
    ensures TotalDisp(l, n) == PassingSum(l, |l|, n)
  {
    hide PassingSum, PassedBy;
    if n == 0 {
      NobodyPasses(l, |l|);
    } else {
      TotalIsPassing(l, n - 1);
      OneMoreResident(l, |l|, n - 1);
      if Taken(l, n - 1) {
        PassedIsDist(|l|, l[n - 1], n - 1, |l|);
      }
    }
  }

  // ---- From one boundary to the next ----

  lemma OnePasses(l: Layout, i: nat, k: nat)
    requires IsLayout(l) && i < |l| && k < |l|
    ensures (if PassesAt(l, i, Next(|l|, k)) then 1 else 0) + (if i == k && Taken(l, i) then 1 else 0)
         == (if PassesAt(l, i, k) then 1 else 0) + (if l[i] == k then 1 else 0)
  {
  }

  /** Those who wanted slot k join, the one who stays in it leaves. */
  lemma {:induction false} Flow(l: Layout, k: nat, n: nat)
    requires IsLayout(l) && k < |l| && n <= |l|
    ensures Passing(l, Next(|l|, k), n) + (if k < n && Taken(l, k) then 1 else 0) == Passing(l, k, n) + multiset(l[..n])[k]
  {
    hide PassesAt;
    if n > 0 {
      Flow(l, k, n - 1);
      OnePasses(l, n - 1, k);
      assert l[..n] == l[..n - 1] + [l[n - 1]];
    }
  }

  lemma FlowAll(l: Layout, k: nat)
    requires IsLayout(l) && k < |l|
    ensures Passing(l, Next(|l|, k), |l|) + (if Taken(l, k) then 1 else 0) == Passing(l, k, |l|) + multiset(l)[k]
  {
    Flow(l, k, |l|);
    assert l[..|l|] == l;
  }

  lemma {:induction false} SomebodyPasses(l: Layout, k: nat, n: nat) returns (i: nat)
    requires IsLayout(l) && k < |l| && n <= |l| && Passing(l, k, n) > 0
    ensures i < n && PassesAt(l, i, k)
  {
    hide PassesAt;
    if PassesAt(l, n - 1, k) {
      i := n - 1;
    } else {
      i := SomebodyPasses(l, k, n - 1);
    }
  }

  /** In a Robin Hood table no slot stays free that somebody passes or wants. */
  lemma TakenIfPassed(l: Layout, k: nat)
    requires Ordered(l) && k < |l| && (Passing(l, k, |l|) > 0 || multiset(l)[k] > 0)
    ensures Taken(l, k)
  {
    if Passing(l, k, |l|) > 0 {
      var i := SomebodyPasses(l, k, |l|);
      NoGapBehind(l, i, Dist(|l|, k, i));
    } else {
      assert k as int in multiset(l);
      var i :| 0 <= i < |l| && l[i] == k;
      NoGapBehind(l, i, Disp(l, i));
    }
  }

  lemma NobodyPassesSettled(l: Layout, r: nat)
    requires Ordered(l) && r < |l| && Settled(l, r)
    ensures Passing(l, r, |l|) == 0
  {
    if Passing(l, r, |l|) > 0 {
      var i := SomebodyPasses(l, r, |l|);
      NoGapBehind(l, i, Dist(|l|, r, i));
    }
  }

  /** Seen from a settled slot, at each boundary no other layout has fewer residents passing. */
  lemma {:induction false} FewestPass(l: Layout, u: Layout, r: nat, d: nat)
    requires Ordered(l) && r < |l| && Settled(l, r) && IsLayout(u) && |u| == |l| && multiset(u) == multiset(l) && d < |l|
    ensures Passing(l, Around(|l|, r, d), |l|) <= Passing(u, Around(|l|, r, d), |l|)
    decreases d
  {
    hide Passing, Settled, OkAt;
    if d == 0 {
      NobodyPassesSettled(l, r);
    } else {
      FewestPass(l, u, r, d - 1);
      var k := Around(|l|, r, d - 1);
      FlowAll(l, k);
      FlowAll(u, k);
      if Passing(l, k, |l|) > 0 || multiset(l)[k] > 0 {
        TakenIfPassed(l, k);
      }
    }
  }

  lemma {:induction false} SumOfFewest(l: Layout, u: Layout, m: nat)
    requires IsLayout(l) && IsLayout(u) && |u| == |l| && m <= |l|
    requires forall k :: 0 <= k < m ==> Passing(l, k, |l|) <= Passing(u, k, |l|)
    ensures PassingSum(l, m, |l|) <= PassingSum(u, m, |l|)
  {
    hide Passing;
    if m > 0 {
      SumOfFewest(l, u, m - 1);
    }
  }

  /** The total, and so the average, displacement is the least of all ways of placing the same residents. */
  lemma TotalDispIsLeast(l: Layout, u: Layout)
    requires Valid(l) && IsLayout(u) && multiset(l) == multiset(u)
    ensures |u| == |l| && TotalDisp(l, |l|) <= TotalDisp(u, |u|)
  {
    hide Passing, PassingSum, TotalDisp;
    assert |multiset(l)| == |multiset(u)|;
    var r :| 0 <= r < |l| && Settled(l, r);
    forall k | 0 <= k < |l| ensures Passing(l, k, |l|) <= Passing(u, k, |l|) {
      FewestPass(l, u, r, Dist(|l|, r, k));
    }
    SumOfFewest(l, u, |l|);
    TotalIsPassing(l, |l|);
    TotalIsPassing(u, |l|);
  }
}
