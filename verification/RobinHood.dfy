/** The layout of a Robin Hood hash table: which slots are taken, and which slot each
    resident wanted.  A layout of capacity c is a sequence of c numbers: the wanted slot of
    the resident, or FREE.  Everything the hash table promises about displacements depends on
    the layout alone. */
module RobinHood {

  const FREE := -1

  type Layout = seq<int>

  predicate IsLayout(l: Layout) {
    |l| > 0 && forall i :: 0 <= i < |l| ==> FREE <= l[i] < |l|
  }

  function Next(c: nat, i: nat): nat {
    if i + 1 == c then 0 else i + 1
  }

  /** The slot `k` steps before slot `i`, going round. */
  function Back(c: nat, i: nat, k: nat): nat
    requires i < c && k <= c
  {
    if k <= i then i - k else i - k + c
  }

  /** The number of steps forward from one slot to another, going round. */
  function Dist(c: nat, from: nat, to: nat): nat
    requires from < c && to < c
  {
    if from <= to then to - from else to - from + c
  }

  predicate Taken(l: Layout, i: nat)
    requires i < |l|
  {
    l[i] != FREE
  }

  function Disp(l: Layout, i: nat): nat
    requires IsLayout(l) && i < |l| && Taken(l, i)
  {
    Dist(|l|, l[i], i)
  }

  /** A resident that is not in its wanted slot follows a resident at most one step better placed. */
  predicate OkAt(l: Layout, i: nat)
    requires IsLayout(l) && i < |l|
  {
    var n := Next(|l|, i);
    Taken(l, n) && Disp(l, n) > 0 ==> Taken(l, i) && Disp(l, n) <= Disp(l, i) + 1
  }

  ghost predicate Ordered(l: Layout) {
    IsLayout(l) && forall i :: 0 <= i < |l| ==> OkAt(l, i)
  }

  /** No resident was carried across the boundary in front of this slot. */
  predicate Settled(l: Layout, i: nat)
    requires IsLayout(l) && i < |l|
  {
    !Taken(l, i) || Disp(l, i) == 0
  }

  ghost predicate Valid(l: Layout) {
    Ordered(l) && exists i :: 0 <= i < |l| && Settled(l, i)
  }

  /** Every slot from the wanted slot of a resident up to the resident is taken, by a resident
      whose displacement is at least its distance from that wanted slot. */
  lemma {:induction false} NoGapBehind(l: Layout, s: nat, k: nat)
    requires Ordered(l) && s < |l| && Taken(l, s) && k <= Disp(l, s)
    ensures var p := Back(|l|, s, k); Taken(l, p) && Disp(l, p) + k >= Disp(l, s)
  {
    if k > 0 {
      NoGapBehind(l, s, k - 1);
      assert OkAt(l, Back(|l|, s, k));
    }
  }

  /** Placing a resident with displacement `Dist(w, s)` in slot s keeps the order, if the slot
      before would let it in and the old content of s was free or better placed. */
  lemma PlaceKeepsOrder(l: Layout, s: nat, w: nat)
    requires Ordered(l) && s < |l| && w < |l|
    requires var d := Dist(|l|, w, s);
             && (d > 0 ==> var p := Back(|l|, s, 1); Taken(l, p) && d <= Disp(l, p) + 1)
             && (Taken(l, s) ==> d >= Disp(l, s))
    ensures Ordered(l[s := w])
  {
    var l' := l[s := w];
    forall i | 0 <= i < |l| ensures OkAt(l', i) {
      assert OkAt(l, i);
    }
  }

  /** One step of the backward shift: the follower of s, not in its wanted slot, is copied to s. */
  lemma ShiftKeepsOrder(l: Layout, s: nat)
    requires Ordered(l) && s < |l| && Taken(l, s)
    requires var n := Next(|l|, s); Taken(l, n) && Disp(l, n) > 0
    ensures Ordered(l[s := l[Next(|l|, s)]])
    ensures forall z :: 0 <= z < |l| && Settled(l, z) ==> Settled(l[s := l[Next(|l|, s)]], z)
  {
    var l' := l[s := l[Next(|l|, s)]];
    assert OkAt(l, s);
    forall i | 0 <= i < |l| ensures OkAt(l', i) {
      assert OkAt(l, i);
    }
  }

  /** The end of the backward shift: s is freed once nothing behind it needs it. */
  lemma FreeKeepsOrder(l: Layout, s: nat)
    requires Ordered(l) && s < |l| && Settled(l, Next(|l|, s))
    ensures Valid(l[s := FREE])
  {
    var l' := l[s := FREE];
    forall i | 0 <= i < |l| ensures OkAt(l', i) {
      assert OkAt(l, i);
    }
    assert Settled(l', s);
  }

  // ---- Probing ----

  /** Probing from slot w has come d steps to a slot where it gives up: the slot is free or its
      resident is closer to its wanted slot than d.  No resident that wanted w is d steps away or more. */
  lemma GivingUpIsSafe(l: Layout, w: nat, d: nat, slot: nat)
    requires Ordered(l) && w < |l| && slot < |l|
    requires if d < |l| then d == Dist(|l|, w, slot) else d == |l|
    requires Taken(l, slot) ==> d > Disp(l, slot)
    ensures forall i :: 0 <= i < |l| && l[i] == w ==> Dist(|l|, w, i) < d
  {
    forall i | 0 <= i < |l| && l[i] == w ensures Dist(|l|, w, i) < d {
      if d <= Dist(|l|, w, i) {
        NoGapBehind(l, i, Dist(|l|, w, i) - d);
      }
    }
  }

  /** Probing from slot w has come d steps, to slot `slot`, and did not give up before. */
  ghost predicate Reached(l: Layout, w: nat, d: nat, slot: nat) {
    && Ordered(l) && w < |l| && slot < |l| && d <= |l|
    && (if d < |l| then d == Dist(|l|, w, slot) else slot == w)
    && (d > 0 ==> var p := Back(|l|, slot, 1); Taken(l, p) && d <= Disp(l, p) + 1)
    && forall i :: 0 <= i < |l| && Dist(|l|, w, i) < d ==> Taken(l, i)
  }

  lemma ReachNext(l: Layout, w: nat, d: nat, slot: nat)
    requires Reached(l, w, d, slot) && Taken(l, slot) && d <= Disp(l, slot)
    ensures d < |l| && Reached(l, w, d + 1, Next(|l|, slot))
  {
  }

  /** A resident that wanted w is carried past slot `slot`: it could be let in here, and going on it
      meets slot `e` before it is back at w. */
  ghost predicate Carrying(l: Layout, slot: nat, w: nat, e: nat) {
    && Ordered(l) && slot < |l| && w < |l| && e < |l|
    && var d := Dist(|l|, w, slot);
    && (d > 0 ==> Taken(l, Back(|l|, slot, 1)) && d <= Disp(l, Back(|l|, slot, 1)) + 1)
    && d + Dist(|l|, slot, e) < |l|
  }

  /** Where probing stopped a new resident can be let in, if there is a free slot at all. */
  lemma ReachedCarries(l: Layout, w: nat, d: nat, slot: nat, e: nat)
    requires Reached(l, w, d, slot) && e < |l| && !Taken(l, e)
    ensures Carrying(l, slot, w, e) && d == Dist(|l|, w, slot)
  {
  }

  lemma CarryPast(l: Layout, slot: nat, w: nat, e: nat)
    requires Carrying(l, slot, w, e) && slot != e
    requires Taken(l, slot) && Dist(|l|, w, slot) <= Disp(l, slot)
    ensures Carrying(l, Next(|l|, slot), w, e)
    ensures Dist(|l|, w, Next(|l|, slot)) == Dist(|l|, w, slot) + 1
    ensures Dist(|l|, Next(|l|, slot), e) < Dist(|l|, slot, e)
  {
  }

  /** The carried one takes the slot of a better placed resident, who is carried on instead. */
  lemma CarrySteal(l: Layout, slot: nat, w: nat, e: nat)
    requires Carrying(l, slot, w, e) && !Taken(l, e)
    requires Taken(l, slot) && Dist(|l|, w, slot) > Disp(l, slot)
    ensures var l' := l[slot := w];
            && Carrying(l', Next(|l|, slot), l[slot], e) && !Taken(l', e)
            && Dist(|l|, l[slot], Next(|l|, slot)) == Disp(l, slot) + 1
            && Dist(|l|, Next(|l|, slot), e) < Dist(|l|, slot, e)
  {
    PlaceKeepsOrder(l, slot, w);
    if Dist(|l|, e, slot) <= Disp(l, slot) {
      NoGapBehind(l, slot, Dist(|l|, e, slot));
    }
  }

  /** The carried one ends in a free slot. */
  lemma CarryEnd(l: Layout, slot: nat, w: nat, e: nat)
    requires Carrying(l, slot, w, e) && !Taken(l, slot)
    ensures Valid(l[slot := w])
  {
    PlaceKeepsOrder(l, slot, w);
    assert OkAt(l, slot);
    assert Settled(l[slot := w], Next(|l|, slot));
  }

  // ---- Multisets ----

  function Map<A, B>(f: A -> B, s: seq<A>): (t: seq<B>)
    ensures |t| == |s| && forall k :: 0 <= k < |s| ==> t[k] == f(s[k])
  {
    seq(|s|, k requires 0 <= k < |s| => f(s[k]))
  }

  function Without<A>(s: seq<A>, j: nat): seq<A>
    requires j < |s|
  {
    s[..j] + s[j + 1..]
  }

  lemma WithoutOne<A>(s: seq<A>, j: nat)
    requires j < |s|
    ensures multiset(s) == multiset(Without(s, j)) + multiset{s[j]}
  {
    assert s == s[..j] + [s[j]] + s[j + 1..];
  }

  lemma ReplacedOne<A>(s: seq<A>, j: nat, x: A)
    requires j < |s|
    ensures multiset(s[j := x]) + multiset{s[j]} == multiset(s) + multiset{x}
  {
    WithoutOne(s, j);
    WithoutOne(s[j := x], j);
    assert Without(s[j := x], j) == Without(s, j);
  }

  lemma MapWithout<A, B>(f: A -> B, s: seq<A>, j: nat)
    requires j < |s|
    ensures multiset(Map(f, s)) == multiset(Map(f, Without(s, j))) + multiset{f(s[j])}
  {
    WithoutOne(Map(f, s), j);
    assert Map(f, Without(s, j)) == Without(Map(f, s), j);
  }

  lemma {:induction false} MapKeepsMultiset<A, B>(f: A -> B, a: seq<A>, b: seq<A>)
    requires multiset(a) == multiset(b)
    ensures multiset(Map(f, a)) == multiset(Map(f, b))
    decreases |a|
  {
    if a == [] {
      assert |multiset(b)| == 0;
    } else {
      assert a[0] in multiset(b);
      var j :| 0 <= j < |b| && b[j] == a[0];
      var a', b' := Without(a, 0), Without(b, j);
      assert multiset(a') == multiset(b') by {
        WithoutOne(a, 0);
        WithoutOne(b, j);
        assert multiset(a') == multiset(a) - multiset{a[0]};
        assert multiset(b') == multiset(b) - multiset{a[0]};
      }
      MapKeepsMultiset(f, a', b');
      MapWithout(f, a, 0);
      MapWithout(f, b, j);
    }
  }

  /** If a and b hold the same values, a starts with i values in 0..top, and b has such values
      among its first j only, then j is not less than i. */
  lemma Crowded(a: seq<int>, i: nat, b: seq<int>, j: nat, top: int)
    requires multiset(a) == multiset(b) && i <= |a| && j <= |b|
    requires forall k :: 0 <= k < i ==> 0 <= a[k] <= top
    requires forall k :: 0 <= k < |b| && 0 <= b[k] <= top ==> k < j
    ensures i <= j
  {
    assert a == a[..i] + a[i..];
    assert b == b[..j] + b[j..];
    var x, y := multiset(a[..i]), multiset(b[..j]);
    forall v | v in x ensures x[v] <= y[v] {
      assert v in a[..i];
      assert 0 <= v <= top;
      assert v !in b[j..];
      assert multiset(b)[v] == y[v] + multiset(b[j..])[v];
      assert multiset(a)[v] == x[v] + multiset(a[i..])[v];
    }
    assert y == x + (y - x);
    assert |x| == i && |y| == j;
  }

  // ---- Seen from a settled slot the table is a straight line ----

  /** The layout seen from slot r: slot r becomes slot 0 and wanted slots are counted from r. */
  function From(l: Layout, r: nat): (m: Layout)
    requires IsLayout(l) && r < |l|
    ensures IsLayout(m) && |m| == |l|
    ensures forall k :: 0 <= k < |l| ==> m[k] == Shifted(|l|, r, l[(if r + k < |l| then r + k else r + k - |l|)])
  {
    var f := (w: int) => if FREE <= w < |l| then Shifted(|l|, r, w) else w;
    Map(f, l[r..] + l[..r])
  }

  function Shifted(c: nat, r: nat, w: int): (v: int)
    requires r < c && FREE <= w < c
    ensures FREE <= v < c
  {
    if w == FREE then FREE else Dist(c, r, w)
  }

  function Around(c: nat, r: nat, k: nat): nat
    requires r < c && k < c
  {
    if r + k < c then r + k else r + k - c
  }

  lemma SeenFrom(l: Layout, r: nat, k: nat)
    requires IsLayout(l) && r < |l| && k < |l|
    ensures var i := Around(|l|, r, k);
            (Taken(From(l, r), k) <==> Taken(l, i)) && (Taken(l, i) ==> Disp(From(l, r), k) == Disp(l, i))
  {
    assert From(l, r)[k] == Shifted(|l|, r, l[Around(|l|, r, k)]);
  }

  lemma FromKeepsOrder(l: Layout, r: nat)
    requires Ordered(l) && r < |l|
    ensures Ordered(From(l, r))
    ensures Settled(From(l, r), 0) <==> Settled(l, r)
  {
    forall k | 0 <= k < |l| ensures OkAt(From(l, r), k) {
      SeenFrom(l, r, k);
      SeenFrom(l, r, Next(|l|, k));
      assert OkAt(l, Around(|l|, r, k));
    }
    SeenFrom(l, r, 0);
  }

  /** Nobody wraps round the end of the table. */
  ghost predicate Straight(l: Layout) {
    IsLayout(l) && forall k :: 0 <= k < |l| && Taken(l, k) ==> l[k] <= k
  }

  lemma {:induction false} SettledStartIsStraight(l: Layout, n: nat)
    requires Ordered(l) && Settled(l, 0) && n <= |l|
    ensures forall k :: 0 <= k < n && Taken(l, k) ==> l[k] <= k
  {
    if n > 1 {
      SettledStartIsStraight(l, n - 1);
      assert OkAt(l, n - 2);
    }
  }

  /** On a straight line the residents stand in the order of their wanted slots. */
  lemma {:induction false} StraightIsSorted(l: Layout, i: nat, j: nat)
    requires Ordered(l) && Straight(l) && i < j < |l| && Taken(l, i) && Taken(l, j)
    ensures l[i] <= l[j]
    decreases j
  {
    assert OkAt(l, j - 1);
    if Disp(l, j) > 0 && i < j - 1 {
      StraightIsSorted(l, i, j - 1);
    }
  }

  lemma SameValuesFrom(l: Layout, u: Layout, r: nat)
    requires IsLayout(l) && IsLayout(u) && multiset(l) == multiset(u) && r < |l| == |u|
    ensures multiset(From(l, r)) == multiset(From(u, r))
  {
    var f := (w: int) => if FREE <= w < |l| then Shifted(|l|, r, w) else w;
    var x, y := l[r..] + l[..r], u[r..] + u[..r];
    assert l == l[..r] + l[r..] && u == u[..r] + u[r..];
    assert multiset(x) == multiset(l) && multiset(y) == multiset(u);
    MapKeepsMultiset(f, x, y);
    assert From(l, r) == Map(f, x) && From(u, r) == Map(f, y);
  }

  /** Walking back from a resident to the start of its run. */
  lemma {:induction false} WalkBack(l: Layout, s: nat, r: nat, z: nat) returns (start: nat)
    requires Ordered(l) && s < |l| && r < |l| && z < |l| && Settled(l, z)
    requires Dist(|l|, r, s) <= Dist(|l|, z, s)
    requires forall k :: 0 <= k <= Dist(|l|, r, s) ==> Taken(l, Back(|l|, s, k))
    ensures start < |l|
    ensures forall k :: 0 <= k <= Dist(|l|, start, s) ==> Taken(l, Back(|l|, s, k))
    ensures Taken(l, start) && Disp(l, start) == 0
    decreases Dist(|l|, z, s) - Dist(|l|, r, s)
  {
    assert r == Back(|l|, s, Dist(|l|, r, s));
    if Disp(l, r) == 0 {
      start := r;
    } else {
      var p := Back(|l|, r, 1);
      assert OkAt(l, p);
      assert r != z;
      assert Dist(|l|, p, s) == Dist(|l|, r, s) + 1;
      start := WalkBack(l, s, p, z);
    }
  }

  lemma RunIsTaken(l: Layout, s: nat, r: nat, i: nat)
    requires IsLayout(l) && s < |l| && r < |l| && i <= Dist(|l|, r, s)
    requires forall k :: 0 <= k <= Dist(|l|, r, s) ==> Taken(l, Back(|l|, s, k))
    ensures Taken(From(l, r), i)
  {
    assert Taken(l, Back(|l|, s, Dist(|l|, r, s) - i));
  }

  /** The start of the run a resident stands in: seen from there the table is straight and
      everything up to the resident is taken. */
  lemma RunStart(l: Layout, s: nat) returns (r: nat)
    requires Valid(l) && s < |l| && Taken(l, s)
    ensures r < |l|
    ensures var m := From(l, r); var k := Dist(|l|, r, s);
            && Ordered(m) && Straight(m) && Settled(m, 0)
            && m[k] == k - Disp(l, s)
            && forall i :: 0 <= i <= k ==> 0 <= m[i] <= m[k]
  {
    var z :| 0 <= z < |l| && Settled(l, z);
    r := WalkBack(l, s, s, z);
    FromKeepsOrder(l, r);
    var m, k := From(l, r), Dist(|l|, r, s);
    SettledStartIsStraight(m, |l|);
    assert m[k] == Shifted(|l|, r, l[s]) == k - Disp(l, s);
    forall i | 0 <= i <= k ensures 0 <= m[i] <= m[k] {
      RunIsTaken(l, s, r, i);
      RunIsTaken(l, s, r, k);
      if i < k {
        StraightIsSorted(m, i, k);
      }
    }
  }

  // ---- History independence ----

  /** If nobody crosses the front of slot 0 in t, nobody does in u either. */
  lemma SameBoundary(t: Layout, u: Layout)
    requires Ordered(t) && Settled(t, 0) && Valid(u) && multiset(t) == multiset(u)
    ensures |t| == |u| && Settled(u, 0)
  {
    assert |multiset(t)| == |multiset(u)|;
    if !Settled(u, 0) {
      var r := RunStart(u, 0);
      var m, k := From(u, r), Dist(|u|, r, 0);
      var t' := From(t, r);
      SameValuesFrom(u, t, r);
      SettledStartIsStraight(t, |t|);
      Crowded(m, k + 1, t', k, m[k]);
    }
  }

  lemma SameTail(t: Layout, u: Layout, n: nat)
    requires multiset(t) == multiset(u) && n <= |t| && n <= |u| && t[..n] == u[..n]
    ensures multiset(t[n..]) == multiset(u[n..])
  {
    assert t == t[..n] + t[n..] && u == u[..n] + u[n..];
    assert multiset(t) == multiset(t[..n]) + multiset(t[n..]);
    assert multiset(u) == multiset(u[..n]) + multiset(u[n..]);
    assert multiset(t[n..]) == multiset(t) - multiset(t[..n]) == multiset(u[n..]);
  }

  /** A value of u from position n on is a value of t from position n on. */
  lemma FindLater(t: Layout, u: Layout, n: nat) returns (j: nat)
    requires multiset(t) == multiset(u) && n <= |t| && n < |u| && t[..n] == u[..n]
    ensures n <= j < |t| && t[j] == u[n]
  {
    SameTail(t, u, n);
    assert u[n..][0] in multiset(t[n..]);
    var i :| 0 <= i < |t[n..]| && t[n..][i] == u[n];
    j := n + i;
  }

  lemma NextAgrees(t: Layout, u: Layout, n: nat)
    requires Ordered(t) && Straight(t) && Straight(u) && multiset(t) == multiset(u)
    requires n < |t| == |u| && t[..n] == u[..n] && Taken(u, n)
    ensures Taken(t, n) && t[n] <= u[n]
  {
    var j := FindLater(t, u, n);
    NoGapBehind(t, j, j - n);
    if n < j {
      StraightIsSorted(t, n, j);
    }
  }

  lemma {:induction false} StraightIsUnique(t: Layout, u: Layout, n: nat)
    requires Ordered(t) && Straight(t) && Ordered(u) && Straight(u) && multiset(t) == multiset(u)
    requires n <= |t| == |u|
    ensures t[..n] == u[..n]
  {
    if n > 0 {
      StraightIsUnique(t, u, n - 1);
      if Taken(u, n - 1) { NextAgrees(t, u, n - 1); }
      if Taken(t, n - 1) { NextAgrees(u, t, n - 1); }
      assert t[..n] == t[..n - 1] + [t[n - 1]] && u[..n] == u[..n - 1] + [u[n - 1]];
    }
  }

  lemma FromInjective(t: Layout, u: Layout, r: nat)
    requires IsLayout(t) && IsLayout(u) && r < |t| == |u| && From(t, r) == From(u, r)
    ensures t == u
  {
    forall i | 0 <= i < |t| ensures t[i] == u[i] {
      assert From(t, r)[Dist(|t|, r, i)] == From(u, r)[Dist(|t|, r, i)];
    }
  }

  lemma SameFromSettled(t: Layout, u: Layout)
    requires Ordered(t) && Settled(t, 0) && Valid(u) && multiset(t) == multiset(u) && |t| == |u|
    ensures t == u
  {
    SameBoundary(t, u);
    SettledStartIsStraight(t, |t|);
    SettledStartIsStraight(u, |t|);
    StraightIsUnique(t, u, |t|);
    assert t == t[..|t|] && u == u[..|t|];
  }

  /** Two tables of one capacity holding residents with the same wanted slots look alike,
      whatever puts and deletes led to them. */
  lemma HistoryIndependent(t: Layout, u: Layout)
    requires Valid(t) && Valid(u) && multiset(t) == multiset(u)
    ensures t == u
  {
    assert |multiset(t)| == |multiset(u)|;
    var r :| 0 <= r < |t| && Settled(t, r);
    var t', u' := From(t, r), From(u, r);
    FromKeepsOrder(t, r);
    FromKeepsOrder(u, r);
    SameValuesFrom(t, u, r);
    SomethingSettled(u, r);
    SameFromSettled(t', u');
    FromInjective(t, u, r);
  }

  lemma SomethingSettled(l: Layout, r: nat)
    requires Valid(l) && r < |l|
    ensures Valid(From(l, r))
  {
    FromKeepsOrder(l, r);
    var z :| 0 <= z < |l| && Settled(l, z);
    assert Settled(From(l, r), Dist(|l|, r, z));
  }

  // ---- The largest displacement ----

  ghost predicate WithinDisp(l: Layout, d: nat) {
    IsLayout(l) && forall i :: 0 <= i < |l| && Taken(l, i) ==> Disp(l, i) <= d
  }

  /** No way of placing the same residents, each in a slot of its own, keeps all of them closer
      to their wanted slots than the largest displacement of a Robin Hood table. */
  lemma LargestDispIsLeast(l: Layout, u: Layout, s: nat, d: nat)
    requires Valid(l) && s < |l| && Taken(l, s)
    requires multiset(l) == multiset(u) && WithinDisp(u, d)
    ensures Disp(l, s) <= d
  {
    assert |multiset(l)| == |multiset(u)|;
    if d < Disp(l, s) {
      var r := RunStart(l, s);
      var m, k := From(l, r), Dist(|l|, r, s);
      var v := From(u, r);
      SameValuesFrom(l, u, r);
      forall i | 0 <= i < |v| && 0 <= v[i] <= m[k] ensures i < k {
        var j := if r + i < |l| then r + i else r + i - |l|;
        assert Taken(u, j) && Disp(u, j) <= d;
      }
      Crowded(m, k + 1, v, k, m[k]);
    }
  }

  /** A displaced resident has that many taken slots behind it. */
  lemma DispBelowTaken(l: Layout, s: nat)
    requires Ordered(l) && s < |l| && Taken(l, s)
    ensures Disp(l, s) + 1 + multiset(l)[FREE] <= |l|
  {
    var d := Disp(l, s);
    var a := Back(|l|, s, d);
    forall k | 0 <= k <= d ensures Taken(l, Back(|l|, s, k)) {
      NoGapBehind(l, s, k);
    }
    if d <= s {
      forall i | a <= i <= s ensures l[i] != FREE { assert Taken(l, Back(|l|, s, s - i)); }
      FreeOutside(l, a, s + 1);
    } else {
      forall i | 0 <= i <= s ensures l[i] != FREE { assert Taken(l, Back(|l|, s, s - i)); }
      forall i | a <= i < |l| ensures l[i] != FREE { assert Taken(l, Back(|l|, s, s + |l| - i)); }
      FreeInside(l, s + 1, a);
    }
  }

  lemma FreeOutside(l: Layout, a: nat, b: nat)
    requires a <= b <= |l| && forall i :: a <= i < b ==> l[i] != FREE
    ensures multiset(l)[FREE] <= |l| - (b - a)
  {
    assert l == l[..a] + l[a..b] + l[b..];
    assert FREE !in l[a..b];
    CountAtMostLength(l[..a], FREE);
    CountAtMostLength(l[b..], FREE);
  }

  lemma FreeInside(l: Layout, a: nat, b: nat)
    requires a <= b <= |l| && forall i :: 0 <= i < a || b <= i < |l| ==> l[i] != FREE
    ensures multiset(l)[FREE] <= b - a
  {
    assert l == l[..a] + l[a..b] + l[b..];
    assert FREE !in l[..a] && FREE !in l[b..];
    CountAtMostLength(l[a..b], FREE);
  }

  lemma CountAtMostLength<A>(s: seq<A>, x: A)
    ensures multiset(s)[x] <= |s|
  {
    var m := multiset(s);
    assert m == m[x := 0] + multiset{}[x := m[x]];
    assert |m| == |s|;
  }
}
