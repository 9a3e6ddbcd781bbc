/** The statistics pass over a finished table. */
module HashStats {
  import opened LogFormat
  import opened RobinHood
  import opened TotalDisplacement
  import opened SlotArrays
  import opened HashTables

  /** The used cells among the first n. */
  function UsedIn(cells: seq<Cell>, n: nat): (u: int)
    requires n <= |cells|
  {
    n - multiset(cells[..n])[Free]
  }

  lemma UsedInNext(cells: seq<Cell>, n: nat)
    requires n < |cells|
    ensures UsedIn(cells, n + 1) == UsedIn(cells, n) + if cells[n].Used? then 1 else 0
  {
    assert cells[..n + 1] == cells[..n] + [cells[n]];
  }

  lemma UsedInAll(cells: seq<Cell>)
    ensures UsedIn(cells, |cells|) == |cells| - multiset(cells)[Free]
  {
    assert cells[..|cells|] == cells;
  }

  /** The hash read from a slot; it is 0 in a free one. */
  function HashAt(cells: seq<Cell>, i: nat): nat
    requires i < |cells|
  {
    if cells[i].Used? then cells[i].hash else 0
  }

  /** Slot i follows a used one from which the same hash is read. */
  predicate Repeats(cells: seq<Cell>, i: nat)
    requires i < |cells|
  {
    i > 0 && cells[i - 1].Used? && HashAt(cells, i) == HashAt(cells, i - 1)
  }

  function RepeatsIn(cells: seq<Cell>, n: nat): nat
    requires n <= |cells|
  {
    if n == 0 then 0 else RepeatsIn(cells, n - 1) + if Repeats(cells, n - 1) then 1 else 0
  }

  lemma RepeatsNext(cells: seq<Cell>, n: nat)
    requires n < |cells|
    ensures RepeatsIn(cells, 0) == 0
    ensures RepeatsIn(cells, n + 1) == RepeatsIn(cells, n)
      + if n > 0 && cells[n - 1].Used? && HashAt(cells, n) == HashAt(cells, n - 1) then 1 else 0
  {
  }

  /** The first slot repeats the hash of the last one. */
  predicate Wraps(cells: seq<Cell>)
    requires |cells| > 0
  {
    cells[0].Used? && cells[|cells| - 1].Used? && HashAt(cells, 0) == HashAt(cells, |cells| - 1)
  }

  /** What the loop counts: repeated hashes, also from the last slot to the first. */
  function Repetitions(cells: seq<Cell>): nat
    requires |cells| > 0
  {
    RepeatsIn(cells, |cells|) + if Wraps(cells) then 1 else 0
  }

  // ---- What the count is worth ----

  /** The slot before slot i, going round. */
  function SlotBefore(cells: seq<Cell>, i: nat): (p: nat)
    requires i < |cells|
    ensures p < |cells|
  {
    Back(|cells|, i, 1)
  }

  /** Slot i and the slot before it are two slots whose entries have the same hash. */
  predicate MeetsBefore(cells: seq<Cell>, i: nat)
    requires i < |cells|
  {
    var p := SlotBefore(cells, i);
    p != i && cells[p].Used? && cells[i].Used? && cells[p].hash == cells[i].hash
  }

  /** The slots whose entry has the hash of its neighbour. */
  ghost function NeighbourCollisions(cells: seq<Cell>): set<nat> {
    set i: nat | i < |cells| && MeetsBefore(cells, i)
  }

  /** Slot i is counted without two entries meeting there: it is the only slot, or it is free and follows
      an entry with hash 0. */
  predicate CountedInVain(cells: seq<Cell>, i: nat)
    requires i < |cells|
  {
    if |cells| == 1 then cells[0].Used?
    else i > 0 && cells[i - 1].Used? && cells[i - 1].hash == 0 && cells[i].Free?
  }

  ghost function VainCounts(cells: seq<Cell>): set<nat> {
    set i: nat | i < |cells| && CountedInVain(cells, i)
  }

  ghost function SlotsWhere(cells: seq<Cell>, n: nat): set<nat>
    requires n <= |cells|
  {
    set i: nat | i < n && Repeats(cells, i)
  }

  lemma {:induction false} RepeatsAreSlots(cells: seq<Cell>, n: nat)
    requires n <= |cells|
    ensures RepeatsIn(cells, n) == |SlotsWhere(cells, n)|
  {
    if n == 0 {
      assert SlotsWhere(cells, 0) == {};
    } else {
      RepeatsAreSlots(cells, n - 1);
      if Repeats(cells, n - 1) {
        assert SlotsWhere(cells, n) == SlotsWhere(cells, n - 1) + {n - 1};
      } else {
        assert SlotsWhere(cells, n) == SlotsWhere(cells, n - 1);
      }
    }
  }

  /** A slot that is counted is either one where entries meet or counted in vain. */
  lemma CountedSlot(cells: seq<Cell>, i: nat)
    requires i < |cells|
    ensures Repeats(cells, i) || (i == 0 && Wraps(cells)) <==> MeetsBefore(cells, i) || CountedInVain(cells, i)
    ensures !(MeetsBefore(cells, i) && CountedInVain(cells, i)) && !(i == 0 && Repeats(cells, i))
  {
  }

  lemma Sizes(x: set<nat>, y: set<nat>, z: set<nat>, u: set<nat>)
    requires x !! y && z !! u && x + y == z + u
    ensures |x| + |y| == |z| + |u|
  {
    assert |x + y| == |x| + |y| && |z + u| == |z| + |u|;
  }

  /** For every table: the recorded number is that of the entries meeting their neighbour, plus one for
      every slot counted in vain. */
  lemma CountIs(cells: seq<Cell>)
    requires |cells| > 0
    ensures Repetitions(cells) == |NeighbourCollisions(cells)| + |VainCounts(cells)|
  {
    hide RepeatsIn, Repeats, MeetsBefore, CountedInVain, Wraps, HashAt;
    var c := |cells|;
    var first: set<nat> := if Wraps(cells) then {0} else {};
    RepeatsAreSlots(cells, c);
    forall i: nat | i < c
      ensures Repeats(cells, i) || (i == 0 && Wraps(cells)) <==> MeetsBefore(cells, i) || CountedInVain(cells, i)
      ensures !(MeetsBefore(cells, i) && CountedInVain(cells, i)) && !(i == 0 && Repeats(cells, i))
    {
      CountedSlot(cells, i);
    }
    Sizes(NeighbourCollisions(cells), VainCounts(cells), SlotsWhere(cells, c), first);
  }

  /** The recorded number is that of the neighbouring collisions exactly if a table of one slot is empty
      and no empty slot follows an entry with hash 0. */
  lemma CountIsExactIff(cells: seq<Cell>)
    requires |cells| > 0
    ensures Repetitions(cells) == |NeighbourCollisions(cells)| <==>
      (|cells| > 1 || cells[0].Free?)
      && forall i {:trigger cells[i]} :: 0 < i < |cells| && cells[i - 1].Used? && cells[i - 1].hash == 0 ==> cells[i].Used?
  {
    CountIs(cells);
    if i: nat :| i in VainCounts(cells) {
      assert CountedInVain(cells, i);
      assert VainCounts(cells) != {};
    } else {
      assert VainCounts(cells) == {};
      forall i {:trigger cells[i]} | 0 < i < |cells| && cells[i - 1].Used? && cells[i - 1].hash == 0 ensures cells[i].Used? {
        assert i !in VainCounts(cells);
      }
      if |cells| == 1 {
        assert 0 !in VainCounts(cells);
      }
    }
  }

  /** Too many: in a table of one slot the only entry collides with itself, and an empty slot repeats a
      hash of 0.  Both are tables as they are built. */
  lemma CountedTooOften(key: Bytes, place: Place, position: nat)
    ensures var one := [Used(7, key, place, position)];
            RobinHood.Valid(Wants(one)) && Repetitions(one) == 1 && NeighbourCollisions(one) == {}
    ensures var three := [Used(0, key, place, position), Free, Free];
            RobinHood.Valid(Wants(three)) && Repetitions(three) == 1 && NeighbourCollisions(three) == {}
  {
    var one, three := [Used(7, key, place, position)], [Used(0, key, place, position), Free, Free];
    assert Settled(Wants(one), 0) && Settled(Wants(three), 1);
    RepeatsNext(one, 0);
    RepeatsNext(three, 0);
    RepeatsNext(three, 1);
    RepeatsNext(three, 2);
  }

  /** Too few: entries with the same hash that another one stands between. */
  lemma CountedTooRarely(a: Bytes, b: Bytes, c: Bytes, place: Place, position: nat)
    requires a != b && b != c && a != c
    ensures var five := [Free, Used(1, a, place, position), Used(6, b, place, position), Used(1, c, place, position), Free];
            && RobinHood.Valid(Wants(five)) && Repetitions(five) == 0 && VainCounts(five) == {}
            && five[1].hash == five[3].hash
  {
    var five := [Free, Used(1, a, place, position), Used(6, b, place, position), Used(1, c, place, position), Free];
    assert Settled(Wants(five), 0);
    RepeatsNext(five, 0);
    RepeatsNext(five, 1);
    RepeatsNext(five, 2);
    RepeatsNext(five, 3);
    RepeatsNext(five, 4);
  }

  // ---- Entries that share a hash ----

  ghost function Entered(cells: seq<Cell>): set<nat> {
    set i: nat | i < |cells| && cells[i].Used?
  }

  ghost function HashesOf(cells: seq<Cell>): set<nat> {
    set i: nat | i < |cells| && cells[i].Used? :: cells[i].hash
  }

  /** The entries that do not meet one with their hash in the slot before. */
  ghost function Heads(cells: seq<Cell>): set<nat> {
    set i: nat | i < |cells| && cells[i].Used? && !MeetsBefore(cells, i)
  }

  /** All slots of a table of several are taken by entries with one hash. */
  predicate Uniform(cells: seq<Cell>) {
    |cells| > 1 && forall i :: 0 <= i < |cells| ==> cells[i].Used? && cells[i].hash == HashAt(cells, 0)
  }

  /** The entries of each hash stand in one run, going round: no two runs start with the same hash. */
  ghost predicate OneRunEach(cells: seq<Cell>) {
    AllDiffer(cells, Heads(cells))
  }

  lemma HeadsAndMeetings(cells: seq<Cell>)
    ensures |Entered(cells)| == |NeighbourCollisions(cells)| + |Heads(cells)|
  {
    var x, y := NeighbourCollisions(cells), Heads(cells);
    assert x !! y && x + y == Entered(cells);
  }

  /** Every entry with hash h meets one in the slot before. */
  ghost predicate AllMeet(cells: seq<Cell>, h: nat) {
    forall j {:trigger MeetsBefore(cells, j)} :: 0 <= j < |cells| && cells[j].Used? && cells[j].hash == h ==> MeetsBefore(cells, j)
  }

  lemma OneBack(cells: seq<Cell>, h: nat, b: nat)
    requires AllMeet(cells, h) && b < |cells| && cells[b].Used? && cells[b].hash == h
    ensures var p := SlotBefore(cells, b); cells[p].Used? && cells[p].hash == h
  {
    assert MeetsBefore(cells, b);
  }

  /** Where entries keep meeting going back, they all have one hash. */
  lemma {:induction false} BackSame(cells: seq<Cell>, i: nat, k: nat)
    requires i < |cells| && k < |cells| && cells[i].Used? && AllMeet(cells, cells[i].hash)
    ensures var b := Back(|cells|, i, k); b < |cells| && cells[b].Used? && cells[b].hash == cells[i].hash
  {
    hide AllMeet;
    if k > 0 {
      BackSame(cells, i, k - 1);
      OneBack(cells, cells[i].hash, Back(|cells|, i, k - 1));
    }
  }

  /** Every hash has a run that starts somewhere, unless it fills the table. */
  lemma HeadOf(cells: seq<Cell>, i: nat) returns (j: nat)
    requires i < |cells| && cells[i].Used? && !Uniform(cells)
    ensures j in Heads(cells) && HashAt(cells, j) == cells[i].hash
  {
    if AllMeet(cells, cells[i].hash) {
      assert MeetsBefore(cells, i);
      forall k | 0 <= k < |cells| ensures cells[k].Used? && cells[k].hash == cells[i].hash {
        var d := if k <= i then i - k else i + |cells| - k;
        BackSame(cells, i, d);
      }
      assert false;
    } else {
      j :| 0 <= j < |cells| && cells[j].Used? && cells[j].hash == cells[i].hash && !MeetsBefore(cells, j);
    }
  }

  ghost function HashesAt(cells: seq<Cell>, s: set<nat>): set<nat>
    requires forall i :: i in s ==> i < |cells|
  {
    set i | i in s :: HashAt(cells, i)
  }

  ghost predicate AllDiffer(cells: seq<Cell>, s: set<nat>)
    requires forall i :: i in s ==> i < |cells|
  {
    forall i, j :: i in s && j in s && HashAt(cells, i) == HashAt(cells, j) ==> i == j
  }

  /** One more slot. */
  lemma OneMoreSlot(cells: seq<Cell>, s: set<nat>, x: nat)
    requires x in s && forall i :: i in s ==> i < |cells|
    ensures AllDiffer(cells, s) <==> AllDiffer(cells, s - {x}) && HashAt(cells, x) !in HashesAt(cells, s - {x})
    ensures HashesAt(cells, s) == HashesAt(cells, s - {x}) + {HashAt(cells, x)}
  {
    hide HashAt;
    assert s == s - {x} + {x};
    if AllDiffer(cells, s - {x}) && HashAt(cells, x) !in HashesAt(cells, s - {x}) {
      assert forall i :: i in s - {x} ==> HashAt(cells, i) in HashesAt(cells, s - {x});
    }
  }

  /** As many hashes as slots exactly if no two slots have the same. */
  lemma {:induction false} ImageSize(cells: seq<Cell>, s: set<nat>)
    requires forall i :: i in s ==> i < |cells|
    ensures |HashesAt(cells, s)| <= |s|
    ensures |HashesAt(cells, s)| == |s| <==> AllDiffer(cells, s)
    decreases s
  {
    if x :| x in s {
      ImageSize(cells, s - {x});
      OneMoreSlot(cells, s, x);
      hide AllDiffer, HashesAt;
      assert |s| == |s - {x}| + 1;
    }
  }

  /** The neighbouring collisions are all collisions, one less than entries for each hash, exactly if the
      entries of each hash stand in one run that does not fill the table. */
  lemma NeighboursAreAllIff(cells: seq<Cell>)
    ensures |NeighbourCollisions(cells)| == |Entered(cells)| - |HashesOf(cells)| <==>
            OneRunEach(cells) && !Uniform(cells)
  {
    hide MeetsBefore;
    HeadsAndMeetings(cells);
    if Uniform(cells) {
      UniformMeets(cells);
    } else {
      ImageSize(cells, Heads(cells));
      forall h | h in HashesOf(cells) ensures h in HashesAt(cells, Heads(cells)) {
        var i: nat :| i < |cells| && cells[i].Used? && cells[i].hash == h;
        var j := HeadOf(cells, i);
      }
      assert HashesAt(cells, Heads(cells)) == HashesOf(cells);
    }
  }

  lemma UniformMeets(cells: seq<Cell>)
    requires Uniform(cells)
    ensures Heads(cells) == {} && HashesOf(cells) != {}
  {
    assert cells[0].hash in HashesOf(cells);
  }

  /** Without slots counted in vain, the recorded number is that of all collisions under the same condition;
      in every table the differences are known. */
  lemma CountIsAllIff(cells: seq<Cell>)
    requires |cells| > 0
    ensures Repetitions(cells) + |Heads(cells)| == |Entered(cells)| + |VainCounts(cells)|
    ensures VainCounts(cells) == {} ==>
      (Repetitions(cells) == |Entered(cells)| - |HashesOf(cells)| <==> OneRunEach(cells) && !Uniform(cells))
  {
    hide NeighbourCollisions, Heads, Entered, HashesOf, OneRunEach, Uniform, Repetitions;
    CountIs(cells);
    HeadsAndMeetings(cells);
    NeighboursAreAllIff(cells);
  }

  /** The largest displacement of the table. */
  ghost predicate IsMaxDisp(l: Layout, d: nat) {
    && WithinDisp(l, d)
    && (d > 0 ==> exists i :: 0 <= i < |l| && Taken(l, i) && Disp(l, i) == d)
  }

  /** No way of storing entries with the same hashes in a table of this capacity has a smaller
      largest displacement. */
  lemma MaxDispIsLeast(cells: seq<Cell>, d: nat, other: seq<Cell>, d': nat)
    requires |cells| > 0 && RobinHood.Valid(Wants(cells)) && IsMaxDisp(Wants(cells), d)
    requires |other| == |cells| && multiset(other) == multiset(cells) && WithinDisp(Wants(other), d')
    ensures d <= d'
  {
    if d > 0 {
      var l := Wants(cells);
      var i :| 0 <= i < |l| && Taken(l, i) && Disp(l, i) == d;
      SameWants(cells, other);
      LargestDispIsLeast(l, Wants(other), i, d');
    }
  }

  /** Nor has one a smaller total, and so average, displacement. */
  lemma TotalIsLeast(cells: seq<Cell>, other: seq<Cell>)
    requires |cells| > 0 && RobinHood.Valid(Wants(cells)) && |other| == |cells| && multiset(other) == multiset(cells)
    ensures TotalDisp(Wants(cells), |cells|) <= TotalDisp(Wants(other), |other|)
  {
    hide RobinHood.Valid, TotalDisp;
    SameWants(cells, other);
    TotalDispIsLeast(Wants(cells), Wants(other));
  }

  /** Wrapped and counted, a resident is never further displaced than there are entries. */
  lemma MaxDispBelowEntries(cells: seq<Cell>, d: nat)
    requires |cells| > 0 && Ordered(Wants(cells)) && IsMaxDisp(Wants(cells), d)
    ensures d + multiset(cells)[Free] <= |cells|
  {
    FreeIsFree(cells);
    if d > 0 {
      var l := Wants(cells);
      var i :| 0 <= i < |l| && Taken(l, i) && Disp(l, i) == d;
      DispBelowTaken(l, i);
    } else {
      CountAtMostLength(cells, Free);
    }
  }

  lemma FreeIsFree(cells: seq<Cell>)
    requires |cells| > 0
    ensures multiset(Wants(cells))[FREE] == multiset(cells)[Free]
  {
    FreeInMap(WantIn(|cells|), cells);
  }

  lemma {:induction false} FreeInMap(f: Cell -> int, cells: seq<Cell>)
    requires forall x :: f(x) == FREE <==> x.Free?
    ensures multiset(Map(f, cells))[FREE] == multiset(cells)[Free]
    decreases |cells|
  {
    if cells != [] {
      var rest := Without(cells, 0);
      FreeInMap(f, rest);
      MapWithout(f, cells, 0);
      WithoutOne(cells, 0);
    }
  }

  lemma NoDisp(l: Layout)
    requires IsLayout(l)
    ensures TotalDisp(l, 0) == 0
  {
  }

  lemma TotalNext(l: Layout, n: nat)
    requires IsLayout(l) && n < |l|
    ensures TotalDisp(l, n + 1) == TotalDisp(l, n) + if Taken(l, n) then Disp(l, n) else 0
  {
  }

  lemma PlusOne(d: nat, u: nat)
    ensures d * (u + 1) == d * u + d
  {
  }

  /** The total is no more than the largest displacement for each entry. */
  lemma {:induction false} TotalBound(cells: seq<Cell>, n: nat, d: nat)
    requires 0 < |cells| && n <= |cells| && WithinDisp(Wants(cells), d)
    ensures 0 <= UsedIn(cells, n) && TotalDisp(Wants(cells), n) <= d * UsedIn(cells, n)
  {
    hide UsedIn;
    if n == 0 {
      UsedInNone(cells);
    } else {
      TotalBound(cells, n - 1, d);
      UsedInNext(cells, n - 1);
      PlusOne(d, UsedIn(cells, n - 1));
    }
  }

  /** The largest displacement in the first n slots. */
  ghost predicate MaxUpTo(l: Layout, n: nat, d: nat) {
    && IsLayout(l) && n <= |l|
    && (forall i :: 0 <= i < n && Taken(l, i) ==> Disp(l, i) <= d)
    && (d > 0 ==> exists i :: 0 <= i < n && Taken(l, i) && Disp(l, i) == d)
  }

  lemma MaxNext(l: Layout, n: nat, d: nat)
    requires n < |l| && MaxUpTo(l, n, d)
    ensures MaxUpTo(l, n + 1, if Taken(l, n) && Disp(l, n) > d then Disp(l, n) else d)
  {
    if d > 0 {
      var i :| 0 <= i < n && Taken(l, i) && Disp(l, i) == d;
      assert Taken(l, i) && Disp(l, i) == d;
    }
  }

  lemma MaxDone(l: Layout, d: nat)
    requires MaxUpTo(l, |l|, d)
    ensures IsMaxDisp(l, d)
  {
  }

  lemma MaxNone(l: Layout)
    requires IsLayout(l)
    ensures MaxUpTo(l, 0, 0)
  {
  }

  method CalculateMaxDisplacement(t: HashTable)
    requires t.Valid()
    modifies t`maxDisplacement, t`totalDisplacement, t`hashCollisions
    ensures IsMaxDisp(Wants(t.cells), t.maxDisplacement)
    ensures t.totalDisplacement == TotalDisp(Wants(t.cells), t.Capacity())
    ensures |t.cells| > 0 && t.hashCollisions == |NeighbourCollisions(t.cells)| + |VainCounts(t.cells)|
    ensures t.maxDisplacement <= t.numEntries && t.hashCollisions <= t.numEntries
  {
    hide RobinHood.Valid, SlotPos, GetDisplacement, HashTable.Stored, UsedIn, MaxUpTo, Wants, Pack, RepeatsIn,
         TotalDisp, NeighbourCollisions, VainCounts;
    ghost var cells, l := t.cells, Wants(t.cells);
    t.CapacityFacts();
    CountIs(cells);
    var capacity := t.Capacity();
    var maxDisplacement: nat, numHashCollisions: nat, totalDisplacement: nat := 0, 0, 0;
    var hasFirst, firstHash: nat, hasLast, lastHash: nat := false, 0, false, 0;
    var hasPrev, prevHash: nat := false, 0;
    var slot: nat, pos: nat := 0, 0;
    SlotPosIsProduct(0, t.slots.SlotSize());
    UsedInNone(cells);
    MaxNone(l);
    RepeatsNext(cells, 0);
    NoDisp(l);
    while slot < capacity
      invariant slot <= capacity && pos == SlotPos(slot, t.slots.SlotSize())
      invariant MaxUpTo(l, slot, maxDisplacement)
      invariant totalDisplacement == TotalDisp(l, slot)
      invariant hasPrev <==> slot > 0 && cells[slot - 1].Used?
      invariant numHashCollisions <= UsedIn(cells, if slot > 0 then slot - 1 else 0)
      invariant hasLast <==> slot == capacity && cells[capacity - 1].Used?
      invariant numHashCollisions == RepeatsIn(cells, slot)
      invariant hasPrev ==> prevHash == HashAt(cells, slot - 1)
      invariant hasFirst <==> slot > 0 && cells[0].Used?
      invariant (hasFirst ==> firstHash == HashAt(cells, 0)) && (hasLast ==> lastHash == HashAt(cells, capacity - 1))
    {
      var hash, position := t.ReadCell(pos, slot);
      RepeatsNext(cells, slot);
      TotalNext(l, slot);
      if slot > 0 {
        UsedInNext(cells, slot - 1);
      }
      if hasPrev && prevHash == hash {
        numHashCollisions := numHashCollisions + 1;
      }
      if position != 0 {
        prevHash, hasPrev := hash, true;
        DisplacementIsDist(capacity, slot, hash);
        var displacement := GetDisplacement(capacity, slot, hash);
        MaxNext(l, slot, maxDisplacement);
        totalDisplacement := totalDisplacement + displacement;
        if displacement > maxDisplacement {
          maxDisplacement := displacement;
        }
        if slot == 0 {
          firstHash, hasFirst := hash, true;
        }
        if slot == capacity - 1 {
          lastHash, hasLast := hash, true;
        }
      } else {
        hasPrev := false;
        MaxNext(l, slot, maxDisplacement);
      }
      SlotsApart(slot, slot + 1, t.slots.SlotSize());
      pos, slot := pos + t.slots.SlotSize(), slot + 1;
    }
    UsedInNext(cells, capacity - 1);
    UsedInAll(cells);
    MaxDone(l, maxDisplacement);
    if hasFirst && hasLast && firstHash == lastHash {
      numHashCollisions := numHashCollisions + 1;
    }
    t.totalDisplacement, t.maxDisplacement, t.hashCollisions := totalDisplacement, maxDisplacement, numHashCollisions;
    TableOrdered(t);
    MaxDispBelowEntries(cells, t.maxDisplacement);
  }

  lemma UsedInNone(cells: seq<Cell>)
    ensures UsedIn(cells, 0) == 0
  {
  }

  lemma TableOrdered(t: HashTable)
    requires t.Valid()
    ensures |t.cells| > 0 && Ordered(Wants(t.cells))
  {
  }
}
