/** A whole replay step by step: when it ends, and when it never does. */
module ReplaySteps {
  import opened LogFormat
  import opened Liveness
  import opened RobinHood
  import opened HashTables
  import opened Index
  import opened HashWriter
  import opened PutSteps

  // ---- Deleting ----

  /** `hash_delete`: the key is looked for, then the entries behind it move back. */
  datatype DeleteState =
    | Seeking(cells: seq<Cell>, key: Bytes, hash: nat, slot: nat, displacement: nat)
    | Shifting(cells: seq<Cell>, slot: nat)
    | Deleted(cells: seq<Cell>)

  predicate IsDelete(s: DeleteState) {
    !s.Deleted? ==> s.slot < |s.cells|
  }

  /** One turn of either loop. */
  function StepDelete(s: DeleteState): (s': DeleteState)
    requires IsDelete(s)
    ensures IsDelete(s') && |s'.cells| == |s.cells|
  {
    match s
    case Deleted(_) => s
    case Seeking(cells, key, hash, slot, displacement) =>
      var y := cells[slot];
      if y.Free? then Deleted(cells)
      else if y.hash == hash && y.key == key then Shifting(cells, slot)
      else if displacement > DispOf(cells, slot) then Deleted(cells)
      else Seeking(cells, key, hash, Next(|cells|, slot), displacement + 1)
    case Shifting(cells, slot) =>
      var n := Next(|cells|, slot);
      if cells[n].Free? || cells[n].hash % |cells| == n then Deleted(cells[slot := Free])
      else Shifting(cells[slot := cells[n]], n)
  }

  function StepsDelete(s: DeleteState, n: nat): (s': DeleteState)
    requires IsDelete(s)
    ensures IsDelete(s')
    decreases n
  {
    if n == 0 then s else StepsDelete(StepDelete(s), n - 1)
  }

  lemma OneDelete(s: DeleteState, n: nat)
    requires IsDelete(s)
    ensures StepsDelete(s, n + 1) == StepsDelete(StepDelete(s), n)
  {
  }

  /** Entries are moved back over slot `slot`, towards the settled slot z. */
  ghost predicate Closing(s: DeleteState, z: nat) {
    && s.Shifting? && IsDelete(s) && z < |s.cells| && s.cells[s.slot].Used?
    && Ordered(Wants(s.cells)) && Settled(Wants(s.cells), z)
  }

  lemma CloseOn(s: DeleteState, z: nat)
    requires Closing(s, z) && StepDelete(s).Shifting?
    ensures var s' := StepDelete(s);
            && Closing(s', z) && Dist(|s.cells|, Next(|s.cells|, s'.slot), z) < Dist(|s.cells|, Next(|s.cells|, s.slot), z)
            && multiset(s'.cells) + multiset{s.cells[s.slot]} == multiset(s.cells) + multiset{s'.cells[s'.slot]}
  {
    hide Ordered;
    var cells, slot, n := s.cells, s.slot, Next(|s.cells|, s.slot);
    assert n != z;
    ShiftKeepsOrder(Wants(cells), slot);
    WantsUpdate(cells, slot, cells[n]);
    ReplacedOne(cells, slot, cells[n]);
  }

  lemma CloseEnd(s: DeleteState, z: nat)
    requires Closing(s, z) && StepDelete(s).Deleted?
    ensures var s' := StepDelete(s);
            && RobinHood.Valid(Wants(s'.cells))
            && multiset(s'.cells) + multiset{s.cells[s.slot]} == multiset(s.cells) + multiset{Free}
  {
    hide Ordered, RobinHood.Valid;
    FreeKeepsOrder(Wants(s.cells), s.slot);
    WantsUpdate(s.cells, s.slot, Free);
    ReplacedOne(s.cells, s.slot, Free);
  }

  /** The backward shift ends, also in a full table, and takes exactly the entry of its first slot out. */
  lemma {:induction false} ShiftFinishes(s: DeleteState, z: nat) returns (n: nat)
    requires Closing(s, z)
    ensures StepsDelete(s, n).Deleted? && |StepsDelete(s, n).cells| == |s.cells|
    ensures RobinHood.Valid(Wants(StepsDelete(s, n).cells))
    ensures multiset(StepsDelete(s, n).cells) + multiset{s.cells[s.slot]} == multiset(s.cells) + multiset{Free}
    decreases Dist(|s.cells|, Next(|s.cells|, s.slot), z)
  {
    hide StepDelete, Ordered, RobinHood.Valid, Wants, Dist;
    var s' := StepDelete(s);
    ShiftingOn(s);
    if s'.Deleted? {
      CloseEnd(s, z);
      n := 1;
      assert StepsDelete(s, 1) == StepsDelete(s', 0);
    } else {
      CloseOn(s, z);
      var m := ShiftFinishes(s', z);
      n := m + 1;
      OneDelete(s, m);
      Exchange(multiset(s.cells), multiset(s'.cells), multiset(StepsDelete(s', m).cells),
               s.cells[s.slot], s'.cells[s'.slot], Free);
    }
  }

  lemma ShiftingOn(s: DeleteState)
    requires s.Shifting? && IsDelete(s)
    ensures !StepDelete(s).Seeking?
  {
  }

  /** The key is still being looked for. */
  ghost predicate SeekingKey(s: DeleteState) {
    && s.Seeking? && IsDelete(s) && RobinHood.Valid(Wants(s.cells)) && s.displacement <= |s.cells|
    && Probed(s.cells, s.key, s.hash % |s.cells|, s.displacement, s.slot)
    && forall i :: 0 <= i < |s.cells| && IsKey(s.cells[i], s.key) ==> s.cells[i].hash == s.hash
  }

  lemma SeekOn(s: DeleteState)
    requires SeekingKey(s) && StepDelete(s).Seeking?
    ensures SeekingKey(StepDelete(s)) && s.displacement < |s.cells|
    ensures StepDelete(s).cells == s.cells && StepDelete(s).key == s.key
    ensures StepDelete(s).displacement == s.displacement + 1
  {
    hide Reached, RobinHood.Valid;
    assert !IsKey(s.cells[s.slot], s.key);
    ProbeNext(s.cells, s.key, s.hash % |s.cells|, s.displacement, s.slot);
  }

  lemma SeekEnd(s: DeleteState)
    requires SeekingKey(s) && !StepDelete(s).Seeking?
    ensures StepDelete(s).Deleted? ==> StepDelete(s).cells == s.cells && !HasKey(s.cells, s.key)
    ensures StepDelete(s).Shifting? ==> StepDelete(s) == Shifting(s.cells, s.slot) && IsKey(s.cells[s.slot], s.key)
  {
    hide Reached, RobinHood.Valid;
    if StepDelete(s).Deleted? {
      GiveUp(s.cells, s.key, s.hash % |s.cells|, s.displacement, s.slot);
    }
  }

  /** What a delete does to the cells: the entry of the key, if there is one, makes room for a free cell. */
  ghost predicate DeleteDone(before: seq<Cell>, after: seq<Cell>, key: Bytes) {
    && |after| == |before| > 0 && RobinHood.Valid(Wants(after))
    && if HasKey(before, key)
       then exists i :: 0 <= i < |before| && IsKey(before[i], key)
                        && multiset(after) + multiset{before[i]} == multiset(before) + multiset{Free}
       else after == before
  }

  lemma SomeSettled(cells: seq<Cell>) returns (z: nat)
    requires |cells| > 0 && RobinHood.Valid(Wants(cells))
    ensures z < |cells| && Ordered(Wants(cells)) && Settled(Wants(cells), z)
  {
    z :| z < |cells| && Settled(Wants(cells), z);
  }

  lemma {:induction false} SeekFinishes(s: DeleteState) returns (n: nat)
    requires SeekingKey(s)
    ensures StepsDelete(s, n).Deleted? && DeleteDone(s.cells, StepsDelete(s, n).cells, s.key)
    decreases |s.cells| - s.displacement
  {
    hide StepDelete, Probed, RobinHood.Valid, Wants, Ordered;
    var s' := StepDelete(s);
    if s'.Seeking? {
      SeekOn(s);
      var m := SeekFinishes(s');
      n := m + 1;
      OneDelete(s, m);
    } else {
      SeekEnd(s);
      if s'.Deleted? {
        n := 1;
        assert StepsDelete(s, 1) == StepsDelete(s', 0);
      } else {
        var z := SomeSettled(s.cells);
        var m := ShiftFinishes(s', z);
        n := m + 1;
        OneDelete(s, m);
        assert IsKey(s.cells[s.slot], s.key);
      }
    }
  }

  // ---- Replaying ----

  /** The loop of the builder: before an entry, within a put or a delete, or through. */
  datatype RunState =
    | Before(place: Place, cells: seq<Cell>)
    | Putting(place: Place, put: PutState)
    | Deleting(place: Place, delete: DeleteState)
    | Complete(cells: seq<Cell>)

  predicate IsRun(s: RunState) {
    match s
    case Before(_, cells) => |cells| > 0
    case Putting(_, put) => IsState(put) && |put.cells| > 0
    case Deleting(_, delete) => IsDelete(delete) && |delete.cells| > 0
    case Complete(_) => true
  }

  /** A log and the hash function of an index of it. */
  datatype Source = Source(hash: Bytes -> nat, compression: Compression, gs: seq<Group>)

  function CellIn(src: Source, p: Place): Cell
    requires InLog(src.gs, p)
  {
    CellOf(src.hash, src.compression, src.gs, p)
  }

  function StepRun(src: Source, s: RunState): (s': RunState)
    requires IsRun(s)
    ensures IsRun(s')
  {
    match s
    case Complete(_) => s
    case Before(p, cells) =>
      if !InLog(src.gs, p) then Complete(cells)
      else if EntryAt(src.gs, p).Put? then Putting(p, StartPut(cells, CellIn(src, p)))
      else
        var key := EntryAt(src.gs, p).key;
        Deleting(p, Seeking(cells, key, src.hash(key), src.hash(key) % |cells|, 0))
    case Putting(p, put) =>
      if put.Finished? then Before(After(src.gs, p), put.cells) else Putting(p, StepPut(put))
    case Deleting(p, delete) =>
      if delete.Deleted? then Before(After(src.gs, p), delete.cells) else Deleting(p, StepDelete(delete))
  }

  function StepsRun(src: Source, s: RunState, n: nat): (s': RunState)
    requires IsRun(s)
    ensures IsRun(s')
    decreases n
  {
    if n == 0 then s else StepsRun(src, StepRun(src, s), n - 1)
  }

  lemma {:induction false} InARow(src: Source, s: RunState, a: nat, b: nat)
    requires IsRun(s)
    ensures StepsRun(src, s, a + b) == StepsRun(src, StepsRun(src, s, a), b)
    decreases a
  {
    hide StepRun;
    if a > 0 {
      InARow(src, StepRun(src, s), a - 1, b);
    }
  }

  lemma {:induction false} StaysComplete(src: Source, s: RunState, n: nat)
    requires IsRun(s) && s.Complete?
    ensures StepsRun(src, s, n) == s
    decreases n
  {
    if n > 0 {
      StaysComplete(src, s, n - 1);
    }
  }

  /** A run that is not complete later was not complete before. */
  lemma NotCompleteBefore(src: Source, s: RunState, a: nat, b: nat)
    requires IsRun(s) && a <= b && !StepsRun(src, s, b).Complete?
    ensures !StepsRun(src, s, a).Complete?
  {
    InARow(src, s, a, b - a);
    if StepsRun(src, s, a).Complete? {
      StaysComplete(src, StepsRun(src, s, a), b - a);
    }
  }

  /** A put that ends takes the run to the next entry. */
  lemma {:induction false} PutRunsOn(src: Source, p: Place, put: PutState, n: nat) returns (m: nat)
    requires IsState(put) && |put.cells| > 0 && StepsPut(put, n).Finished?
    ensures StepsRun(src, Putting(p, put), m) == Before(After(src.gs, p), StepsPut(put, n).cells)
    decreases n
  {
    hide StepPut;
    if put.Finished? {
      FinishedStays(put, n);
      m := 1;
      assert StepsRun(src, Putting(p, put), 1) == StepsRun(src, StepRun(src, Putting(p, put)), 0);
    } else {
      var k := PutRunsOn(src, p, StepPut(put), n - 1);
      m := k + 1;
      assert StepsRun(src, Putting(p, put), m) == StepsRun(src, StepRun(src, Putting(p, put)), k);
    }
  }

  lemma {:induction false} FinishedStays(put: PutState, n: nat)
    requires IsState(put) && put.Finished?
    ensures StepsPut(put, n) == put
    decreases n
  {
    if n > 0 {
      FinishedStays(put, n - 1);
    }
  }

  lemma {:induction false} DeleteRunsOn(src: Source, p: Place, delete: DeleteState, n: nat) returns (m: nat)
    requires IsDelete(delete) && |delete.cells| > 0 && StepsDelete(delete, n).Deleted?
    ensures StepsRun(src, Deleting(p, delete), m) == Before(After(src.gs, p), StepsDelete(delete, n).cells)
    decreases n
  {
    hide StepDelete;
    if delete.Deleted? {
      DeletedStays(delete, n);
      m := 1;
      assert StepsRun(src, Deleting(p, delete), 1) == StepsRun(src, StepRun(src, Deleting(p, delete)), 0);
    } else {
      var k := DeleteRunsOn(src, p, StepDelete(delete), n - 1);
      m := k + 1;
      assert StepsRun(src, Deleting(p, delete), m) == StepsRun(src, StepRun(src, Deleting(p, delete)), k);
    }
  }

  lemma {:induction false} DeletedStays(delete: DeleteState, n: nat)
    requires IsDelete(delete) && delete.Deleted?
    ensures StepsDelete(delete, n) == delete
    decreases n
  {
    if n > 0 {
      DeletedStays(delete, n - 1);
    }
  }

  /** A put that cannot end keeps the run where it is. */
  lemma {:induction false} StuckRun(src: Source, p: Place, put: PutState, n: nat)
    requires Stuck(put) && IsState(put) && |put.cells| > 0
    ensures StepsRun(src, Putting(p, put), n).Putting?
    decreases n
  {
    if n > 0 {
      StuckStays(put);
      StuckRun(src, p, StepPut(put), n - 1);
    }
  }

  // ---- What a replay keeps ----

  /** The cells hold the puts that are live before p, in a valid layout. */
  ghost predicate Indexed(src: Source, capacity: nat, p: Place, cells: seq<Cell>)
    requires NoEmptyGroups(src.gs) && OnPath(src.gs, p)
  {
    var m := LiveAt(src.gs, p);
    && |cells| == capacity > 0 && RobinHood.Valid(Wants(cells)) && Holds(cells, m, src.hash, src.compression, src.gs)
    && multiset(cells)[Free] + |m| == capacity
  }

  lemma AlikeHeld(src: Source, m: map<Bytes, Place>, cells: seq<Cell>, key: Bytes)
    requires Holds(cells, m, src.hash, src.compression, src.gs)
    ensures forall i :: 0 <= i < |cells| && IsKey(cells[i], key) ==> cells[i].hash == src.hash(key)
  {
    forall i | 0 <= i < |cells| && IsKey(cells[i], key) ensures cells[i].hash == src.hash(key) {
      HoldsCell(cells, m, src.hash, src.compression, src.gs, i);
    }
  }

  /** A put finds room exactly if its key is live or there are fewer live keys than slots. */
  lemma RoomHere(src: Source, capacity: nat, p: Place, cells: seq<Cell>)
    requires NoEmptyGroups(src.gs) && InLog(src.gs, p) && Indexed(src, capacity, p, cells)
    ensures var m, key := LiveAt(src.gs, p), EntryAt(src.gs, p).key;
            HasRoom(cells, key) <==> key in m || |m| < capacity
  {
    HoldsKey(cells, LiveAt(src.gs, p), src.hash, src.compression, src.gs, EntryAt(src.gs, p).key);
    assert Free in cells <==> Free in multiset(cells);
  }

  lemma PutKeeps(src: Source, capacity: nat, p: Place, cells: seq<Cell>, after: seq<Cell>)
    requires NoEmptyGroups(src.gs) && InLog(src.gs, p) && EntryAt(src.gs, p).Put? && Indexed(src, capacity, p, cells)
    requires PutDone(cells, after, CellIn(src, p)) && |after| == |cells| && RobinHood.Valid(Wants(after))
    ensures OnPath(src.gs, After(src.gs, p)) && Indexed(src, capacity, After(src.gs, p), after)
  {
    hide Holds, RobinHood.Valid, Wants, LiveAt, Due;
    var m, e, x := LiveAt(src.gs, p), EntryAt(src.gs, p), CellIn(src, p);
    LiveAfter(src.gs, p);
    StepCount(m, e, p);
    HoldsKey(cells, m, src.hash, src.compression, src.gs, e.key);
    if HasKey(cells, e.key) {
      var i :| 0 <= i < |cells| && IsKey(cells[i], x.key) && after == cells[i := x];
      HoldsReplaced(cells, i, m, src.hash, src.compression, src.gs, p);
      ReplacedOne(cells, i, x);
      SameFree(cells, after, cells[i], x);
    } else {
      HoldsInserted(cells, after, m, src.hash, src.compression, src.gs, p);
      FreeCount(multiset(cells), multiset(after), x);
    }
  }

  lemma SameFree(before: seq<Cell>, after: seq<Cell>, x: Cell, y: Cell)
    requires x.Used? && y.Used? && multiset(after) + multiset{x} == multiset(before) + multiset{y}
    ensures multiset(after)[Free] == multiset(before)[Free]
  {
    assert (multiset(after) + multiset{x})[Free] == (multiset(before) + multiset{y})[Free];
  }

  lemma DeleteKeeps(src: Source, capacity: nat, p: Place, cells: seq<Cell>, after: seq<Cell>)
    requires NoEmptyGroups(src.gs) && InLog(src.gs, p) && EntryAt(src.gs, p).Delete? && Indexed(src, capacity, p, cells)
    requires DeleteDone(cells, after, EntryAt(src.gs, p).key)
    ensures OnPath(src.gs, After(src.gs, p)) && Indexed(src, capacity, After(src.gs, p), after)
  {
    hide Holds, RobinHood.Valid, Wants, LiveAt, Due;
    var m, e := LiveAt(src.gs, p), EntryAt(src.gs, p);
    LiveAfter(src.gs, p);
    StepCount(m, e, p);
    HoldsKey(cells, m, src.hash, src.compression, src.gs, e.key);
    if HasKey(cells, e.key) {
      var i :| 0 <= i < |cells| && IsKey(cells[i], e.key)
               && multiset(after) + multiset{cells[i]} == multiset(cells) + multiset{Free};
      HoldsRemoved(cells, after, i, m, src.hash, src.compression, src.gs, e.key);
      FreeCount(multiset(after), multiset(cells), cells[i]);
    } else {
      assert m - {e.key} == m;
    }
  }

  /** With room for it an entry is replayed. */
  lemma EntryRuns(src: Source, capacity: nat, p: Place, cells: seq<Cell>) returns (n: nat, after: seq<Cell>)
    requires NoEmptyGroups(src.gs) && InLog(src.gs, p) && Indexed(src, capacity, p, cells)
    requires EntryAt(src.gs, p).Put? ==> HasRoom(cells, EntryAt(src.gs, p).key)
    ensures StepsRun(src, Before(p, cells), n) == Before(After(src.gs, p), after)
    ensures OnPath(src.gs, After(src.gs, p)) && Indexed(src, capacity, After(src.gs, p), after)
  {
    hide Holds, RobinHood.Valid, Wants, LiveAt, StepPut, StepDelete, StepsPut, StepsDelete, Indexed, PutDone,
         DeleteDone;
    var e, s := EntryAt(src.gs, p), Before(p, cells);
    IndexedCells(src, capacity, p, cells);
    AlikeHeld(src, LiveAt(src.gs, p), cells, e.key);
    var k: nat;
    if e.Put? {
      var x := CellIn(src, p);
      PutEndsIffRoom(cells, x);
      var i: nat :| StepsPut(StartPut(cells, x), i).Finished? && PutDone(cells, StepsPut(StartPut(cells, x), i).cells, x)
                    && |StepsPut(StartPut(cells, x), i).cells| == |cells|
                    && RobinHood.Valid(Wants(StepsPut(StartPut(cells, x), i).cells));
      after := StepsPut(StartPut(cells, x), i).cells;
      k := PutRunsOn(src, p, StartPut(cells, x), i);
      PutKeeps(src, capacity, p, cells, after);
    } else {
      var start := Seeking(cells, e.key, src.hash(e.key), src.hash(e.key) % |cells|, 0);
      StartsSeeking(cells, e.key, src.hash(e.key));
      var i := SeekFinishes(start);
      after := StepsDelete(start, i).cells;
      k := DeleteRunsOn(src, p, start, i);
      DeleteKeeps(src, capacity, p, cells, after);
    }
    n := k + 1;
    assert StepsRun(src, s, n) == StepsRun(src, StepRun(src, s), k);
  }

  lemma IndexedCells(src: Source, capacity: nat, p: Place, cells: seq<Cell>)
    requires NoEmptyGroups(src.gs) && OnPath(src.gs, p) && Indexed(src, capacity, p, cells)
    ensures |cells| == capacity > 0 && RobinHood.Valid(Wants(cells))
    ensures Holds(cells, LiveAt(src.gs, p), src.hash, src.compression, src.gs)
  {
  }

  lemma StartsSeeking(cells: seq<Cell>, key: Bytes, hash: nat)
    requires |cells| > 0 && RobinHood.Valid(Wants(cells))
    requires forall i :: 0 <= i < |cells| && IsKey(cells[i], key) ==> cells[i].hash == hash
    ensures SeekingKey(Seeking(cells, key, hash, hash % |cells|, 0))
  {
  }

  // ---- The whole run ----

  lemma RoomNow(gs: seq<Group>, p: Place, capacity: nat)
    requires NoEmptyGroups(gs) && InLog(gs, p)
    ensures var e, m := EntryAt(gs, p), LiveAt(gs, p);
            OnPath(gs, After(gs, p)) &&
            (Room(gs, p, capacity) <==> (e.Put? ==> e.key in m || |m| < capacity) && Room(gs, After(gs, p), capacity))
  {
    hide LiveAt;
    AfterIsNext(gs, p);
    if (EntryAt(gs, p).Put? ==> EntryAt(gs, p).key in LiveAt(gs, p) || |LiveAt(gs, p)| < capacity)
       && Room(gs, After(gs, p), capacity) {
      forall q | InLog(gs, q) && (q == p || Precedes(p, q)) && EntryAt(gs, q).Put? && EntryAt(gs, q).key !in LiveAt(gs, q)
        ensures |LiveAt(gs, q)| < capacity
      {
        assert q == p || q == After(gs, p) || Precedes(After(gs, p), q);
      }
    }
  }

  /** With room the replay ends, and the table holds the live puts. */
  lemma {:induction false} RunEnds(src: Source, capacity: nat, p: Place, cells: seq<Cell>) returns (n: nat)
    requires NoEmptyGroups(src.gs) && OnPath(src.gs, p) && Indexed(src, capacity, p, cells) && Room(src.gs, p, capacity)
    ensures IsRun(Before(p, cells)) && StepsRun(src, Before(p, cells), n).Complete?
    ensures Indexed(src, capacity, End(src.gs), StepsRun(src, Before(p, cells), n).cells)
    decreases |src.gs| - p.group, if p.group < |src.gs| then |src.gs[p.group].entries| - p.index else 0
  {
    hide Indexed, LiveAt, Room;
    IndexedCells(src, capacity, p, cells);
    if InLog(src.gs, p) {
      RoomNow(src.gs, p, capacity);
      RoomHere(src, capacity, p, cells);
      var k, after := EntryRuns(src, capacity, p, cells);
      var m := RunEnds(src, capacity, After(src.gs, p), after);
      n := k + m;
      InARow(src, Before(p, cells), k, m);
    } else {
      n := 1;
      assert StepsRun(src, Before(p, cells), 1) == StepsRun(src, StepRun(src, Before(p, cells)), 0);
    }
  }

  lemma RoomAtEnd(gs: seq<Group>, p: Place, capacity: nat)
    requires NoEmptyGroups(gs) && OnPath(gs, p) && !Room(gs, p, capacity)
    ensures InLog(gs, p)
  {
    hide LiveAt;
  }

  lemma RunSticks(src: Source, p: Place, cells: seq<Cell>, n: nat)
    requires InLog(src.gs, p) && EntryAt(src.gs, p).Put? && |cells| > 0 && !HasRoom(cells, EntryAt(src.gs, p).key)
    ensures !StepsRun(src, Before(p, cells), n).Complete?
  {
    if n > 0 {
      StuckRun(src, p, StartPut(cells, CellIn(src, p)), n - 1);
    }
  }

  /** Without room it comes to a put that never ends. */
  lemma {:induction false} RunNeverEnds(src: Source, capacity: nat, p: Place, cells: seq<Cell>, n: nat)
    requires NoEmptyGroups(src.gs) && OnPath(src.gs, p) && Indexed(src, capacity, p, cells) && !Room(src.gs, p, capacity)
    ensures IsRun(Before(p, cells)) && !StepsRun(src, Before(p, cells), n).Complete?
    decreases |src.gs| - p.group, if p.group < |src.gs| then |src.gs[p.group].entries| - p.index else 0
  {
    hide Indexed, LiveAt, Room, Holds, RobinHood.Valid, Wants, StepPut, StepDelete;
    IndexedCells(src, capacity, p, cells);
    RoomAtEnd(src.gs, p, capacity);
    var e, s := EntryAt(src.gs, p), Before(p, cells);
    RoomNow(src.gs, p, capacity);
    RoomHere(src, capacity, p, cells);
    if e.Put? && !HasRoom(cells, e.key) {
      RunSticks(src, p, cells, n);
    } else {
      var k, after := EntryRuns(src, capacity, p, cells);
      if k <= n {
        InARow(src, s, k, n - k);
        RunNeverEnds(src, capacity, After(src.gs, p), after, n - k);
      } else {
        NotCompleteBefore(src, s, n, k);
      }
    }
  }

  function StartRun(capacity: nat): RunState {
    Before(FIRST, seq(capacity, _ => Free))
  }

  lemma StartIndexed(src: Source, capacity: nat)
    requires NoEmptyGroups(src.gs) && capacity > 0
    ensures OnPath(src.gs, FIRST) && Indexed(src, capacity, FIRST, seq(capacity, _ => Free))
  {
    var cells: seq<Cell> := seq(capacity, _ => Free);
    AllFree(capacity);
    NothingHeld(capacity, src.hash, src.compression, src.gs);
    assert forall i :: 0 <= i < capacity ==> OkAt(Wants(cells), i);
    assert Settled(Wants(cells), 0);
  }

  /** There is room throughout exactly if no beginning of the log has more live keys than there are slots. */
  lemma RoomIffFewLive(gs: seq<Group>, capacity: nat)
    requires NoEmptyGroups(gs)
    ensures OnPath(gs, FIRST)
    ensures Room(gs, FIRST, capacity) <==> forall p :: OnPath(gs, p) ==> |LiveAt(gs, p)| <= capacity
  {
    hide LiveAt;
    if Room(gs, FIRST, capacity) {
      forall p | OnPath(gs, p) ensures |LiveAt(gs, p)| <= capacity {
        FewLive(gs, capacity, p);
      }
    }
    if forall p :: OnPath(gs, p) ==> |LiveAt(gs, p)| <= capacity {
      forall q | InLog(gs, q) && EntryAt(gs, q).Put? && EntryAt(gs, q).key !in LiveAt(gs, q) ensures |LiveAt(gs, q)| < capacity {
        LiveAfter(gs, q);
        StepCount(LiveAt(gs, q), EntryAt(gs, q), q);
        assert OnPath(gs, After(gs, q));
      }
    }
  }

  lemma {:induction false} FewLive(gs: seq<Group>, capacity: nat, p: Place)
    requires NoEmptyGroups(gs) && OnPath(gs, FIRST) && Room(gs, FIRST, capacity) && OnPath(gs, p)
    ensures |LiveAt(gs, p)| <= capacity
    decreases p.group, p.index
  {
    if p != FIRST {
      var q := Prior(gs, p);
      FewLive(gs, capacity, q);
      StepCount(LiveAt(gs, q), EntryAt(gs, q), q);
      assert InLog(gs, q) && (q == FIRST || Precedes(FIRST, q));
    }
  }

  /** A replay of the whole log into an empty table ends exactly if no beginning of the log has more live
      keys than the table has slots; else it comes to a put that runs for ever. */
  lemma ReplayEndsIffRoom(src: Source, capacity: nat)
    requires NoEmptyGroups(src.gs) && capacity > 0
    ensures OnPath(src.gs, FIRST) && IsRun(StartRun(capacity))
    ensures (exists n: nat :: StepsRun(src, StartRun(capacity), n).Complete?) <==> Room(src.gs, FIRST, capacity)
    ensures Room(src.gs, FIRST, capacity) <==> forall p :: OnPath(src.gs, p) ==> |LiveAt(src.gs, p)| <= capacity
    ensures forall n: nat :: StepsRun(src, StartRun(capacity), n).Complete? ==>
              Indexed(src, capacity, End(src.gs), StepsRun(src, StartRun(capacity), n).cells)
  {
    hide Indexed, Room, StepsRun, LiveAt;
    var cells: seq<Cell> := seq(capacity, _ => Free);
    StartIndexed(src, capacity);
    RoomIffFewLive(src.gs, capacity);
    if Room(src.gs, FIRST, capacity) {
      var n := RunEnds(src, capacity, FIRST, cells);
      assert StepsRun(src, StartRun(capacity), n).Complete?;
      forall k: nat | StepsRun(src, StartRun(capacity), k).Complete?
        ensures StepsRun(src, StartRun(capacity), k) == StepsRun(src, StartRun(capacity), n)
      {
        SameEnd(src, StartRun(capacity), k, n);
      }
    } else {
      forall n: nat ensures !StepsRun(src, StartRun(capacity), n).Complete? {
        RunNeverEnds(src, capacity, FIRST, cells, n);
      }
    }
  }

  lemma SameEnd(src: Source, s: RunState, a: nat, b: nat)
    requires IsRun(s) && StepsRun(src, s, a).Complete? && StepsRun(src, s, b).Complete?
    ensures StepsRun(src, s, a) == StepsRun(src, s, b)
  {
    if a <= b {
      InARow(src, s, a, b - a);
      StaysComplete(src, StepsRun(src, s, a), b - a);
    } else {
      InARow(src, s, b, a - b);
      StaysComplete(src, StepsRun(src, s, b), a - b);
    }
  }
}
