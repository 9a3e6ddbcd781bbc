/** The loop of `hash_put` step by step: when it ends, and when it never does. */
module PutSteps {
  import opened RobinHood
  import opened HashTables

  /** The loop is at a slot with a cell to place, having come `displacement` steps from the slot the cell
      wants; keys are compared until another cell has been displaced. */
  datatype PutState =
    | Running(cells: seq<Cell>, x: Cell, slot: nat, displacement: nat, comparing: bool)
    | Finished(cells: seq<Cell>)

  predicate IsState(s: PutState) {
    s.Running? ==> s.slot < |s.cells| && s.x.Used?
  }

  /** One turn of the loop. */
  function StepPut(s: PutState): (s': PutState)
    requires IsState(s)
    ensures IsState(s') && |s'.cells| == |s.cells|
  {
    match s
    case Finished(_) => s
    case Running(cells, x, slot, displacement, comparing) =>
      var y := cells[slot];
      if y.Free? || (comparing && y.hash == x.hash && y.key == x.key) then
        Finished(cells[slot := x])
      else if displacement > DispOf(cells, slot) then
        Running(cells[slot := x], y, Next(|cells|, slot), DispOf(cells, slot) + 1, false)
      else
        Running(cells, x, Next(|cells|, slot), displacement + 1, comparing)
  }

  function StepsPut(s: PutState, n: nat): (s': PutState)
    requires IsState(s)
    ensures IsState(s')
    decreases n
  {
    if n == 0 then s else StepsPut(StepPut(s), n - 1)
  }

  function StartPut(cells: seq<Cell>, x: Cell): PutState
    requires |cells| > 0 && x.Used?
  {
    Running(cells, x, x.hash % |cells|, 0, true)
  }

  /** Cells with the key of x have its hash too. */
  predicate HashedAlike(cells: seq<Cell>, x: Cell)
    requires x.Used?
  {
    forall i :: 0 <= i < |cells| && IsKey(cells[i], x.key) ==> cells[i].hash == x.hash
  }

  // ---- What a put does ----

  /** What a put does to the cells: the entry of the key is replaced where it is, or one free cell
      is used up. */
  ghost predicate PutDone(before: seq<Cell>, after: seq<Cell>, x: Cell)
    requires x.Used?
  {
    if HasKey(before, x.key)
    then exists i :: 0 <= i < |before| && IsKey(before[i], x.key) && after == before[i := x]
    else multiset(after) + multiset{Free} == multiset(before) + multiset{x}
  }

  // ---- Without room ----

  /** Every slot is taken, and while keys are compared none has the key. */
  predicate Stuck(s: PutState) {
    s.Running? && IsState(s) && Free !in s.cells && (s.comparing ==> !HasKey(s.cells, s.x.key))
  }

  lemma StuckStays(s: PutState)
    requires Stuck(s)
    ensures Stuck(StepPut(s))
  {
    assert s.cells[s.slot].Used?;
    if s.comparing {
      assert !IsKey(s.cells[s.slot], s.x.key);
    }
    forall i | 0 <= i < |s.cells| ensures StepPut(s).cells[i].Used? {
      assert s.cells[i] in s.cells;
    }
  }

  lemma {:induction false} StuckForever(s: PutState, n: nat)
    requires Stuck(s)
    ensures StepsPut(s, n).Running?
    decreases n
  {
    hide StepPut, Stuck;
    StuckRuns(s);
    if n > 0 {
      StuckStays(s);
      StuckForever(StepPut(s), n - 1);
    }
  }

  lemma StuckRuns(s: PutState)
    requires Stuck(s)
    ensures s.Running? && IsState(s)
  {
  }

  // ---- With room ----

  lemma OneStep(s: PutState, n: nat)
    requires IsState(s)
    ensures StepsPut(s, n + 1) == StepsPut(StepPut(s), n)
  {
  }

  /** A cell is carried towards a free slot e, and its key is nowhere. */
  ghost predicate Pushing(s: PutState, e: nat) {
    && s.Running? && IsState(s) && e < |s.cells| && s.cells[e].Free?
    && Carrying(Wants(s.cells), s.slot, s.x.hash % |s.cells|, e)
    && s.displacement == Dist(|s.cells|, s.x.hash % |s.cells|, s.slot)
    && (s.comparing ==> !HasKey(s.cells, s.x.key))
  }

  lemma PushOn(s: PutState, e: nat)
    requires Pushing(s, e) && s.cells[s.slot].Used?
    ensures var s' := StepPut(s);
            Pushing(s', e) && Dist(|s'.cells|, s'.slot, e) < Dist(|s.cells|, s.slot, e)
            && multiset(s'.cells) + multiset{s'.x} == multiset(s.cells) + multiset{s.x}
  {
    hide Carrying;
    var cells, x, slot, w := s.cells, s.x, s.slot, s.x.hash % |s.cells|;
    assert s.comparing ==> !IsKey(cells[slot], x.key);
    WantsUpdate(cells, slot, x);
    ReplacedOne(cells, slot, x);
    if s.displacement > DispOf(cells, slot) {
      CarrySteal(Wants(cells), slot, w, e);
    } else {
      CarryPast(Wants(cells), slot, w, e);
    }
  }

  lemma PushEnd(s: PutState, e: nat)
    requires Pushing(s, e) && s.cells[s.slot].Free?
    ensures StepPut(s) == Finished(s.cells[s.slot := s.x]) && RobinHood.Valid(Wants(StepPut(s).cells))
    ensures multiset(StepPut(s).cells) + multiset{Free} == multiset(s.cells) + multiset{s.x}
  {
    hide Carrying;
    CarryEnd(Wants(s.cells), s.slot, s.x.hash % |s.cells|, e);
    WantsUpdate(s.cells, s.slot, s.x);
    ReplacedOne(s.cells, s.slot, s.x);
  }

  /** All displaced cells get settled, one turn for each slot on the way. */
  lemma {:induction false} PushFinishes(s: PutState, e: nat) returns (n: nat)
    requires Pushing(s, e)
    ensures StepsPut(s, n).Finished? && n <= Dist(|s.cells|, s.slot, e) + 1
    ensures multiset(StepsPut(s, n).cells) + multiset{Free} == multiset(s.cells) + multiset{s.x}
    ensures |StepsPut(s, n).cells| == |s.cells| && RobinHood.Valid(Wants(StepsPut(s, n).cells))
    decreases Dist(|s.cells|, s.slot, e)
  {
    hide Carrying, StepPut, RobinHood.Valid, Wants, Dist;
    if s.cells[s.slot].Free? {
      PushEnd(s, e);
      n := 1;
      assert StepsPut(s, 1) == StepsPut(StepPut(s), 0);
    } else {
      PushOn(s, e);
      var m := PushFinishes(StepPut(s), e);
      n := m + 1;
      OneStep(s, m);
    }
  }

  /** The key is still being looked for. */
  ghost predicate Looking(s: PutState) {
    && s.Running? && IsState(s) && RobinHood.Valid(Wants(s.cells))
    && s.comparing && HashedAlike(s.cells, s.x) && HasRoom(s.cells, s.x.key)
    && Probed(s.cells, s.x.key, s.x.hash % |s.cells|, s.displacement, s.slot)
  }

  lemma LookOn(s: PutState)
    requires Looking(s) && s.cells[s.slot].Used? && !IsKey(s.cells[s.slot], s.x.key)
    requires s.displacement <= DispOf(s.cells, s.slot)
    ensures StepPut(s) == s.(slot := Next(|s.cells|, s.slot), displacement := s.displacement + 1)
    ensures Looking(StepPut(s)) && s.displacement < |s.cells|
  {
    hide Reached;
    ProbeNext(s.cells, s.x.key, s.x.hash % |s.cells|, s.displacement, s.slot);
  }

  /** The slot of the key has been found. */
  lemma LookFound(s: PutState)
    requires Looking(s) && IsKey(s.cells[s.slot], s.x.key)
    ensures StepPut(s) == Finished(s.cells[s.slot := s.x]) && HasKey(s.cells, s.x.key)
    ensures RobinHood.Valid(Wants(StepPut(s).cells))
  {
    hide RobinHood.Valid, Probed;
    WantsUpdate(s.cells, s.slot, s.x);
    assert Wants(s.cells[s.slot := s.x]) == Wants(s.cells);
  }

  /** The key is nowhere: from here on its cell is carried to a free slot. */
  lemma LookStops(s: PutState) returns (e: nat)
    requires Looking(s) && (s.cells[s.slot].Used? ==> s.displacement > DispOf(s.cells, s.slot))
    ensures Pushing(s, e) && !HasKey(s.cells, s.x.key)
  {
    hide Reached, Carrying;
    GiveUp(s.cells, s.x.key, s.x.hash % |s.cells|, s.displacement, s.slot);
    e :| 0 <= e < |s.cells| && s.cells[e] == Free;
    ReachedCarries(Wants(s.cells), s.x.hash % |s.cells|, s.displacement, s.slot, e);
  }

  lemma {:induction false} LookFinishes(s: PutState) returns (n: nat)
    requires Looking(s) && s.displacement <= |s.cells|
    ensures StepsPut(s, n).Finished? && n <= 2 * |s.cells| + 1 - s.displacement
    ensures PutDone(s.cells, StepsPut(s, n).cells, s.x)
    ensures |StepsPut(s, n).cells| == |s.cells| && RobinHood.Valid(Wants(StepsPut(s, n).cells))
    decreases |s.cells| - s.displacement
  {
    hide Looking, StepPut, Pushing, RobinHood.Valid, Wants;
    LookingState(s);
    var y := s.cells[s.slot];
    if IsKey(y, s.x.key) {
      LookFound(s);
      n := 1;
      assert StepsPut(s, 1) == StepsPut(StepPut(s), 0);
    } else if y.Used? && s.displacement <= DispOf(s.cells, s.slot) {
      LookOn(s);
      var m := LookFinishes(StepPut(s));
      n := m + 1;
      OneStep(s, m);
    } else {
      var e := LookStops(s);
      n := PushFinishes(s, e);
      WithinTable(s, e);
    }
  }

  lemma LookingState(s: PutState)
    requires Looking(s)
    ensures s.Running? && IsState(s)
  {
  }

  lemma WithinTable(s: PutState, e: nat)
    requires Pushing(s, e)
    ensures s.slot < |s.cells| && e < |s.cells| && Dist(|s.cells|, s.slot, e) < |s.cells|
  {
  }

  /** A put ends exactly when the key is there already or some slot is free; then within two rounds of the table. */
  lemma PutEndsIffRoom(cells: seq<Cell>, x: Cell)
    requires |cells| > 0 && x.Used? && RobinHood.Valid(Wants(cells)) && HashedAlike(cells, x)
    ensures (exists n: nat :: StepsPut(StartPut(cells, x), n).Finished?) <==> HasRoom(cells, x.key)
    ensures HasRoom(cells, x.key) ==>
      exists n: nat :: n <= 2 * |cells| + 1 && StepsPut(StartPut(cells, x), n).Finished?
                  && PutDone(cells, StepsPut(StartPut(cells, x), n).cells, x)
                  && |StepsPut(StartPut(cells, x), n).cells| == |cells|
                  && RobinHood.Valid(Wants(StepsPut(StartPut(cells, x), n).cells))
  {
    hide StepPut, PutDone, StepsPut, RobinHood.Valid, Wants;
    var s := StartPut(cells, x);
    if HasRoom(cells, x.key) {
      StartsLooking(cells, x);
      var n := LookFinishes(s);
      assert StepsPut(s, n).Finished?;
    } else {
      forall n: nat ensures !StepsPut(s, n).Finished? {
        StuckForever(s, n);
      }
    }
  }

  lemma StartsLooking(cells: seq<Cell>, x: Cell)
    requires |cells| > 0 && x.Used? && RobinHood.Valid(Wants(cells)) && HashedAlike(cells, x) && HasRoom(cells, x.key)
    ensures Looking(StartPut(cells, x))
  {
  }
}
