/** What indexes have in common however they came about, and what happens without room. */
module IndexLaws {
  import opened Vlq
  import opened LogFormat
  import opened LogHeaders
  import opened LogWriter
  import opened LogFiles
  import opened Liveness
  import opened RobinHood
  import opened Sizing
  import opened SlotArrays
  import opened HashTables
  import opened HashStats
  import opened Index
  import opened HashWriter
  import opened HashBuilder
  import opened PutSteps
  import opened ReplaySteps
  import opened LogReader
  import opened KeyCompare

  // ---- However an index was written ----

  /** Two indexes of a log, written from scratch or incrementally with whatever hash functions, have as
      many entries and the same keys, which refer to the same puts. */
  lemma IndexesAgree(t: HashTable, u: HashTable, c: Compression, gs: seq<Group>)
    requires IsIndex(t, c, gs) && IsIndex(u, c, gs)
    ensures t.numEntries == u.numEntries
    ensures forall i, j :: 0 <= i < |t.cells| && 0 <= j < |u.cells| && t.cells[i].Used? && IsKey(u.cells[j], t.cells[i].key)
              ==> t.cells[i].place == u.cells[j].place && t.cells[i].position == u.cells[j].position
    ensures forall key :: HasKey(t.cells, key) <==> HasKey(u.cells, key)
  {
    hide HashTable.Valid, Holds, IsMaxDisp, HasKey;
    var m := LiveAt(gs, End(gs));
    forall i, j | 0 <= i < |t.cells| && 0 <= j < |u.cells| && t.cells[i].Used? && IsKey(u.cells[j], t.cells[i].key)
      ensures t.cells[i].place == u.cells[j].place && t.cells[i].position == u.cells[j].position
    {
      HoldsCell(t.cells, m, t.hash, c, gs, i);
      HoldsCell(u.cells, m, u.hash, c, gs, j);
    }
    forall key ensures HasKey(t.cells, key) <==> HasKey(u.cells, key) {
      HoldsKey(t.cells, m, t.hash, c, gs, key);
      HoldsKey(u.cells, m, u.hash, c, gs, key);
    }
  }

  lemma FreeCells(t: HashTable)
    requires t.Valid()
    ensures |t.cells| == t.Capacity() && multiset(t.cells)[Free] == |t.cells| - t.numEntries
    ensures |t.cells| > 0 && RobinHood.Valid(Wants(t.cells))
  {
  }

  lemma SameCells(a: seq<Cell>, b: seq<Cell>, m: map<Bytes, Place>, hash: Bytes -> nat, c: Compression, gs: seq<Group>)
    requires Holds(a, m, hash, c, gs) && Holds(b, m, hash, c, gs) && multiset(a)[Free] == multiset(b)[Free]
    ensures multiset(a) == multiset(b)
  {
    forall x: Cell ensures multiset(a)[x] == multiset(b)[x] {
      if x.Used? {
        assert multiset(a)[x] == Due(x, m, hash, c, gs) == multiset(b)[x];
      }
    }
  }

  lemma MaxDispIsUnique(l: Layout, d: nat, e: nat)
    requires IsMaxDisp(l, d) && IsMaxDisp(l, e)
    ensures d == e
  {
    if d > 0 {
      var i :| 0 <= i < |l| && Taken(l, i) && Disp(l, i) == d;
    }
    if e > 0 {
      var i :| 0 <= i < |l| && Taken(l, i) && Disp(l, i) == e;
    }
  }

  /** With the same hash function and capacity they even have the same layout, and so the same
      largest displacement: how the log was cut into sittings cannot be told from it. */
  lemma SameLayout(t: HashTable, u: HashTable, c: Compression, gs: seq<Group>)
    requires IsIndex(t, c, gs) && IsIndex(u, c, gs) && t.hash == u.hash && t.Capacity() == u.Capacity()
    ensures |t.cells| > 0 && |u.cells| > 0 && Wants(t.cells) == Wants(u.cells)
    ensures t.maxDisplacement == u.maxDisplacement && t.totalDisplacement == u.totalDisplacement
  {
    hide HashTable.Valid, RobinHood.Valid, Holds, IsMaxDisp, Wants;
    FreeCells(t);
    FreeCells(u);
    SameCells(t.cells, u.cells, LiveAt(gs, End(gs)), t.hash, c, gs);
    SameWants(t.cells, u.cells);
    HistoryIndependent(Wants(t.cells), Wants(u.cells));
    MaxDispIsUnique(Wants(t.cells), t.maxDisplacement, u.maxDisplacement);
  }

  /** A put of a new key and its delete leave the layout as it was. */
  lemma PutThenDelete(before: seq<Cell>, mid: seq<Cell>, after: seq<Cell>, x: Cell, at: nat)
    requires |before| == |mid| == |after| > 0 && RobinHood.Valid(Wants(before)) && RobinHood.Valid(Wants(after))
    requires x.Used? && !HasKey(before, x.key) && PutDone(before, mid, x)
    requires at < |mid| && IsKey(mid[at], x.key) && multiset(after) + multiset{mid[at]} == multiset(mid) + multiset{Free}
    ensures multiset(after) == multiset(before) && Wants(after) == Wants(before)
  {
    hide RobinHood.Valid, Wants;
    assert mid[at] == x by {
      assert mid[at] in multiset(mid) + multiset{Free};
      assert mid[at] in multiset(before) + multiset{x};
      assert forall i :: 0 <= i < |before| ==> !IsKey(before[i], x.key);
    }
    assert multiset(after) + multiset{x} == multiset(before) + multiset{x};
    forall y: Cell ensures multiset(after)[y] == multiset(before)[y] {
      assert (multiset(after) + multiset{x})[y] == (multiset(before) + multiset{x})[y];
    }
    SameWants(after, before);
    HistoryIndependent(Wants(after), Wants(before));
  }

  // ---- Room ----

  lemma AlikeInTable(t: HashTable, x: Cell)
    requires t.Valid() && x.Used? && x.hash == t.hash(x.key)
    ensures HashedAlike(t.cells, x)
  {
    forall i | 0 <= i < |t.cells| && IsKey(t.cells[i], x.key) ensures t.cells[i].hash == x.hash {
      assert t.Storable(t.cells[i]);
    }
  }

  /** During a replay the put at place p ends exactly when its key is live or there are fewer live keys than slots. */
  lemma ReplayEndsIff(t: HashTable, c: Compression, gs: seq<Group>, p: Place)
    requires NoEmptyGroups(gs) && InLog(gs, p) && EntryAt(gs, p).Put? && IndexAt(t, c, gs, p)
    ensures |t.cells| > 0
    ensures (exists n: nat :: StepsPut(StartPut(t.cells, CellOf(t.hash, c, gs, p)), n).Finished?)
       <==> EntryAt(gs, p).key in LiveAt(gs, p) || |LiveAt(gs, p)| < t.Capacity()
  {
    hide HashTable.Valid, RobinHood.Valid, Holds, StepsPut, StartPut, LiveAt;
    var x := CellOf(t.hash, c, gs, p);
    FreeCells(t);
    AlikeInTable(t, x);
    HoldsKey(t.cells, LiveAt(gs, p), t.hash, c, gs, x.key);
    PutEndsIffRoom(t.cells, x);
    assert Free in t.cells <==> Free in multiset(t.cells);
  }

  /** A replay that ends step by step and the table the builder makes agree: the same used cells, each once,
      in the same layout. */
  lemma RunMatchesTable(t: HashTable, c: Compression, gs: seq<Group>, n: nat)
    requires NoEmptyGroups(gs) && IndexAt(t, c, gs, End(gs)) && 0 < t.Capacity()
    requires StepsRun(Source(t.hash, c, gs), StartRun(t.Capacity()), n).Complete?
    ensures var cells := StepsRun(Source(t.hash, c, gs), StartRun(t.Capacity()), n).cells;
            |cells| == |t.cells| > 0 && multiset(cells) == multiset(t.cells) && Wants(cells) == Wants(t.cells)
  {
    hide HashTable.Valid, RobinHood.Valid, Holds, Wants, StepsRun, LiveAt;
    var src := Source(t.hash, c, gs);
    var cells := StepsRun(src, StartRun(t.Capacity()), n).cells;
    ReplayEndsIffRoom(src, t.Capacity());
    FreeCells(t);
    assert Indexed(src, t.Capacity(), End(gs), cells);
    SameCells(cells, t.cells, LiveAt(gs, End(gs)), t.hash, c, gs);
    SameWants(cells, t.cells);
    HistoryIndependent(Wants(cells), Wants(t.cells));
  }

  // ---- A change of the hash size ----

  function Alone(e: Entry): Group {
    Group([e], [Encoded(e)])
  }

  /** Two keys are put and both deleted again. */
  const PUT_AND_DELETED: seq<Group> :=
    [Alone(LogFormat.Put([1], [])), Alone(LogFormat.Put([2], [])), Alone(LogFormat.Delete([1])), Alone(LogFormat.Delete([2]))]

  lemma PutAndDeletedGroups()
    ensures AreGroups(Plain, PUT_AND_DELETED) && NoEmptyGroups(PUT_AND_DELETED)
    ensures Entries(PUT_AND_DELETED) ==
      [LogFormat.Put([1], []), LogFormat.Put([2], []), LogFormat.Delete([1]), LogFormat.Delete([2])]
  {
    hide Encoded, IsGroup, Header;
    var gs := PUT_AND_DELETED;
    forall g | 0 <= g < |gs| ensures IsGroup(Plain, gs[g]) {
      PlainGroup(Plain, gs[g].entries[0]);
    }
    assert Entries(gs[3..]) == gs[3].entries + Entries([]);
    assert Entries(gs[2..]) == gs[2].entries + Entries(gs[3..]) by { assert gs[2..][1..] == gs[3..]; }
    assert Entries(gs[1..]) == gs[1].entries + Entries(gs[2..]) by { assert gs[1..][1..] == gs[2..]; }
  }

  lemma NothingCounted()
    ensures Puts([]) == PutBytes([]) == LargestKey([]) == LargestValue([]) == |EncodeAll([])| == 0
  {
  }

  lemma PutAndDeletedCounts()
    ensures Puts(Entries(PUT_AND_DELETED)) == 2 && |EncodeAll(Entries(PUT_AND_DELETED))| == 12
    ensures PutBytes(Entries(PUT_AND_DELETED)) == 6
    ensures LargestKey(Entries(PUT_AND_DELETED)) == 1 && LargestValue(Entries(PUT_AND_DELETED)) == 0
  {
    hide Encoded, Puts, PutBytes, LargestKey, LargestValue, EncodeAll, PUT_AND_DELETED;
    NothingCounted();
    PutAndDeletedGroups();
    var es := Entries(PUT_AND_DELETED);
    ShortEntries();
    CountsAfter([], es[0]);
    assert [] + [es[0]] == es[..1];
    CountsAfter(es[..1], es[1]);
    assert es[..1] + [es[1]] == es[..2];
    CountsAfter(es[..2], es[2]);
    assert es[..2] + [es[2]] == es[..3];
    CountsAfter(es[..3], es[3]);
    assert es[..3] + [es[3]] == es;
  }

  lemma ShortEntries()
    ensures forall b: byte :: |Encoded(LogFormat.Put([b], []))| == 3 && |Encoded(LogFormat.Delete([b]))| == 3
  {
    assert |Encode(2)| == 1 && |Encode(0)| == 1 && |Encode(1)| == 1;
  }

  /** When the second key is put there is one live key already. */
  lemma SecondPut()
    ensures var gs, p := PUT_AND_DELETED, Place(1, 0);
            && NoEmptyGroups(gs) && InLog(gs, p) && EntryAt(gs, p) == LogFormat.Put([2], [])
            && LiveAt(gs, p) == map[[1] := FIRST]
  {
    hide Encoded;
    PutAndDeletedGroups();
    LiveAfter(PUT_AND_DELETED, FIRST);
  }

  lemma NoRoomForSecond()
    ensures NoEmptyGroups(PUT_AND_DELETED) && OnPath(PUT_AND_DELETED, FIRST) && !Room(PUT_AND_DELETED, FIRST, 1)
  {
    hide Encoded, LiveAt, PUT_AND_DELETED;
    SecondPut();
    NothingLive(PUT_AND_DELETED);
    assert InLog(PUT_AND_DELETED, Place(1, 0)) && Precedes(FIRST, Place(1, 0));
    assert |LiveAt(PUT_AND_DELETED, Place(1, 0))| == 1;
  }

  /** A table with one slot that is due the second put never gets past it. */
  lemma SecondPutHangs(t: HashTable, n: nat)
    requires NoEmptyGroups(PUT_AND_DELETED) && InLog(PUT_AND_DELETED, Place(1, 0))
    requires IndexAt(t, Plain, PUT_AND_DELETED, Place(1, 0)) && t.Capacity() == 1
    ensures |t.cells| > 0
    ensures StepsPut(StartPut(t.cells, CellOf(t.hash, Plain, PUT_AND_DELETED, Place(1, 0))), n).Running?
  {
    hide StepsPut, StartPut, IndexAt, PUT_AND_DELETED, LiveAt, CellOf, Encoded;
    SecondPut();
    assert |LiveAt(PUT_AND_DELETED, Place(1, 0))| == 1;
    ReplayEndsIff(t, Plain, PUT_AND_DELETED, Place(1, 0));
  }

  function PutAndDeletedLog(): Log {
    Log(Plain, seq(LOG_HEADER_SIZE, _ => 0) + Image(Plain, PUT_AND_DELETED), 0)
  }

  function PutAndDeletedHeader(fileIdentifier: nat): LogHeader {
    LogHeader(fileIdentifier, 2, 2, |PutAndDeletedLog().data|, 1, 0, 6, 0, 0, 6, 0)
  }

  lemma PutAndDeletedDescribed(id: nat)
    ensures Describes(PutAndDeletedHeader(id), PutAndDeletedLog(), PUT_AND_DELETED)
    ensures Addressable(PutAndDeletedHeader(id), Plain, PUT_AND_DELETED)
  {
    hide Encoded, EncodeAll, Image, IsGroup, Puts, PutBytes, LargestKey, LargestValue;
    PutAndDeletedGroups();
    PutAndDeletedCounts();
    PlainImage(Plain, PUT_AND_DELETED);
    assert PutAndDeletedLog().data[LOG_HEADER_SIZE..] == Image(Plain, PUT_AND_DELETED);
    PosBounds(PutAndDeletedLog(), PUT_AND_DELETED, 3);
    Wide(0);
  }

  lemma OneSlotOnly(t: HashTable, h: LogHeader)
    requires t.numEntries == 0 && t.numPuts == h.numPuts && Usable(t, h) && t.slots.hashSize == 4
    ensures CapacityFor(t, h) == 1 && Resized(t, 8, h)
  {
  }

  /** The first entry of this log is replayed into a table with one slot: then the second put is due. */
  method ReachSecondPut(hashes: Hashes, seed: nat) returns (t: HashTable)
    requires HashesFit(hashes)
    ensures NoEmptyGroups(PUT_AND_DELETED) && InLog(PUT_AND_DELETED, Place(1, 0)) && t.Capacity() == 1
    ensures IndexAt(t, Plain, PUT_AND_DELETED, Place(1, 0)) && t.hash == hashes(8, seed)
  {
    hide Encoded, PUT_AND_DELETED, PutAndDeletedHeader, PutAndDeletedLog, Describes, Addressable, IndexAt, LiveAt,
         AllStorable, Address, Pack, SizedFor, LogIter.Consistent, LogIter.AtEntry, HashTable.Storable, SlotOf,
         LogIter.KeyRest, HashTable.Valid, Holds;
    var log, h := PutAndDeletedLog(), PutAndDeletedHeader(0);
    ghost var gs := PUT_AND_DELETED;
    PutAndDeletedDescribed(0);
    HeaderOfExample(0);
    LogDescribed(h, log, gs);
    SecondPut();
    FirstPut();
    t := NewTable(log, h, 1, 8, 0, seed, hashes(8, seed), gs);
    var iter := new LogIter(log, gs);
    var raIter := new LogIter(log, gs);
    EmptyIsIndex(t, Plain, gs);
    iter.Next();
    CleanEntry(iter);
    StorableHere(t, Plain, gs, FIRST);
    AddressHere(t, Plain, gs, FIRST);
    CellOfKey(t.hash, Plain, gs, FIRST);
    var address := Address(iter.blockPosition, iter.entryCount, t.entryBlockBits);
    var keyHash := IterHash(t.hash, iter);
    SlotOfCell(t, Plain, gs, FIRST);
    ReplayPut(t, iter, raIter, keyHash, address, gs, FIRST);
  }

  lemma FirstPut()
    ensures var gs := PUT_AND_DELETED;
            && InLog(gs, FIRST) && EntryAt(gs, FIRST) == LogFormat.Put([1], []) && After(gs, FIRST) == Place(1, 0)
  {
    hide Encoded;
  }

  lemma EmptyIsIndex(t: HashTable, c: Compression, gs: seq<Group>)
    requires NoEmptyGroups(gs) && t.Valid() && t.numEntries == 0 && t.cells == seq(t.Capacity(), _ => Free)
    ensures OnPath(gs, FIRST) && IndexAt(t, c, gs, FIRST) && |LiveAt(gs, FIRST)| == 0
  {
    hide HashTable.Valid, Holds;
    NothingLive(gs);
    NothingHeld(t.Capacity(), t.hash, c, gs);
  }

  lemma SlotOfCell(t: HashTable, c: Compression, gs: seq<Group>, p: Place)
    requires InLog(gs, p)
    ensures SlotOf(CellOf(t.hash, c, gs, p), t.entryBlockBits)
         == Slot(t.hash(EntryAt(gs, p).key), Pack(Pos(c, gs, p.group), p.index, t.entryBlockBits))
  {
    hide Pack, Pos;
  }

  /** For this log the claim that a put always finds a free slot fails when the hash size is changed:
      with an index of the whole log at hand, a table of only one slot is made for it, and the replay into it
      never ends. */
  method HashSizeChangeHangs(fileIdentifier: nat, hashes: Hashes) returns (log: Log, h: LogHeader, t: HashTable)
    requires HashesFit(hashes)
    ensures Describes(h, log, PUT_AND_DELETED) && Addressable(h, log.compression, PUT_AND_DELETED)
    ensures GoodOld(t, h, hashes, log.compression, PUT_AND_DELETED, PUT_AND_DELETED)
    ensures Usable(t, h) && Resized(t, 8, h) && CapacityFor(t, h) == 1
    ensures OnPath(PUT_AND_DELETED, FIRST) && !Room(PUT_AND_DELETED, FIRST, CapacityFor(t, h))
    ensures forall n: nat ::
      !StepsRun(Source(hashes(8, t.hashSeed), log.compression, PUT_AND_DELETED), StartRun(CapacityFor(t, h)), n).Complete?
  {
    hide Describes, IsIndex, Room, PUT_AND_DELETED, PutAndDeletedHeader, PutAndDeletedLog, CapacityFor, Resized,
         Addressable, NoEmptyGroups, StepsRun, LiveAt;
    log, h := PutAndDeletedLog(), PutAndDeletedHeader(fileIdentifier);
    PutAndDeletedDescribed(fileIdentifier);
    HeaderOfExample(fileIdentifier);
    NoRoomForSecond();
    FreshIsGood(h, log, hashes);
    var rc, t' := HashWrite(log, h, null, 4, 0, hashes, PUT_AND_DELETED, []);
    t := t';
    NothingLeft(t);
    OneSlotOnly(t, h);
    ReplayEndsIffRoom(Source(hashes(8, t.hashSeed), log.compression, PUT_AND_DELETED), 1);
  }

  lemma HeaderOfExample(id: nat)
    ensures PutAndDeletedHeader(id).numPuts == 2 && PutAndDeletedLog().compression == Plain
  {
  }

  lemma FreshIsGood(h: LogHeader, log: Log, hashes: Hashes)
    requires Describes(h, log, PUT_AND_DELETED)
    ensures GoodOld(null, h, hashes, log.compression, PUT_AND_DELETED, []) && !Resized(null, 4, h)
    ensures HashSizeFor(4, null, h, CapacityFor(null, h)) == 4
  {
    hide PUT_AND_DELETED;
    LogDescribed(h, log, PUT_AND_DELETED);
  }

  lemma Deletes()
    ensures var gs := PUT_AND_DELETED;
            && NoEmptyGroups(gs) && InLog(gs, Place(2, 0)) && InLog(gs, Place(3, 0)) && End(gs) == Place(4, 0)
            && EntryAt(gs, Place(2, 0)) == LogFormat.Delete([1]) && EntryAt(gs, Place(3, 0)) == LogFormat.Delete([2])
            && After(gs, Place(1, 0)) == Place(2, 0) && After(gs, Place(2, 0)) == Place(3, 0)
            && After(gs, Place(3, 0)) == Place(4, 0)
  {
    hide Encoded, LiveAt, Entries;
    PutAndDeletedGroups();
  }

  lemma BothDeleted()
    ensures NoEmptyGroups(PUT_AND_DELETED) && LiveAt(PUT_AND_DELETED, End(PUT_AND_DELETED)) == map[]
  {
    hide PUT_AND_DELETED, LiveAt;
    SecondPut();
    Deletes();
    LiveAfter(PUT_AND_DELETED, Place(1, 0));
    LiveAfter(PUT_AND_DELETED, Place(2, 0));
    LiveAfter(PUT_AND_DELETED, Place(3, 0));
    var m: map<Bytes, Place> := map[[1] := FIRST][[2] := Place(1, 0)];
    assert m - {[1]} - {[2]} == map[];
  }

  lemma NothingLeft(t: HashTable)
    requires IsIndex(t, Plain, PUT_AND_DELETED)
    ensures t.numEntries == 0 && t.numPuts == 2
  {
    hide PUT_AND_DELETED, LiveAt, HashTable.Valid, Holds, IsMaxDisp, Puts, Entries, AllStorable;
    PutAndDeletedCounts();
    BothDeleted();
  }
}
