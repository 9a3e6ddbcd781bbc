/** Building the index. */
module HashWriter {
  import opened Vlq
  import opened LogFormat
  import opened LogReader
  import opened KeyCompare
  import opened Liveness
  import opened SlotArrays
  import opened HashTables
  import opened Index

  /** Every put of the log can be stored in the table. */
  ghost predicate AllStorable(t: HashTable, c: Compression, gs: seq<Group>) {
    forall p :: InLog(gs, p) && EntryAt(gs, p).Put? ==> t.Storable(CellOf(t.hash, c, gs, p))
  }

  /** From place p on, a put of a key that is not live always finds a free slot. */
  ghost predicate Room(gs: seq<Group>, p: Place, capacity: nat)
    requires NoEmptyGroups(gs) && OnPath(gs, p)
  {
    forall q {:trigger InLog(gs, q)} :: InLog(gs, q) && (q == p || Precedes(p, q))
      && EntryAt(gs, q).Put? && EntryAt(gs, q).key !in LiveAt(gs, q)
      ==> |LiveAt(gs, q)| < capacity
  }

  /** With as many slots as live entries so far and puts to come there is always room. */
  lemma EnoughRoom(gs: seq<Group>, p: Place, capacity: nat)
    requires NoEmptyGroups(gs) && OnPath(gs, p)
    requires |LiveAt(gs, p)| + Puts(Entries(gs)) - Puts(EntriesBefore(gs, p)) <= capacity
    ensures Room(gs, p, capacity)
  {
    forall q | InLog(gs, q) && (q == p || Precedes(p, q)) && EntryAt(gs, q).Put? ensures |LiveAt(gs, q)| < capacity {
      LiveCount(gs, p, q);
      LiveAfter(gs, q);
      PutsAppend(EntriesBefore(gs, q), EntryAt(gs, q));
      AfterIsNext(gs, q);
      LiveCount(gs, After(gs, q), End(gs));
      EntriesBeforeEnd(gs);
    }
  }

  /** The table is the index of the entries before p. */
  ghost predicate IndexAt(t: HashTable, c: Compression, gs: seq<Group>, p: Place)
    reads t`cells, t`numEntries, t.slots, t.slots.bytes
    requires NoEmptyGroups(gs) && OnPath(gs, p)
  {
    && t.Valid() && Holds(t.cells, LiveAt(gs, p), t.hash, c, gs)
    && t.numEntries == |LiveAt(gs, p)|
  }

  /** The encoded size of the put of this key that is live before p. */
  function SizeOfLive(gs: seq<Group>, m: map<Bytes, Place>, key: Bytes): nat {
    if key in m && InLog(gs, m[key]) then |Encoded(EntryAt(gs, m[key]))| else 0
  }

  method ReplayPut(t: HashTable, iter: LogIter, raIter: LogIter, keyHash: nat, address: nat,
                   ghost gs: seq<Group>, ghost p: Place)
    requires Companions(iter, raIter) && gs == iter.gs && p == iter.Here()
    requires NoEmptyGroups(gs) && InLog(gs, p) && EntryAt(gs, p).Put? && IndexAt(t, iter.log.compression, gs, p)
    requires var x := CellOf(t.hash, iter.log.compression, gs, p);
      t.Storable(x) && x.hash == keyHash && SlotOf(x, t.entryBlockBits) == Slot(keyHash, address)
    requires EntryAt(gs, p).key !in LiveAt(gs, p) ==> |LiveAt(gs, p)| < t.Capacity()
    modifies t`cells, t`numEntries, t`garbageSize, t.slots`slots, t.slots.bytes, iter, raIter
    ensures Companions(iter, raIter) && iter.Here() == p
    ensures OnPath(gs, After(gs, p)) && IndexAt(t, iter.log.compression, gs, After(gs, p))
    ensures t.garbageSize == old(t.garbageSize) + SizeOfLive(gs, LiveAt(gs, p), EntryAt(gs, p).key)
  {
    hide LogIter.Consistent, LogIter.AtEntry, Encoded, LiveAt, Holds, HashTable.Stored, RobinHood.Valid, SlotOf,
         AllRefer, CellOf;
    ghost var c, e, m := iter.log.compression, EntryAt(gs, p), LiveAt(gs, p);
    ghost var cell := CellOf(t.hash, c, gs, p);
    CellOfKey(t.hash, c, gs, p);
    HoldsKey(t.cells, m, t.hash, c, gs, e.key);
    HoldsRefer(t.cells, m, t.hash, c, gs);
    HasFree(t, e.key);
    LiveAfter(gs, p);
    StepCount(m, e, p);
    ghost var before := t.cells;
    ghost var at := t.HashPut(keyHash % t.Capacity(), keyHash, iter, raIter, address, cell);
    if e.key in m {
      HoldsPlace(before, m, t.hash, c, gs, at);
      HoldsReplaced(before, at, m, t.hash, c, gs, p);
    } else {
      HoldsInserted(before, t.cells, m, t.hash, c, gs, p);
    }
  }

  lemma CellOfKey(hash: Bytes -> nat, c: Compression, gs: seq<Group>, p: Place)
    requires InLog(gs, p)
    ensures var x := CellOf(hash, c, gs, p); x.Used? && x.key == EntryAt(gs, p).key && x.hash == hash(x.key) && x.place == p
  {
  }

  lemma HoldsPlace(cells: seq<Cell>, m: map<Bytes, Place>, hash: Bytes -> nat, c: Compression, gs: seq<Group>, at: nat)
    requires Holds(cells, m, hash, c, gs) && at < |cells| && cells[at].Used?
    ensures cells[at].key in m && cells[at].place == m[cells[at].key]
  {
    HoldsCell(cells, m, hash, c, gs, at);
  }

  lemma HasFree(t: HashTable, key: Bytes)
    requires t.Valid() && (HasKey(t.cells, key) || t.numEntries < t.Capacity())
    ensures HasRoom(t.cells, key) && 0 < t.Capacity()
  {
    if !HasKey(t.cells, key) {
      assert multiset(t.cells)[Free] > 0;
      assert Free in multiset(t.cells);
    }
  }

  method ReplayDelete(t: HashTable, iter: LogIter, raIter: LogIter, keyHash: nat, ghost gs: seq<Group>, ghost p: Place)
    requires Companions(iter, raIter) && gs == iter.gs && p == iter.Here()
    requires NoEmptyGroups(gs) && InLog(gs, p) && EntryAt(gs, p).Delete? && IndexAt(t, iter.log.compression, gs, p)
    requires keyHash == t.hash(EntryAt(gs, p).key)
    modifies t`cells, t`numEntries, t`garbageSize, t.slots`slots, t.slots.bytes, iter, raIter
    ensures Companions(iter, raIter) && iter.Here() == p
    ensures OnPath(gs, After(gs, p)) && IndexAt(t, iter.log.compression, gs, After(gs, p))
    ensures t.garbageSize == old(t.garbageSize) + SizeOfLive(gs, LiveAt(gs, p), EntryAt(gs, p).key)
  {
    hide LogIter.Consistent, LogIter.AtEntry, Encoded, LiveAt, Holds, HashTable.Stored, RobinHood.Valid, AllRefer;
    ghost var c, e, m := iter.log.compression, EntryAt(gs, p), LiveAt(gs, p);
    HoldsKey(t.cells, m, t.hash, c, gs, e.key);
    HoldsRefer(t.cells, m, t.hash, c, gs);
    t.CapacityFacts();
    LiveAfter(gs, p);
    StepCount(m, e, p);
    ghost var before := t.cells;
    ghost var at := t.HashDelete(keyHash % t.Capacity(), keyHash, iter, raIter);
    if e.key in m {
      HoldsPlace(before, m, t.hash, c, gs, at);
      HoldsRemoved(before, t.cells, at, m, t.hash, c, gs, e.key);
    } else {
      assert m - {e.key} == m;
    }
  }

  /** A current entry of which nothing has been consumed. */
  lemma CleanEntry(iter: LogIter)
    requires iter.Valid() && iter.state == Active && iter.Clean()
    ensures iter.KeyRest() == iter.Entry().key && iter.keyRemaining == iter.keylen
  {
  }

  lemma EntryKind(iter: LogIter)
    requires iter.Valid() && iter.state == Active
    ensures iter.entryType == PutEntry <==> iter.Entry().Put?
    ensures iter.Entry().Delete? ==> |Encoded(iter.Entry())| == 1 + Vlq.Size(iter.keylen) + iter.keylen
  {
    EntryFits(iter.log, iter.gs, iter.g, iter.i);
    SizeIsLength(0);
    SizeIsLength(iter.keylen);
  }

  /** One entry of the log is replayed. */
  method ReplayEntry(t: HashTable, iter: LogIter, raIter: LogIter, ghost gs: seq<Group>, ghost p: Place)
    requires Companions(iter, raIter) && gs == iter.gs && p == iter.Here() && iter.Clean() && iter.entryCount == p.index
    requires NoEmptyGroups(gs) && InLog(gs, p) && IndexAt(t, iter.log.compression, gs, p)
    requires iter.blockPosition == Pos(iter.log.compression, gs, p.group)
    requires AllStorable(t, iter.log.compression, gs) && Room(gs, p, t.Capacity())
    modifies t`cells, t`numEntries, t`garbageSize, t.slots`slots, t.slots.bytes, iter, raIter
    ensures Companions(iter, raIter) && iter.Here() == p
    ensures OnPath(gs, After(gs, p)) && IndexAt(t, iter.log.compression, gs, After(gs, p))
    ensures t.garbageSize + LiveSize(gs, After(gs, p)) == old(t.garbageSize) + LiveSize(gs, p) + |Encoded(EntryAt(gs, p))|
  {
    hide LogIter.Consistent, LogIter.AtEntry, Encoded, LiveAt, Holds, HashTable.Stored, RobinHood.Valid,
         HashTable.Storable, SizeIn, Pack, Address, HashTable.Valid, LogIter.KeyRest, AllStorable;
    CleanEntry(iter);
    LiveSizeAfter(gs, p);
    AfterIsNext(gs, p);
    var address := Address(iter.blockPosition, iter.entryCount, t.entryBlockBits);
    var keyHash := IterHash(t.hash, iter);
    EntryKind(iter);
    if iter.entryType == PutEntry {
      StorableHere(t, iter.log.compression, gs, p);
      AddressHere(t, iter.log.compression, gs, p);
      ReplayPut(t, iter, raIter, keyHash, address, gs, p);
    } else {
      t.garbageSize := t.garbageSize + (1 + Vlq.Size(iter.keylen) + iter.keylen);
      ReplayDelete(t, iter, raIter, keyHash, gs, p);
    }
  }

  lemma StorableHere(t: HashTable, c: Compression, gs: seq<Group>, p: Place)
    requires AllStorable(t, c, gs) && InLog(gs, p) && EntryAt(gs, p).Put?
    ensures t.Storable(CellOf(t.hash, c, gs, p))
  {
  }

  lemma AddressHere(t: HashTable, c: Compression, gs: seq<Group>, p: Place)
    requires InLog(gs, p) && t.Storable(CellOf(t.hash, c, gs, p))
    ensures Address(Pos(c, gs, p.group), p.index, t.entryBlockBits) == Pack(Pos(c, gs, p.group), p.index, t.entryBlockBits)
  {
    AddressIsPack(Pos(c, gs, p.group), p.index, t.entryBlockBits);
  }

  lemma RoomLater(gs: seq<Group>, p: Place, capacity: nat)
    requires NoEmptyGroups(gs) && InLog(gs, p) && Room(gs, p, capacity)
    ensures OnPath(gs, After(gs, p)) && Room(gs, After(gs, p), capacity)
  {
    AfterIsNext(gs, p);
  }

  /** Replays the log from place p0 on. */
  method Replay(t: HashTable, iter: LogIter, raIter: LogIter, ghost gs: seq<Group>, ghost p0: Place)
    requires iter != raIter && iter.log == raIter.log && gs == iter.gs == raIter.gs
    requires iter.Valid() && iter.state != Invalid && iter.Upcoming() == p0 && raIter.Consistent()
    requires NoEmptyGroups(gs) && OnPath(gs, p0) && IndexAt(t, iter.log.compression, gs, p0)
    requires AllStorable(t, iter.log.compression, gs) && Room(gs, p0, t.Capacity())
    modifies t`cells, t`numEntries, t`garbageSize, t.slots`slots, t.slots.bytes, iter, raIter
    ensures IndexAt(t, iter.log.compression, gs, End(gs))
    ensures t.garbageSize + LiveSize(gs, End(gs)) + |EncodeAll(EntriesBefore(gs, p0))|
         == old(t.garbageSize) + LiveSize(gs, p0) + |EncodeAll(Entries(gs))|
  {
    hide LogIter.Consistent, LogIter.AtEntry, LogIter.Loaded, Encoded, EncodeAll, LiveAt, EntriesBefore, Holds,
         HashTable.Stored, RobinHood.Valid, HashTable.Storable, SizeIn, Pack, AllStorable, Room, IndexAt;
    ghost var c, p := iter.log.compression, p0;
    while true
      invariant iter.Valid() && iter.state != Invalid && iter.Upcoming() == p && raIter.Consistent()
      invariant OnPath(gs, p) && IndexAt(t, c, gs, p) && Room(gs, p, t.Capacity())
      invariant t.garbageSize + LiveSize(gs, p) + |EncodeAll(EntriesBefore(gs, p0))|
             == old(t.garbageSize) + LiveSize(gs, p0) + |EncodeAll(EntriesBefore(gs, p))|
      decreases |gs| - p.group, if p.group < |gs| then |gs[p.group].entries| - p.index else 0
    {
      iter.Next();
      if iter.state == Closed {
        EntriesBeforeEnd(gs);
        return;
      }
      LiveAfter(gs, p);
      RoomLater(gs, p, t.Capacity());
      SizeOfOneMore(EntriesBefore(gs, p), EntryAt(gs, p));
      ReplayEntry(t, iter, raIter, gs, p);
      p := After(gs, p);
    }
  }

  lemma SizeOfOneMore(es: seq<Entry>, e: Entry)
    ensures |EncodeAll(es + [e])| == |EncodeAll(es)| + |Encoded(e)|
  {
    EncodeAllAppend(es, [e]);
    EncodeOne(e);
  }
}
