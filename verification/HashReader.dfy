/** Looking keys up in an index, and iterating over the live entries of a log. */
module HashReader {
  import opened LittleEndian
  import opened LogFormat
  import opened LogReader
  import opened KeyCompare
  import opened Liveness
  import opened RobinHood
  import opened SlotArrays
  import opened HashTables
  import opened Index
  import opened Sizing
  import opened HashWriter
  import opened HashBuilder

  /** The index is one of the first entries of the iterator's log, those that were there when it was
      written; entries may have been appended since. */
  ghost predicate Serves(t: HashTable, iter: LogIter, indexed: seq<Group>)
    reads t, t.slots, t.slots.bytes
  {
    IsIndex(t, iter.log.compression, indexed) && indexed <= iter.gs
  }

  /** The live puts of the indexed part of the log. */
  ghost function LiveIn(indexed: seq<Group>): map<Bytes, Place>
    requires NoEmptyGroups(indexed)
  {
    LiveAt(indexed, End(indexed))
  }

  /** What an index knows, in terms of the whole log. */
  lemma ServesFacts(t: HashTable, iter: LogIter, indexed: seq<Group>)
    requires Serves(t, iter, indexed)
    ensures t.Valid() && NoEmptyGroups(indexed)
    ensures Holds(t.cells, LiveIn(indexed), t.hash, iter.log.compression, iter.gs)
    ensures AllRefer(t.cells, iter.log.compression, iter.gs)
    ensures 0 < |t.cells| == t.Capacity()
  {
    HoldsLater(t.cells, LiveIn(indexed), t.hash, iter.log.compression, indexed, iter.gs);
    HoldsRefer(t.cells, LiveIn(indexed), t.hash, iter.log.compression, iter.gs);
  }

  // ---- Get ----

  /** Compares the key of a fresh current entry with an equally long one, chunk by chunk. */
  method KeyEquals(iter: LogIter, key: Bytes) returns (equals: bool)
    requires iter.Valid() && iter.state == Active && iter.Clean() && |key| == iter.keylen
    modifies iter
    ensures iter.Valid() && iter.state == Active && iter.Here() == old(iter.Here())
    ensures equals <==> key == old(iter.Entry().key)
    ensures equals ==> iter.keyRemaining == 0
    ensures key != [] ==> iter.keyRemaining < |key|
    ensures iter.valueRemaining == old(iter.valueRemaining)
  {
    hide LogIter.Valid, LogIter.Consistent, LogIter.AtEntry, LogIter.KeyRest, LogIter.Here, LogIter.Entry;
    CleanEntry(iter);
    ghost var all := iter.Entry().key;
    var pos2: nat := 0;
    assert key[..0] + all == all;
    while pos2 < |key|
      invariant iter.Valid() && iter.state == Active && iter.Here() == old(iter.Here())
      invariant iter.valueRemaining == old(iter.valueRemaining) && iter.keylen == |key|
      invariant pos2 + iter.keyRemaining == |key|
      invariant key[..pos2] + iter.KeyRest() == all
      decreases |key| - pos2
    {
      var len, same := ChunkEquals(iter, key, pos2, all);
      if !same {
        return false;
      }
      pos2 := pos2 + len;
    }
    assert key[..pos2] == key;
    return true;
  }

  /** The next chunk of the current key against the bytes of another one. */
  method ChunkEquals(iter: LogIter, key: Bytes, pos2: nat, ghost all: Bytes) returns (len: nat, same: bool)
    requires iter.Valid() && iter.state == Active && pos2 < |key|
    requires pos2 + iter.keyRemaining == |key| && key[..pos2] + iter.KeyRest() == all
    modifies iter
    ensures iter.Valid() && iter.state == Active && iter.Here() == old(iter.Here())
    ensures iter.valueRemaining == old(iter.valueRemaining) && iter.keylen == old(iter.keylen)
    ensures 0 < len && pos2 + len + iter.keyRemaining == |key|
    ensures if same then key[..pos2 + len] + iter.KeyRest() == all else key != all
  {
    hide LogIter.Valid, LogIter.Consistent, LogIter.AtEntry, LogIter.KeyRest, LogIter.Here;
    var rc, buf2 := iter.KeyChunk(|key|);
    ChunkDiffers(key, pos2, buf2, iter.KeyRest());
    len, same := |buf2|, key[pos2..pos2 + |buf2|] == buf2;
  }

  lemma ChunkDiffers(key: Bytes, pos: nat, chunk: Bytes, rest: Bytes)
    requires pos + |chunk| <= |key|
    ensures key[pos..pos + |chunk|] != chunk ==> key[..pos] + (chunk + rest) != key
    ensures key[pos..pos + |chunk|] == chunk ==> key[..pos] + (chunk + rest) == key[..pos + |chunk|] + rest
  {
    var all := key[..pos] + (chunk + rest);
    assert all[pos..pos + |chunk|] == chunk;
  }

  /** Is the put at this address a put of the key?  Then the iterator stands on it, the key consumed. */
  method EntryHasKey(position: nat, index: nat, key: Bytes, iter: LogIter, ghost x: Cell)
    returns (same: bool)
    requires iter.Consistent()
    requires x.Used? && RefersTo(x, iter.log.compression, iter.gs) && position == x.position && index == x.place.index
    modifies iter
    ensures iter.Valid() && iter.state == Active && (same <==> x.key == key)
    ensures iter.Here() == x.place && (same ==> iter.keyRemaining == 0 && iter.valueRemaining == iter.valuelen)
  {
    hide LogIter.Loaded, IsLog, Pos;
    iter.Seek(position, x.place.group);
    ForwardInGroup(iter.gs, Place(x.place.group, 0), index);
    iter.SkipEntries(index);
    iter.Next();
    assert iter.Entry() == EntryAt(iter.gs, x.place);
    if iter.entryType != PutEntry {
      // the source reports an internal error here
      assert false;
    }
    same := false;
    if iter.keylen == |key| {
      same := KeyEquals(iter, key);
    }
  }

  /** One probe of a lookup. */
  method GetProbe(t: HashTable, pos: nat, slot: nat, displacement: nat, hash0: nat, key: Bytes, iter: LogIter)
    returns (outcome: Outcome, ghost read: bool)
    requires t.Stored() && iter.Consistent() && AllRefer(t.cells, iter.log.compression, iter.gs)
    requires hash0 == t.hash(key) && slot < |t.cells| && pos == SlotPos(slot, t.slots.SlotSize())
    modifies iter
    ensures iter.Consistent()
    ensures if read then iter.Valid() && iter.state == Active else unchanged(iter)
    ensures outcome == Match ==>
      && IsKey(t.cells[slot], key) && iter.Valid() && iter.state == Active && iter.Here() == t.cells[slot].place
      && iter.keyRemaining == 0 && iter.valueRemaining == iter.valuelen
    ensures outcome == Stop ==> (t.cells[slot].Used? ==> displacement > DispOf(t.cells, slot))
    ensures outcome == Continue ==>
      t.cells[slot].Used? && !IsKey(t.cells[slot], key) && displacement <= DispOf(t.cells, slot)
  {
    hide Pow256, Pow2, Pack, LogIter.Consistent, LogIter.AtEntry, SlotPos, GetDisplacement, HashTable.Stored;
    read := false;
    var hash2, position2 := t.ReadCell(pos, slot);
    if position2 == 0 {
      return Stop, false;
    }
    if hash0 == hash2 {
      var entryIndex2, position3 := t.Unpack(position2, t.cells[slot]);
      var same := EntryHasKey(position3, entryIndex2, key, iter, t.cells[slot]);
      read := true;
      if same {
        return Match, true;
      }
    }
    DisplacementIsDist(t.Capacity(), slot, hash2);
    outcome := if displacement > GetDisplacement(t.Capacity(), slot, hash2) then Stop else Continue;
  }

  lemma LargestHere(t: HashTable, c: Compression, indexed: seq<Group>, slot: nat)
    requires IsIndex(t, c, indexed) && slot < |t.cells| && t.cells[slot].Used?
    ensures DispOf(t.cells, slot) <= t.maxDisplacement
  {
    hide HashTable.Valid, Holds, LiveAt;
    assert Taken(Wants(t.cells), slot);
  }

  /** Looks up a key.  The iterator ends on the live put of the key, ready for its value to be read, or
      is invalid.  The recorded largest displacement bounds the number of probes. */
  method Get(t: HashTable, key: Bytes, iter: LogIter, ghost indexed: seq<Group>)
    returns (ghost probes: nat, ghost read: bool)
    requires iter.Consistent() && Serves(t, iter, indexed)
    modifies iter
    ensures iter.Valid() && probes <= t.maxDisplacement + 2 && probes <= t.Capacity() + 1
    ensures key in LiveIn(indexed) ==>
      && iter.state == Active && iter.Here() == LiveIn(indexed)[key]
      && iter.keyRemaining == 0 && iter.valueRemaining == iter.valuelen
    ensures key !in LiveIn(indexed) ==> iter.state == Invalid
    ensures key !in LiveIn(indexed) ==> if read then iter.AtEntry() else
      unchanged(iter`blockPosition, iter`nextBlockPosition, iter`blockOffset, iter`blockLen, iter`buf, iter`entryCount)
      && unchanged(iter`g, iter`j, iter`i, iter`keyRemaining, iter`valueRemaining)
  {
    hide Probed, LogIter.Consistent, LogIter.AtEntry, SlotPos, HashTable.Stored, AllRefer, Reached, Holds, IsIndex,
         LiveAt;
    ghost var c := |t.cells|;
    ServesFacts(t, iter, indexed);
    HoldsKey(t.cells, LiveIn(indexed), t.hash, iter.log.compression, iter.gs, key);
    var hash0 := t.hash(key);
    var wantedSlot := hash0 % t.Capacity();
    SlotPosIsProduct(wantedSlot, t.slots.SlotSize());
    t.StartProbing(wantedSlot, key);
    read := false;
    var pos: nat, displacement: nat, slot: nat := wantedSlot * t.slots.SlotSize(), 0, wantedSlot;
    while true
      invariant slot < c == t.Capacity() && displacement <= c && pos == SlotPos(slot, t.slots.SlotSize())
      invariant Probed(t.cells, key, wantedSlot, displacement, slot) && displacement <= t.maxDisplacement + 1
      invariant iter.Consistent() && if read then iter.Valid() && iter.state == Active else unchanged(iter)
      decreases c - displacement
    {
      probes := displacement + 1;
      ghost var now;
      var outcome;
      outcome, now := GetProbe(t, pos, slot, displacement, hash0, key, iter);
      read := read || now;
      if outcome == Match {
        HoldsPlace(t.cells, LiveIn(indexed), t.hash, iter.log.compression, iter.gs, slot);
        assert IsKey(t.cells[slot], key);
        return;
      }
      if outcome == Stop {
        t.StoppedHere(key, wantedSlot, displacement, slot);
        SetInvalid(iter);
        return;
      }
      LargestHere(t, iter.log.compression, indexed, slot);
      ProbeNext(t.cells, key, wantedSlot, displacement, slot);
      ProbeBounds(t.cells, key, wantedSlot, displacement + 1, Next(c, slot));
      pos, slot := FollowingPos(pos, slot, t.Capacity(), t.slots.SlotSize()), Next(t.Capacity(), slot);
      displacement := displacement + 1;
    }
  }

  method SetInvalid(iter: LogIter)
    requires iter.Consistent()
    modifies iter`state
    ensures iter.Valid() && iter.state == Invalid
    ensures old(iter.Valid() && iter.state == Active) ==> iter.AtEntry()
  {
    hide IsLog;
    iter.state := Invalid;
  }

  // ---- HashNext ----

  /** This put is the live one of its key in the indexed part of the log. */
  ghost predicate IsLive(indexed: seq<Group>, p: Place)
    requires NoEmptyGroups(indexed)
  {
    InLog(indexed, p) && var key := EntryAt(indexed, p).key; key in LiveIn(indexed) && LiveIn(indexed)[key] == p
  }

  /** Probing for a cell: d steps from the slot w it wants have been in vain. */
  ghost predicate Passed(cells: seq<Cell>, x: Cell, w: nat, d: nat, slot: nat) {
    && |cells| > 0 && Reached(Wants(cells), w, d, slot) && x.Used? && x.hash % |cells| == w
    && forall i :: 0 <= i < |cells| && cells[i] == x ==> d <= Dist(|cells|, w, i)
  }

  lemma GiveUpOn(cells: seq<Cell>, x: Cell, w: nat, d: nat, slot: nat)
    requires Passed(cells, x, w, d, slot) && (cells[slot].Used? ==> d > DispOf(cells, slot))
    ensures x !in cells
  {
    GivingUpIsSafe(Wants(cells), w, d, slot);
  }

  lemma PassNext(cells: seq<Cell>, x: Cell, w: nat, d: nat, slot: nat)
    requires Passed(cells, x, w, d, slot) && cells[slot].Used? && cells[slot] != x
    requires d <= DispOf(cells, slot)
    ensures d < |cells| && d + 1 <= |cells| && Next(|cells|, slot) < |cells|
    ensures Passed(cells, x, w, d + 1, Next(|cells|, slot))
  {
    ReachNext(Wants(cells), w, d, slot);
  }

  lemma PassStart(t: HashTable, x: Cell)
    requires t.Valid() && x.Used?
    ensures var w := x.hash % t.Capacity(); w < |t.cells| == t.Capacity() && Passed(t.cells, x, w, 0, w) && t.Stored()
  {
  }

  /** Only cell x has this address. */
  ghost predicate AddressOnlyOf(t: HashTable, address: nat, x: Cell)
    reads t
  {
    forall i {:trigger t.cells[i]} :: 0 <= i < |t.cells| && t.cells[i].Used? ==>
      (SlotOf(t.cells[i], t.entryBlockBits).addr == address <==> t.cells[i] == x)
  }

  /** One probe for an address; keys are not compared. */
  method AddressProbe(t: HashTable, pos: nat, slot: nat, displacement: nat, address: nat, ghost x: Cell)
    returns (outcome: Outcome)
    requires t.Stored() && AddressOnlyOf(t, address, x) && slot < |t.cells| && pos == SlotPos(slot, t.slots.SlotSize())
    ensures outcome == Match ==> x in t.cells
    ensures outcome == Stop ==> (t.cells[slot].Used? ==> displacement > DispOf(t.cells, slot))
    ensures outcome == Continue ==>
      t.cells[slot].Used? && t.cells[slot] != x && displacement <= DispOf(t.cells, slot)
  {
    hide SlotPos, HashTable.Stored, Pack, GetDisplacement, Pow256, Pow2;
    var hash2, position2 := t.ReadCell(pos, slot);
    if position2 == 0 {
      return Stop;
    }
    if address == position2 {
      assert t.cells[slot] == x;
      return Match;
    }
    DisplacementIsDist(t.Capacity(), slot, hash2);
    outcome := if displacement > GetDisplacement(t.Capacity(), slot, hash2) then Stop else Continue;
  }

  /** Is there an entry with this address in the table? */
  method FindAddress(t: HashTable, address: nat, keyHash: nat, ghost x: Cell) returns (found: bool)
    requires t.Valid() && x.Used? && x.hash == keyHash && AddressOnlyOf(t, address, x)
    ensures found <==> x in t.cells
  {
    hide Passed, SlotPos, HashTable.Stored, SlotOf, RobinHood.Valid, AddressOnlyOf;
    t.CapacityFacts();
    PassStart(t, x);
    ghost var c := |t.cells|;
    var wantedSlot := keyHash % t.Capacity();
    SlotPosIsProduct(wantedSlot, t.slots.SlotSize());
    var pos: nat, displacement: nat, slot: nat := wantedSlot * t.slots.SlotSize(), 0, wantedSlot;
    while true
      invariant slot < c == t.Capacity() && displacement <= c && pos == SlotPos(slot, t.slots.SlotSize())
      invariant Passed(t.cells, x, wantedSlot, displacement, slot)
      decreases c - displacement
    {
      var outcome := AddressProbe(t, pos, slot, displacement, address, x);
      if outcome == Match {
        return true;
      }
      if outcome == Stop {
        GiveUpOn(t.cells, x, wantedSlot, displacement, slot);
        return false;
      }
      PassNext(t.cells, x, wantedSlot, displacement, slot);
      pos, slot := FollowingPos(pos, slot, t.Capacity(), t.slots.SlotSize()), Next(t.Capacity(), slot);
      displacement := displacement + 1;
    }
  }

  lemma GroupsApart(c: Compression, gs: seq<Group>, g: nat, h: nat)
    requires AreGroups(c, gs) && g <= |gs| && h <= |gs| && Pos(c, gs, g) == Pos(c, gs, h)
    ensures g == h
  {
    if g < h {
      PosGrows(c, gs, g, h);
    } else {
      PosGrows(c, gs, h, g);
    }
  }

  /** An indexed put has an address of its own. */
  lemma IndexedAddress(t: HashTable, c: Compression, gs: seq<Group>, p: Place, y: Cell)
    requires AreGroups(c, gs) && InLog(gs, p) && p.index < Pow2(t.entryBlockBits)
    requires y.Used? && InLog(gs, y.place) && t.Storable(y) && y == CellOf(t.hash, c, gs, y.place)
    ensures SlotOf(y, t.entryBlockBits).addr == Address(Pos(c, gs, p.group), p.index, t.entryBlockBits)
       <==> y == CellOf(t.hash, c, gs, p)
  {
    hide AreGroups, Pos, Pow2, Pow256, Pack, Address;
    AddressIsPack(Pos(c, gs, p.group), p.index, t.entryBlockBits);
    if SlotOf(y, t.entryBlockBits).addr == Address(Pos(c, gs, p.group), p.index, t.entryBlockBits) {
      PackInjective(y.position, y.place.index, Pos(c, gs, p.group), p.index, t.entryBlockBits);
      GroupsApart(c, gs, y.place.group, p.group);
    }
  }

  /** The address of a put appended later is larger than all indexed ones, whatever its index. */
  lemma AppendedAddress(t: HashTable, c: Compression, gs: seq<Group>, p: Place, y: Cell)
    requires AreGroups(c, gs) && InLog(gs, p)
    requires y.Used? && y.place.group < p.group && t.Storable(y) && y.position == Pos(c, gs, y.place.group)
    ensures SlotOf(y, t.entryBlockBits).addr < Address(Pos(c, gs, p.group), p.index, t.entryBlockBits)
  {
    hide AreGroups, Pos, Pow2, Pow256;
    PosGrows(c, gs, y.place.group, p.group);
    Multiples(y.position, Pos(c, gs, p.group), Pow2(t.entryBlockBits));
  }

  /** A put of the log: its address in the table is its own, and it is there exactly when it is live. */
  lemma AddressOfPut(t: HashTable, iter: LogIter, indexed: seq<Group>, p: Place)
    requires Serves(t, iter, indexed) && IsLog(iter.log, iter.gs) && InLog(iter.gs, p) && EntryAt(iter.gs, p).Put?
    ensures var x := CellOf(t.hash, iter.log.compression, iter.gs, p);
            && AddressOnlyOf(t, Address(x.position, p.index, t.entryBlockBits), x)
            && NoEmptyGroups(indexed) && (x in t.cells <==> IsLive(indexed, p))
  {
    hide IsLog, Pos, Pow2, Pow256, Pack, HashTable.Storable, LiveAt, Address, SlotOf, Holds;
    ServesFacts(t, iter, indexed);
    var c, gs, m := iter.log.compression, iter.gs, LiveIn(indexed);
    var x := CellOf(t.hash, c, gs, p);
    LogGroups(iter.log, gs);
    IndexedLive(indexed);
    forall i {:trigger t.cells[i]} | 0 <= i < |t.cells| && t.cells[i].Used?
      ensures SlotOf(t.cells[i], t.entryBlockBits).addr == Address(x.position, p.index, t.entryBlockBits) <==> t.cells[i] == x
    {
      var y := t.cells[i];
      HoldsCell(t.cells, m, t.hash, c, gs, i);
      CellStorable(t, i);
      if p.group < |indexed| {
        PutIndexFits(t, c, indexed, p);
        IndexedAddress(t, c, gs, p, y);
      } else {
        AppendedAddress(t, c, gs, p, y);
      }
    }
    InTable(t, m, c, gs, indexed, p);
  }

  lemma LogGroups(log: Log, gs: seq<Group>)
    requires IsLog(log, gs)
    ensures AreGroups(log.compression, gs)
  {
  }

  lemma CellStorable(t: HashTable, i: nat)
    requires t.Valid() && i < |t.cells|
    ensures t.Storable(t.cells[i])
  {
  }

  lemma IndexedLive(indexed: seq<Group>)
    requires NoEmptyGroups(indexed)
    ensures forall k {:trigger LiveIn(indexed)[k]} :: k in LiveIn(indexed) ==>
              InLog(indexed, LiveIn(indexed)[k]) && EntryAt(indexed, LiveIn(indexed)[k]).key == k
  {
    LivePlaces(indexed, End(indexed));
  }

  lemma PutIndexFits(t: HashTable, c: Compression, indexed: seq<Group>, p: Place)
    requires AllStorable(t, c, indexed) && InLog(indexed, p) && EntryAt(indexed, p).Put?
    ensures p.index < Pow2(t.entryBlockBits)
  {
    assert t.Storable(CellOf(t.hash, c, indexed, p));
  }

  lemma InTable(t: HashTable, m: map<Bytes, Place>, c: Compression, gs: seq<Group>, indexed: seq<Group>, p: Place)
    requires NoEmptyGroups(indexed) && indexed <= gs && m == LiveIn(indexed) && InLog(gs, p)
    requires Holds(t.cells, m, t.hash, c, gs)
    ensures CellOf(t.hash, c, gs, p) in t.cells <==> IsLive(indexed, p)
  {
    hide LiveIn, Pos;
    var x := CellOf(t.hash, c, gs, p);
    IndexedLive(indexed);
    if x in t.cells {
      var i :| 0 <= i < |t.cells| && t.cells[i] == x;
      HoldsCell(t.cells, m, t.hash, c, gs, i);
    }
    if IsLive(indexed, p) {
      assert multiset(t.cells)[x] == Due(x, m, t.hash, c, gs) == 1;
      assert x in multiset(t.cells);
    }
  }

  /** Is the current entry a live put?  Its key is consumed to find out. */
  method CurrentIsLive(iter: LogIter, t: HashTable, ghost indexed: seq<Group>) returns (live: bool)
    requires iter.Valid() && iter.state == Active && iter.Clean() && iter.entryCount == iter.i
    requires Serves(t, iter, indexed) && NoEmptyGroups(indexed)
    modifies iter
    ensures iter.Valid() && iter.state == Active && iter.Here() == old(iter.Here())
    ensures live <==> IsLive(indexed, iter.Here())
  {
    hide LogIter.Consistent, LogIter.AtEntry, IsIndex, LiveAt, Address, LogIter.KeyRest, IsLive, AddressOnlyOf;
    ghost var p := iter.Here();
    EntryKind(iter);
    CleanEntry(iter);
    CurrentEntry(iter);
    if iter.entryType != PutEntry {
      LiveIsPut(indexed, iter.gs, p);
      return false;
    }
    ghost var x := CellOf(t.hash, iter.log.compression, iter.gs, p);
    CellOfKey(t.hash, iter.log.compression, iter.gs, p);
    ServesFacts(t, iter, indexed);
    AddressOfPut(t, iter, indexed, p);
    var position := Address(iter.entryBlockPosition, iter.entryCount, t.entryBlockBits);
    var keyHash := IterHash(t.hash, iter);
    live := FindAddress(t, position, keyHash, x);
  }

  lemma CurrentEntry(iter: LogIter)
    requires iter.Valid() && iter.state == Active
    ensures InLog(iter.gs, iter.Here()) && IsLog(iter.log, iter.gs) && iter.Entry() == EntryAt(iter.gs, iter.Here())
    ensures iter.entryBlockPosition == Pos(iter.log.compression, iter.gs, iter.Here().group)
  {
  }

  lemma LiveIsPut(indexed: seq<Group>, gs: seq<Group>, p: Place)
    requires NoEmptyGroups(indexed) && indexed <= gs && InLog(gs, p)
    ensures IsLive(indexed, p) ==> EntryAt(gs, p).Put?
  {
    LivePlaces(indexed, End(indexed));
  }

  lemma UpcomingOnPath(iter: LogIter)
    requires iter.Valid()
    ensures OnPath(iter.gs, iter.Upcoming())
  {
    hide IsLog, Pos, BlockPos;
    NonEmpty(iter.log, iter.gs);
  }

  /** No live put of the indexed part comes before p at or after p0. */
  ghost predicate NoneBetween(indexed: seq<Group>, p0: Place, p: Place)
    requires NoEmptyGroups(indexed)
  {
    forall q :: IsLive(indexed, q) && !Precedes(q, p0) ==> !Precedes(q, p)
  }

  lemma NoneYet(indexed: seq<Group>, p0: Place)
    requires NoEmptyGroups(indexed)
    ensures NoneBetween(indexed, p0, p0)
  {
  }

  lemma NoneHere(indexed: seq<Group>, log: Log, gs: seq<Group>, p0: Place, p: Place)
    requires IsLog(log, gs) && NoEmptyGroups(indexed) && indexed <= gs && InLog(gs, p) && !IsLive(indexed, p)
    requires NoneBetween(indexed, p0, p)
    ensures NoneBetween(indexed, p0, After(gs, p)) && OnPath(gs, After(gs, p))
    ensures !Precedes(p, p0) ==> !Precedes(After(gs, p), p0)
  {
    NonEmpty(log, gs);
    AfterIsNext(gs, p);
    forall q | IsLive(indexed, q) && !Precedes(q, p0) ensures !Precedes(q, After(gs, p)) {
      assert OnPath(gs, q);
    }
  }

  /** Moves to the next live entry of the indexed part of the log. */
  method HashNext(iter: LogIter, t: HashTable, ghost indexed: seq<Group>)
    requires iter.Valid() && iter.CanMove()
    requires Serves(t, iter, indexed) && NoEmptyGroups(indexed)
    modifies iter
    ensures iter.Valid() && iter.state in {Active, Closed}
    ensures iter.state == Active ==>
      && iter.Clean() && IsLive(indexed, iter.Here()) && !Precedes(iter.Here(), old(iter.Upcoming()))
      && NoneBetween(indexed, old(iter.Upcoming()), iter.Here())
    ensures iter.state == Closed ==> NoneBetween(indexed, old(iter.Upcoming()), End(iter.gs))
  {
    hide LogIter.Consistent, LogIter.AtEntry, LogIter.Loaded, IsIndex, LiveAt, IsLive, NoneBetween, IsLog,
         LogIter.KeyRest;
    ghost var p0, p := iter.Upcoming(), iter.Upcoming();
    NoneYet(indexed, p0);
    UpcomingOnPath(iter);
    while true
      invariant iter.Valid() && iter.CanMove() && iter.Upcoming() == p && OnPath(iter.gs, p)
      invariant NoneBetween(indexed, p0, p) && !Precedes(p, p0)
      decreases |iter.gs| - p.group, if p.group < |iter.gs| then |iter.gs[p.group].entries| - p.index else 0
    {
      iter.Next();
      if iter.state != Active {
        return;
      }
      CurrentEntry(iter);
      var live := CurrentIsLive(iter, t, indexed);
      if live {
        var rc := iter.Reset();
        return;
      }
      NoneHere(indexed, iter.log, iter.gs, p0, p);
      p := After(iter.gs, p);
    }
  }
}
