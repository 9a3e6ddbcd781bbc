/** Writing the index file: from scratch, or from an older index and the entries appended since. */
module HashBuilder {
  import opened Vlq
  import opened LittleEndian
  import opened LogFormat
  import opened LogHeaders
  import opened LogReader
  import opened LogWriter
  import opened Liveness
  import opened RobinHood
  import opened SlotArrays
  import opened HashTables
  import opened HashStats
  import opened TotalDisplacement
  import opened Index
  import opened Sizing
  import opened HashWriter

  // ---- Copying an old table ----

  /** The used cells are those among the first n of another table. */
  ghost predicate Copied(cells: seq<Cell>, from: seq<Cell>, n: nat)
    requires n <= |from|
  {
    forall x: Cell :: x.Used? ==> multiset(cells)[x] == multiset(from[..n])[x]
  }

  lemma CopiedNext(before: seq<Cell>, after: seq<Cell>, from: seq<Cell>, n: nat)
    requires n < |from| && Copied(before, from, n)
    requires if from[n].Used? then multiset(after) + multiset{Free} == multiset(before) + multiset{from[n]}
             else after == before
    ensures Copied(after, from, n + 1)
  {
    assert from[..n + 1] == from[..n] + [from[n]];
    forall x: Cell | x.Used? ensures multiset(after)[x] == multiset(from[..n + 1])[x] {
      if from[n].Used? {
        assert (multiset(after) + multiset{Free})[x] == (multiset(before) + multiset{from[n]})[x];
      }
      assert multiset(before)[x] == multiset(from[..n])[x];
    }
  }

  /** An entry still to be copied has a key that has not been copied yet. */
  lemma NotCopied(cells: seq<Cell>, from: seq<Cell>, n: nat, m: map<Bytes, Place>, hash: Bytes -> nat,
                  c: Compression, gs: seq<Group>)
    requires n < |from| && Copied(cells, from, n) && from[n].Used? && Holds(from, m, hash, c, gs)
    ensures !HasKey(cells, from[n].key)
  {
    if HasKey(cells, from[n].key) {
      var j :| 0 <= j < |cells| && IsKey(cells[j], from[n].key);
      assert cells[j] in multiset(cells);
      assert cells[j] in from[..n];
      var i :| 0 <= i < n && from[i] == cells[j];
      HoldsCell(from, m, hash, c, gs, i);
      HoldsCell(from, m, hash, c, gs, n);
      assert multiset(from)[from[n]] == Due(from[n], m, hash, c, gs) <= 1;
      Twice(from, i, n);
    }
  }

  lemma Twice<T>(s: seq<T>, i: nat, j: nat)
    requires i < j < |s| && s[i] == s[j]
    ensures multiset(s)[s[j]] >= 2
  {
    WithoutOne(s, j);
    assert Without(s, j)[i] == s[i];
    assert s[i] in multiset(Without(s, j));
  }

  lemma HoldsCopied(cells: seq<Cell>, from: seq<Cell>, m: map<Bytes, Place>, hash: Bytes -> nat,
                    c: Compression, gs: seq<Group>)
    requires Copied(cells, from, |from|) && Holds(from, m, hash, c, gs)
    ensures Holds(cells, m, hash, c, gs)
  {
    assert from[..|from|] == from;
    forall x: Cell | x.Used? ensures multiset(cells)[x] == Due(x, m, hash, c, gs) {
      assert multiset(from)[x] == Due(x, m, hash, c, gs);
    }
  }

  lemma {:induction false} UsedInGrows(cells: seq<Cell>, n: nat, k: nat)
    requires n <= k <= |cells|
    ensures UsedIn(cells, n) <= UsedIn(cells, k)
    decreases k
  {
    if n < k {
      UsedInGrows(cells, n, k - 1);
      UsedInNext(cells, k - 1);
    }
  }

  /** Whether a copied entry still finds a free slot. */
  lemma CopyHasRoom(t: HashTable, from: seq<Cell>, n: nat)
    requires t.Valid() && n < |from| && from[n].Used? && t.numEntries == UsedIn(from, n)
    requires UsedIn(from, |from|) <= t.Capacity()
    ensures Free in t.cells && 0 < t.Capacity()
  {
    UsedInNext(from, n);
    UsedInGrows(from, n + 1, |from|);
    assert multiset(t.cells)[Free] > 0;
    assert Free in multiset(t.cells);
  }

  /** The slot of the old table that is copied: a new address is packed with the new number of bits. */
  method CopySlot(old0: HashTable, t: HashTable, pos: nat, ghost i: nat)
    requires old0.Valid() && t.Valid() && i < |old0.cells| && pos == SlotPos(i, old0.slots.SlotSize())
    requires old0.cells[i].Used? ==>
      Free in t.cells && !HasKey(t.cells, old0.cells[i].key) && t.Storable(old0.cells[i]) && 0 < t.Capacity()
    modifies t`cells, t`numEntries, t.slots`slots, t.slots.bytes
    ensures t.Valid()
    ensures if old0.cells[i].Used?
      then multiset(t.cells) + multiset{Free} == multiset(old(t.cells)) + multiset{old(old0.cells[i])}
           && t.numEntries == old(t.numEntries) + 1
      else t.cells == old(t.cells) && t.numEntries == old(t.numEntries)
  {
    hide SlotPos, HashTable.Stored, RobinHood.Valid, Pow2, Pow256, Pack, Address;
    ghost var x := old0.cells[i];
    var hash, addr := old0.ReadCell(pos, i);
    if addr == 0 {
      assert 0 / Pow2(old0.entryBlockBits) == 0;
      return;
    }
    var entryIndex, position := old0.Unpack(addr, x);
    if position != 0 {
      AddressIsPack(position, entryIndex, t.entryBlockBits);
      t.PutUnseen(hash % t.Capacity(), hash, Address(position, entryIndex, t.entryBlockBits), x);
    }
  }

  method HashCopy(old0: HashTable, t: HashTable, ghost m: map<Bytes, Place>, ghost c: Compression, ghost gs: seq<Group>)
    requires old0.Valid() && t.Valid() && old0 != t && old0.slots != t.slots && old0.slots.bytes != t.slots.bytes
    requires Holds(old0.cells, m, old0.hash, c, gs) && old0.numEntries <= t.Capacity()
    requires forall i :: 0 <= i < |old0.cells| ==> t.Storable(old0.cells[i])
    requires t.numEntries == 0 && t.cells == seq(t.Capacity(), _ => Free)
    modifies t`cells, t`numEntries, t.slots`slots, t.slots.bytes
    ensures old0.Valid() && t.Valid() && Holds(t.cells, m, old0.hash, c, gs) && t.numEntries == old0.numEntries
  {
    hide SlotPos, HashTable.Stored, RobinHood.Valid, Pow2, Pow256, Pack, Copied, Holds, UsedIn, HashTable.Storable;
    ghost var from := old0.cells;
    old0.CapacityFacts();
    UsedInAll(from);
    UsedInNone(from);
    NothingCopied(t.Capacity(), from);
    SlotPosIsProduct(0, old0.slots.SlotSize());
    var i: nat, pos: nat := 0, 0;
    while i < old0.Capacity()
      invariant i <= old0.Capacity() && pos == SlotPos(i, old0.slots.SlotSize())
      invariant old0.Valid() && t.Valid() && old0.cells == from && old0.numEntries == old(old0.numEntries)
      invariant Copied(t.cells, from, i) && t.numEntries == UsedIn(from, i)
    {
      if from[i].Used? {
        NotCopied(t.cells, from, i, m, old0.hash, c, gs);
        CopyHasRoom(t, from, i);
      }
      ghost var before := t.cells;
      CopySlot(old0, t, pos, i);
      CopiedNext(before, t.cells, from, i);
      UsedInNext(from, i);
      SlotsApart(i, i + 1, old0.slots.SlotSize());
      i, pos := i + 1, pos + old0.slots.SlotSize();
    }
    HoldsCopied(t.cells, from, m, old0.hash, c, gs);
  }

  lemma NothingCopied(n: nat, from: seq<Cell>)
    ensures Copied(seq(n, _ => Free), from, 0)
  {
    var cells: seq<Cell> := seq(n, _ => Free);
    forall x: Cell | x.Used? ensures multiset(cells)[x] == multiset(from[..0])[x] {
      assert x !in cells;
    }
  }

  // ---- Indexes ----

  /** What the loader checks of an index header. */
  predicate Loadable(t: HashTable)
    reads t
  {
    t.numEntries <= t.numPuts && t.maxDisplacement <= t.numEntries && t.hashCollisions <= t.numEntries
  }

  /** The table, with its header, is an index of the whole log. */
  ghost predicate IsIndex(t: HashTable, c: Compression, gs: seq<Group>)
    reads t, t.slots, t.slots.bytes
  {
    && NoEmptyGroups(gs) && IndexAt(t, c, gs, End(gs)) && AllStorable(t, c, gs)
    && t.dataEnd == Pos(c, gs, |gs|) && t.numPuts == Puts(Entries(gs))
    && IsMaxDisp(Wants(t.cells), t.maxDisplacement)
    && t.totalDisplacement == TotalDisp(Wants(t.cells), t.Capacity())
    && t.hashCollisions == |NeighbourCollisions(t.cells)| + |VainCounts(t.cells)|
    && t.maxKeyLen == LargestKey(Entries(gs)) && t.maxValueLen == LargestValue(Entries(gs)) && Loadable(t)
  }

  /** By how much the recorded garbage exceeds the bytes of the log that belong to no live entry. */
  ghost function Surplus(t: HashTable, gs: seq<Group>): int
    reads t
    requires NoEmptyGroups(gs)
  {
    t.garbageSize + LiveSize(gs, End(gs)) - |EncodeAll(Entries(gs))|
  }

  /** What does not change for old entries when the log is appended to. */
  lemma SamePos(c: Compression, old0: seq<Group>, gs: seq<Group>, g: nat)
    requires old0 <= gs && g <= |old0|
    ensures Pos(c, gs, g) == Pos(c, old0, g)
  {
    assert gs[..g] == old0[..g];
  }

  lemma HoldsLater(cells: seq<Cell>, m: map<Bytes, Place>, hash: Bytes -> nat, c: Compression,
                   old0: seq<Group>, gs: seq<Group>)
    requires old0 <= gs && Holds(cells, m, hash, c, old0)
    ensures Holds(cells, m, hash, c, gs)
  {
    forall k | k in m ensures InLog(gs, m[k]) && EntryAt(gs, m[k]).Put? && EntryAt(gs, m[k]).key == k
                              && CellOf(hash, c, gs, m[k]) == CellOf(hash, c, old0, m[k]) {
      SamePos(c, old0, gs, m[k].group);
    }
    forall x: Cell | x.Used? ensures multiset(cells)[x] == Due(x, m, hash, c, gs) {
      assert multiset(cells)[x] == Due(x, m, hash, c, old0);
    }
  }

  lemma IndexFacts(t: HashTable, c: Compression, gs: seq<Group>)
    requires NoEmptyGroups(gs) && IndexAt(t, c, gs, End(gs))
    ensures t.Valid() && t.numEntries <= Puts(Entries(gs))
  {
    FirstIsFirst(gs);
    LiveCount(gs, FIRST, End(gs));
    EntriesBeforeEnd(gs);
  }

  /** Counters, statistics and the position up to which the log has been indexed. */
  method Finish(t: HashTable, h: LogHeader, log: Log, ghost gs: seq<Group>)
    requires Describes(h, log, gs) && NoEmptyGroups(gs) && IndexAt(t, log.compression, gs, End(gs))
    requires AllStorable(t, log.compression, gs)
    modifies t`maxDisplacement, t`totalDisplacement, t`hashCollisions, t`dataEnd, t`numPuts, t`maxKeyLen, t`maxValueLen
    ensures IsIndex(t, log.compression, gs)
  {
    hide HashTable.Valid, HashTable.Stored, Holds, EncodeAll, Image, AreGroups, IsMaxDisp, IndexAt, LiveAt, Wants,
         AllStorable, NeighbourCollisions, VainCounts, TotalDisp, LargestKey, LargestValue, PutBytes;
    t.dataEnd, t.numPuts := h.dataEnd, h.numPuts;
    t.maxKeyLen, t.maxValueLen := h.maxKeyLen, h.maxValueLen;
    IndexFacts(t, log.compression, gs);
    CalculateMaxDisplacement(t);
    PosBounds(log, gs, |gs|);
  }

  lemma FirstIsFirst(gs: seq<Group>)
    requires NoEmptyGroups(gs)
    ensures OnPath(gs, FIRST) && (FIRST == End(gs) || Precedes(FIRST, End(gs)))
    ensures EntriesBefore(gs, FIRST) == [] && LiveAt(gs, FIRST) == map[]
  {
  }

  // ---- Writing the index ----

  datatype WriteCode = Written | HashSizeInvalid

  /** The hash functions: one for each hash size and seed, with values that fit. */
  type Hashes = (nat, nat) -> (Bytes -> nat)

  ghost predicate HashesFit(hashes: Hashes) {
    forall seed, key :: hashes(4, seed)(key) < Pow256(4) && hashes(8, seed)(key) < Pow256(8)
  }

  /** An index of an older state of this very log: an index file of another log is ignored. */
  predicate Usable(old0: HashTable?, h: LogHeader) {
    old0 != null && old0.fileIdentifier == h.fileIdentifier
  }

  /** The capacity is computed from the counters of the old index if it is usable. */
  function CapacityFor(old0: HashTable?, h: LogHeader): nat
    reads if old0 == null then {} else {old0}
    requires Usable(old0, h) ==> old0.numPuts <= h.numPuts
  {
    HashCapacity(if Usable(old0, h) then h.numPuts - old0.numPuts + old0.numEntries else h.numPuts)
  }

  const LARGE_CAPACITY: nat := 0x80_0000

  function HashSizeFor(hashSize: nat, old0: HashTable?, h: LogHeader, capacity: nat): nat {
    if hashSize != 0 then hashSize
    else if (Usable(old0, h) && old0.slots.hashSize == 8) || capacity >= LARGE_CAPACITY then 8
    else 4
  }

  /** The positions of the blocks in which entries start can be shifted in 64 bits without loss, and the
      numbers that are computed with stay in their range. */
  ghost predicate Addressable(h: LogHeader, c: Compression, gs: seq<Group>) {
    && h.maxEntriesPerBlock < 0x8000_0000 && h.numPuts < 0x1000_0000_0000_0000
    && PositionsFit(c, gs, Bits(h.maxEntriesPerBlock))
  }

  /** No more bits than the largest entry index needs, and addresses no wider than these bits and the log need. */
  predicate SizedFor(t: HashTable, h: LogHeader) {
    && h.maxEntriesPerBlock < Pow2(t.entryBlockBits)
    && (t.entryBlockBits > 0 ==> Pow2(t.entryBlockBits - 1) <= h.maxEntriesPerBlock)
    && t.slots.addressSize == if h.dataEnd * Pow2(t.entryBlockBits) < 0x1_0000_0000 then 4 else 8
  }

  /** An empty table with room for the addresses of the log. */
  method NewTable(log: Log, h: LogHeader, capacity: nat, hashSize: nat, garbageSize: nat, seed: nat, hash: Bytes -> nat,
                  ghost gs: seq<Group>) returns (t: HashTable)
    requires Describes(h, log, gs) && Addressable(h, log.compression, gs) && 0 < capacity < TWO_63
    requires forall key :: hash(key) < Pow256(hashSize)
    ensures fresh(t) && fresh(t.slots) && fresh(t.slots.bytes)
    ensures t.Valid() && t.numEntries == 0 && t.garbageSize == garbageSize && t.cells == seq(capacity, _ => Free)
    ensures t.Capacity() == capacity && t.hash == hash && t.slots.hashSize == hashSize
    ensures t.hashSeed == seed && t.fileIdentifier == h.fileIdentifier && SizedFor(t, h)
    ensures t.entryBlockBits < 32
    ensures AllStorable(t, log.compression, gs)
  {
    hide HashTable.Valid, HashTable.Storable, Pow2, Pow256, EncodeAll, IsLog, AddressSize, CellOf;
    var bits := IntLog2(h.maxEntriesPerBlock);
    BitsAreFew(h.maxEntriesPerBlock, bits);
    AddressSizeIff(h.dataEnd, bits);
    t := new HashTable(capacity, hashSize, AddressSize(h.dataEnd, bits), bits, hash, garbageSize, seed, h.fileIdentifier);
    forall p | InLog(gs, p) && EntryAt(gs, p).Put? ensures t.Storable(CellOf(hash, log.compression, gs, p)) {
      PutIsStorable(t, log, gs, p);
    }
  }

  /** The whole log is replayed into an empty table. */
  method Rebuild(t: HashTable, log: Log, h: LogHeader, ghost gs: seq<Group>)
    requires Describes(h, log, gs) && NoEmptyGroups(gs)
    requires t.Valid() && t.numEntries == 0 && t.cells == seq(t.Capacity(), _ => Free)
    requires AllStorable(t, log.compression, gs) && OnPath(gs, FIRST) && Room(gs, FIRST, t.Capacity())
    modifies t, t.slots, t.slots.bytes
    ensures IsIndex(t, log.compression, gs) && Surplus(t, gs) == old(t.garbageSize)
  {
    hide HashTable.Valid, HashTable.Storable, HashTable.Stored, EncodeAll, IsLog, AllStorable, Room, LiveAt, Holds,
         Describes, SizeIn, EntriesBefore, IsIndex;
    LogDescribed(h, log, gs);
    var iter := new LogIter(log, gs);
    var raIter := new LogIter(log, gs);
    NothingLive(gs);
    NothingHeld(t.Capacity(), t.hash, log.compression, gs);
    Replay(t, iter, raIter, gs, FIRST);
    Finish(t, h, log, gs);
  }

  lemma LogDescribed(h: LogHeader, log: Log, gs: seq<Group>)
    requires Describes(h, log, gs)
    ensures IsLog(log, gs) && NoEmptyGroups(gs) && h.dataEnd == |log.data| && h.numPuts == Puts(Entries(gs))
  {
    NonEmpty(log, gs);
  }

  lemma NothingLive(gs: seq<Group>)
    requires NoEmptyGroups(gs)
    ensures OnPath(gs, FIRST) && LiveAt(gs, FIRST) == map[] && LiveSize(gs, FIRST) == 0
    ensures |EncodeAll(EntriesBefore(gs, FIRST))| == 0
  {
    NothingEncoded([]);
  }

  // ---- From an older index ----

  lemma {:induction false} SizeInPrefix(gs: seq<Group>, more: seq<Group>, p: Place, s: set<Place>)
    requires gs <= more && NoEmptyGroups(more) && NoEmptyGroups(gs) && OnPath(gs, p) && OnPath(more, p)
    ensures SizeIn(more, p, s) == SizeIn(gs, p, s)
    decreases p.group, p.index
  {
    hide Encoded;
    assert forall g :: 0 <= g < |gs| ==> gs[g] == more[g];
    if p != FIRST {
      SizeInPrefix(gs, more, Prior(gs, p), s);
    }
  }

  /** The end of an older log is a place of the log appended to it, with the same entries before it. */
  lemma OlderEnd(old0: seq<Group>, gs: seq<Group>)
    requires old0 <= gs && NoEmptyGroups(gs)
    ensures NoEmptyGroups(old0) && OnPath(gs, End(old0))
    ensures LiveAt(gs, End(old0)) == LiveAt(old0, End(old0)) && LiveSize(gs, End(old0)) == LiveSize(old0, End(old0))
    ensures EntriesBefore(gs, End(old0)) == Entries(old0)
  {
    LivePrefix(old0, gs, End(old0));
    SizeInPrefix(old0, gs, End(old0), LiveAt(gs, End(old0)).Values);
    EntriesBeforeEnd(old0);
  }

  lemma OlderPuts(old0: seq<Group>, gs: seq<Group>)
    requires old0 <= gs && NoEmptyGroups(gs)
    ensures Puts(Entries(old0)) <= Puts(Entries(gs))
  {
    OlderEnd(old0, gs);
    assert End(old0) == End(gs) || Precedes(End(old0), End(gs));
    LiveCount(gs, End(old0), End(gs));
    EntriesBeforeEnd(gs);
  }

  /** An index of the older log is an index of the later one up to where that ended. */
  lemma OlderIndex(t: HashTable, c: Compression, old0: seq<Group>, gs: seq<Group>)
    requires IsIndex(t, c, old0) && old0 <= gs && NoEmptyGroups(gs)
    ensures OnPath(gs, End(old0)) && IndexAt(t, c, gs, End(old0))
    ensures t.dataEnd == Pos(c, gs, |old0|) && t.numPuts == Puts(Entries(old0)) <= Puts(Entries(gs))
    ensures t.numEntries <= t.numPuts
  {
    hide HashTable.Valid, Holds, IsMaxDisp;
    OlderEnd(old0, gs);
    OlderPuts(old0, gs);
    HoldsLater(t.cells, LiveAt(old0, End(old0)), t.hash, c, old0, gs);
    SamePos(c, old0, gs, |old0|);
  }

  /** What an index holds can be stored in a table made for the log. */
  lemma CopyStorable(old0: HashTable, t: HashTable, c: Compression, gs: seq<Group>, p: Place)
    requires NoEmptyGroups(gs) && OnPath(gs, p) && IndexAt(old0, c, gs, p)
    requires AllStorable(t, c, gs) && t.hash == old0.hash
    ensures forall i :: 0 <= i < |old0.cells| ==> t.Storable(old0.cells[i])
  {
    hide HashTable.Valid, Holds;
    forall i | 0 <= i < |old0.cells| ensures t.Storable(old0.cells[i]) {
      if old0.cells[i].Used? {
        var m := LiveAt(gs, p);
        HoldsCell(old0.cells, m, old0.hash, c, gs, i);
        LivePlaces(gs, p);
        var key := old0.cells[i].key;
        assert LastPut(gs, p, key, m[key]);
        assert InLog(gs, m[key]) && EntryAt(gs, m[key]).Put?;
      }
    }
  }

  /** The old table is copied, and what was appended to the log since is replayed. */
  method Extend(old0: HashTable, t: HashTable, log: Log, h: LogHeader, ghost gs: seq<Group>, ghost oldGs: seq<Group>)
    requires Describes(h, log, gs) && NoEmptyGroups(gs) && oldGs <= gs && IsIndex(old0, log.compression, oldGs)
    requires old0 != t && old0.slots != t.slots && old0.slots.bytes != t.slots.bytes
    requires t.Valid() && t.numEntries == 0 && t.cells == seq(t.Capacity(), _ => Free)
    requires AllStorable(t, log.compression, gs) && t.hash == old0.hash
    requires h.numPuts - old0.numPuts + old0.numEntries <= t.Capacity()
    requires t.garbageSize == old0.garbageSize
    modifies t, t.slots, t.slots.bytes
    ensures IsIndex(t, log.compression, gs) && Surplus(t, gs) == old(Surplus(old0, oldGs))
  {
    hide HashTable.Valid, HashTable.Storable, HashTable.Stored, EncodeAll, IsLog, AllStorable, Room, LiveAt, Holds,
         Describes, SizeIn, EntriesBefore, IsIndex, NoEmptyGroups, Pos;
    LogDescribed(h, log, gs);
    ghost var c, p := log.compression, End(oldGs);
    OlderEnd(oldGs, gs);
    OlderIndex(old0, c, oldGs, gs);
    CopyStorable(old0, t, c, gs, p);
    EnoughRoom(gs, p, t.Capacity());
    HashCopy(old0, t, LiveAt(gs, p), c, gs);
    var iter := new LogIter(log, gs);
    var raIter := new LogIter(log, gs);
    iter.Seek(old0.dataEnd, |oldGs|);
    Replay(t, iter, raIter, gs, p);
    Finish(t, h, log, gs);
  }

  type Seed = s: nat | s < 0x1_0000_0000

  /** The index file belongs to the log and hashes with one of the two functions; its numbers have the
      sizes the builder chooses from. */
  ghost predicate BelongsTo(t: HashTable, fileIdentifier: nat, hashes: Hashes) {
    && t.fileIdentifier == fileIdentifier && t.slots.hashSize in {4, 8} && t.hashSeed < 0x1_0000_0000
    && t.hash == hashes(t.slots.hashSize, t.hashSeed)
    && t.slots.addressSize in {4, 8} && t.entryBlockBits < 32
  }

  /** The old index is left aside because its hashes have another size, although its counters are used. */
  predicate Resized(old0: HashTable?, hashSize: nat, h: LogHeader)
    reads if old0 == null then {} else {old0}
    requires Usable(old0, h) ==> old0.numPuts <= h.numPuts
  {
    Usable(old0, h) && HashSizeFor(hashSize, old0, h, CapacityFor(old0, h)) != old0.slots.hashSize
  }

  /** What `HashWrite` expects of an index file it finds. */
  ghost predicate GoodOld(old0: HashTable?, h: LogHeader, hashes: Hashes, c: Compression, gs: seq<Group>, oldGs: seq<Group>)
    reads if old0 == null then {} else {old0, old0.slots, old0.slots.bytes}
  {
    && NoEmptyGroups(gs)
    && (Usable(old0, h) ==>
          IsIndex(old0, c, oldGs) && oldGs <= gs && old0.numPuts <= h.numPuts && BelongsTo(old0, h.fileIdentifier, hashes))
  }

  /** The garbage recorded beyond the bytes that belong to no live entry. */
  ghost function SurplusAfter(old0: HashTable?, h: LogHeader, hashSize: nat, oldGs: seq<Group>): int
    reads if old0 == null then {} else {old0}
    requires Usable(old0, h) ==> old0.numPuts <= h.numPuts && NoEmptyGroups(oldGs)
  {
    if !Usable(old0, h) then 0
    else if Resized(old0, hashSize, h) then old0.garbageSize
    else Surplus(old0, oldGs)
  }

  lemma GoodOldFacts(old0: HashTable?, h: LogHeader, hashes: Hashes, log: Log, gs: seq<Group>, oldGs: seq<Group>)
    requires Describes(h, log, gs) && Addressable(h, log.compression, gs)
    requires GoodOld(old0, h, hashes, log.compression, gs, oldGs)
    ensures IsLog(log, gs) && NoEmptyGroups(gs) && OnPath(gs, FIRST)
    ensures Usable(old0, h) ==> NoEmptyGroups(oldGs) && old0.numPuts <= h.numPuts && old0.numEntries <= old0.numPuts
    ensures Usable(old0, h) ==> old0.slots.hashSize in {4, 8} && old0.hash == hashes(old0.slots.hashSize, old0.hashSeed)
    ensures CapacityFor(old0, h) < TWO_63
    ensures Usable(old0, h) ==> (old0.dataEnd == h.dataEnd <==> oldGs == gs)
  {
    hide HashTable.Valid, Holds, IsMaxDisp, IndexAt, IsLog;
    LogDescribed(h, log, gs);
    NothingLive(gs);
    if Usable(old0, h) {
      OlderPuts(oldGs, gs);
      SamePos(log.compression, oldGs, gs, |oldGs|);
      PosBounds(log, gs, |oldGs|);
      PosBounds(log, gs, |gs|);
    }
  }

  /** Without an old index there is always room. */
  lemma FreshRoom(old0: HashTable?, h: LogHeader, log: Log, gs: seq<Group>)
    requires Describes(h, log, gs) && NoEmptyGroups(gs) && OnPath(gs, FIRST)
    requires Usable(old0, h) ==> old0.numPuts <= h.numPuts
    ensures !Usable(old0, h) ==> Room(gs, FIRST, CapacityFor(old0, h))
  {
    hide Room;
    if !Usable(old0, h) {
      NothingLive(gs);
      EnoughRoom(gs, FIRST, CapacityFor(old0, h));
    }
  }

  /** Writes the index of a log; `old0` is the index file that is there already, if any. */
  method HashWrite(log: Log, h: LogHeader, old0: HashTable?, hashSize: nat, randomSeed: Seed, hashes: Hashes,
                   ghost gs: seq<Group>, ghost oldGs: seq<Group>) returns (rc: WriteCode, t: HashTable?)
    requires Describes(h, log, gs) && Addressable(h, log.compression, gs) && HashesFit(hashes)
    requires GoodOld(old0, h, hashes, log.compression, gs, oldGs)
    requires hashSize in {0, 4, 8} && Resized(old0, hashSize, h) ==> Room(gs, FIRST, CapacityFor(old0, h))
    ensures rc == HashSizeInvalid <==> hashSize !in {0, 4, 8}
    ensures rc == HashSizeInvalid ==> t == old0
    ensures rc == Written ==> t != null && IsIndex(t, log.compression, gs) && BelongsTo(t, h.fileIdentifier, hashes)
    ensures rc == Written ==> Surplus(t, gs) == SurplusAfter(old0, h, hashSize, oldGs)
    ensures rc == Written ==>
      (t == old0 <==>
        && old0 != null && old0.fileIdentifier == h.fileIdentifier
        && old0.dataEnd == h.dataEnd && old0.slots.hashSize == t.slots.hashSize)
    ensures rc == Written && t != old0 ==> fresh(t) && fresh(t.slots.bytes)
    ensures rc == Written && t != old0 ==>
      var usable := old0 != null && old0.fileIdentifier == h.fileIdentifier;
      var n := if usable then h.numPuts - old0.numPuts + old0.numEntries else h.numPuts;
      && t.Capacity() % 2 == 1 && 13 * n - 10 < 10 * t.Capacity() <= 13 * n + 10
      && t.hashSeed == (if usable then old0.hashSeed else randomSeed)
      && t.slots.hashSize == (if hashSize != 0 then hashSize
                              else if t.Capacity() >= 0x80_0000 || (usable && old0.slots.hashSize == 8) then 8 else 4)
    ensures rc == Written && t != old0 ==>
      && t.slots.addressSize == (if h.dataEnd * Pow2(t.entryBlockBits) < 0x1_0000_0000 then 4 else 8)
      && h.maxEntriesPerBlock < Pow2(t.entryBlockBits)
      && (t.entryBlockBits > 0 ==> Pow2(t.entryBlockBits - 1) <= h.maxEntriesPerBlock)
  {
    hide HashTable.Valid, HashTable.Storable, HashTable.Stored, EncodeAll, IsLog, AllStorable, Room, LiveAt, Holds,
         Describes, SizeIn, EntriesBefore, IsIndex, NoEmptyGroups, Pos, Surplus, HashCapacity, Pow2;
    GoodOldFacts(old0, h, hashes, log, gs, oldGs);
    FreshRoom(old0, h, log, gs);
    var usable := Usable(old0, h);
    var capacity := CapacityFor(old0, h);
    var seed: nat, garbageSize: nat := randomSeed, 0;
    if usable {
      seed, garbageSize := old0.hashSeed, old0.garbageSize;
    }
    if hashSize != 0 && hashSize != 4 && hashSize != 8 {
      return HashSizeInvalid, old0;
    }
    var size := HashSizeFor(hashSize, old0, h, capacity);
    rc := Written;
    var copyOld := usable && size == old0.slots.hashSize;
    if copyOld && old0.dataEnd == h.dataEnd {
      t := old0;
      return;
    }
    var t' := NewTable(log, h, capacity, size, garbageSize, seed, hashes(size, seed), gs);
    t := t';
    if copyOld {
      Extend(old0, t', log, h, gs, oldGs);
    } else {
      Rebuild(t', log, h, gs);
    }
  }
}
