/** Whole runs: logs are written in any number of sittings, read back entry by entry, indexed, and
    looked up. */
module SystemRuns {
  import opened Vlq
  import opened LogFormat
  import opened LogHeaders
  import opened LogWriter
  import opened LogFiles
  import opened LogRuns
  import opened LogReader
  import opened Liveness
  import opened HashTables
  import opened Index
  import opened Sizing
  import opened HashWriter
  import opened HashBuilder
  import opened HashReader
  import opened HashHeaders
  import opened ReplaySteps

  // ---- Reading ----

  lemma FilledFromStart(base: Bytes, text: Bytes)
    requires |base| == |text|
    ensures Filled(base, 0, text, |text|) == text
  {
  }

  lemma WholeEntry(iter: LogIter)
    requires iter.Valid() && iter.state == Active
    ensures iter.keyRemaining == iter.keylen ==> iter.KeyRest() == iter.Entry().key
    ensures iter.valueRemaining == iter.valuelen ==> iter.ValueRest() == ValueOf(iter.Entry())
    ensures iter.entryType == PutEntry <==> iter.Entry().Put?
    ensures iter.keylen == |iter.Entry().key| && iter.valuelen == |ValueOf(iter.Entry())|
  {
    hide LogIter.Loaded;
  }

  /** Key and value of the current entry, read into buffers of their announced sizes. */
  method ReadEntry(iter: LogIter) returns (e: Entry)
    requires iter.Valid() && iter.state == Active && iter.Clean()
    modifies iter
    ensures iter.Valid() && iter.state == Active && iter.Here() == old(iter.Here())
    ensures e == old(iter.Entry())
  {
    hide LogIter.Consistent, LogIter.AtEntry, LogIter.KeyRest, LogIter.ValueRest, Filled;
    WholeEntry(iter);
    ghost var entry := iter.Entry();
    var keybuf, valuebuf := new byte[iter.keylen], new byte[iter.valuelen];
    FilledFromStart(keybuf[..], entry.key);
    FilledFromStart(valuebuf[..], ValueOf(entry));
    var rc, len := iter.FillKey(iter.keylen, keybuf, 0);
    WholeEntry(iter);
    rc, len := iter.FillValue(iter.valuelen, valuebuf, 0);
    WholeEntry(iter);
    e := if iter.entryType == PutEntry then LogFormat.Put(keybuf[..], valuebuf[..]) else LogFormat.Delete(keybuf[..]);
  }

  /** Iterating over a log yields its entries in order. */
  method ReadAll(log: Log, ghost gs: seq<Group>) returns (entries: seq<Entry>)
    requires IsLog(log, gs)
    ensures entries == Entries(gs)
  {
    hide LogIter.Consistent, LogIter.AtEntry, LogIter.Loaded, EntriesBefore, IsLog, Entries;
    NonEmpty(log, gs);
    FirstIsFirst(gs);
    var iter := new LogIter(log, gs);
    entries := [];
    ghost var p := FIRST;
    while true
      invariant iter.Valid() && iter.state != Invalid && iter.Upcoming() == p && OnPath(gs, p)
      invariant entries == EntriesBefore(gs, p)
      decreases |gs| - p.group, if p.group < |gs| then |gs[p.group].entries| - p.index else 0
    {
      iter.Next();
      if iter.state != Active {
        EntriesBeforeEnd(gs);
        return;
      }
      CurrentEntry(iter);
      AfterIsNext(gs, p);
      LiveAfter(gs, p);
      var e := ReadEntry(iter);
      entries := entries + [e];
      p := After(gs, p);
    }
  }

  // ---- Reading what is live ----

  ghost predicate Ascending(places: seq<Place>) {
    forall a, b :: 0 <= a < b < |places| ==> Precedes(places[a], places[b])
  }

  /** These are the live places before p. */
  ghost predicate LiveBefore(places: seq<Place>, indexed: seq<Group>, p: Place)
    requires NoEmptyGroups(indexed)
  {
    Ascending(places) && forall q :: q in places <==> IsLive(indexed, q) && Precedes(q, p)
  }

  lemma OneMoreLive(places: seq<Place>, indexed: seq<Group>, gs: seq<Group>, p: Place, h: Place)
    requires NoEmptyGroups(indexed) && NoEmptyGroups(gs) && indexed <= gs && InLog(gs, h)
    requires LiveBefore(places, indexed, p) && IsLive(indexed, h) && !Precedes(h, p) && NoneBetween(indexed, p, h)
    ensures LiveBefore(places + [h], indexed, After(gs, h))
  {
    AfterIsNext(gs, h);
    forall a | 0 <= a < |places| ensures Precedes(places[a], h) {
      assert places[a] in places;
    }
    forall q ensures q in places + [h] <==> IsLive(indexed, q) && Precedes(q, After(gs, h)) {
      if IsLive(indexed, q) {
        assert OnPath(gs, q);
      }
    }
  }

  lemma AllLive(places: seq<Place>, indexed: seq<Group>, gs: seq<Group>, p: Place)
    requires NoEmptyGroups(indexed) && indexed <= gs
    requires LiveBefore(places, indexed, p) && NoneBetween(indexed, p, End(gs))
    ensures Ascending(places) && forall q :: q in places <==> IsLive(indexed, q)
  {
    forall q | IsLive(indexed, q) ensures q in places {
      assert Precedes(q, End(gs));
    }
  }

  lemma {:induction false} DistinctCount<T>(s: seq<T>, x: set<T>)
    requires forall a, b :: 0 <= a < b < |s| ==> s[a] != s[b]
    requires forall v :: v in s <==> v in x
    ensures |s| == |x|
    decreases |s|
  {
    if s == [] {
      assert x == {};
    } else {
      var rest, last := s[..|s| - 1], s[|s| - 1];
      assert s == rest + [last];
      forall v ensures v in rest <==> v in x - {last} {
        assert v in rest ==> v in s;
      }
      DistinctCount(rest, x - {last});
    }
  }

  function KeyAt(gs: seq<Group>, p: Place): Bytes {
    if InLog(gs, p) then EntryAt(gs, p).key else []
  }

  /** There are as many live places as live keys. */
  lemma CountLive(places: seq<Place>, indexed: seq<Group>)
    requires NoEmptyGroups(indexed) && Ascending(places) && forall q :: q in places <==> IsLive(indexed, q)
    ensures |places| == |LiveIn(indexed)|
  {
    hide LiveIn;
    var m := LiveIn(indexed);
    IndexedLive(indexed);
    var keys := seq(|places|, k requires 0 <= k < |places| => KeyAt(indexed, places[k]));
    forall a, b | 0 <= a < b < |keys| ensures keys[a] != keys[b] {
      assert IsLive(indexed, places[a]) && IsLive(indexed, places[b]);
    }
    forall v ensures v in keys <==> v in m.Keys {
      if v in keys {
        var k :| 0 <= k < |keys| && keys[k] == v;
        assert IsLive(indexed, places[k]);
      }
      if v in m.Keys {
        assert IsLive(indexed, m[v]);
        assert m[v] in places;
        var k :| 0 <= k < |places| && places[k] == m[v];
        assert keys[k] == v;
      }
    }
    DistinctCount(keys, m.Keys);
  }

  /** A place is live exactly when its key and value are in the folded log. */
  lemma LiveAndFold(indexed: seq<Group>)
    requires NoEmptyGroups(indexed)
    ensures Agree(indexed, LiveIn(indexed), Fold(Entries(indexed)))
    ensures |LiveIn(indexed)| == |Fold(Entries(indexed))|
  {
    LiveIsFold(indexed, End(indexed));
    EntriesBeforeEnd(indexed);
    var m, f := LiveIn(indexed), Fold(Entries(indexed));
    assert |m| == |m.Keys| == |f.Keys| == |f|;
  }

  type Pair = (Bytes, Bytes)

  /** The pairs are the contents of a map, each once. */
  ghost predicate Contents(pairs: seq<Pair>, f: map<Bytes, Bytes>) {
    |pairs| == |f| && forall key, value :: (key, value) in pairs <==> key in f && f[key] == value
  }

  ghost predicate PairsAt(pairs: seq<Pair>, gs: seq<Group>, places: seq<Place>) {
    |pairs| == |places| && forall k {:trigger pairs[k]} {:trigger places[k]} :: 0 <= k < |pairs| ==>
      InLog(gs, places[k]) && EntryAt(gs, places[k]) == LogFormat.Put(pairs[k].0, pairs[k].1)
  }

  lemma PairsAreContents(pairs: seq<Pair>, indexed: seq<Group>, gs: seq<Group>, places: seq<Place>)
    requires NoEmptyGroups(indexed) && indexed <= gs && PairsAt(pairs, gs, places)
    requires Ascending(places) && forall q :: q in places <==> IsLive(indexed, q)
    ensures Contents(pairs, Fold(Entries(indexed)))
  {
    hide LiveIn, Fold, Entries;
    LiveAndFold(indexed);
    CountLive(places, indexed);
    IndexedLive(indexed);
    var m, f := LiveIn(indexed), Fold(Entries(indexed));
    forall key, value ensures (key, value) in pairs <==> key in f && f[key] == value {
      if (key, value) in pairs {
        var k :| 0 <= k < |pairs| && pairs[k] == (key, value);
        assert IsLive(indexed, places[k]);
      }
      if key in f && f[key] == value {
        assert IsLive(indexed, m[key]);
        assert m[key] in places;
        var k :| 0 <= k < |places| && places[k] == m[key];
        assert IsLive(indexed, places[k]);
        LiveIsPut(indexed, gs, m[key]);
        assert pairs[k] == (key, value);
      }
    }
  }

  /** Iterating with the index yields the pairs of the folded log, in the order of the log. */
  method ReadLive(t: HashTable, log: Log, ghost gs: seq<Group>, ghost indexed: seq<Group>)
    returns (pairs: seq<Pair>, ghost places: seq<Place>)
    requires IsLog(log, gs) && IsIndex(t, log.compression, indexed) && indexed <= gs
    ensures |pairs| == t.numEntries && Contents(pairs, Fold(Entries(indexed)))
    ensures Ascending(places) && PairsAt(pairs, gs, places)
  {
    hide LogIter.Consistent, LogIter.AtEntry, LogIter.Loaded, EntriesBefore, IsLog, Entries, IsIndex, LiveIn, IsLive,
         Fold, NoneBetween, LiveBefore, Ascending, PairsAt;
    NonEmpty(log, gs);
    var iter := new LogIter(log, gs);
    ServesFacts(t, iter, indexed);
    pairs, places := [], [];
    ghost var p := FIRST;
    NothingRead(indexed, gs);
    while true
      invariant iter.Valid() && iter.state != Invalid && iter.Upcoming() == p && OnPath(gs, p)
      invariant LiveBefore(places, indexed, p) && PairsAt(pairs, gs, places)
      decreases |gs| - p.group, if p.group < |gs| then |gs[p.group].entries| - p.index else 0
    {
      HashNext(iter, t, indexed);
      if iter.state != Active {
        AllLive(places, indexed, gs, p);
        PairsAreContents(pairs, indexed, gs, places);
        EntriesCounted(t, log.compression, indexed);
        return;
      }
      CurrentEntry(iter);
      ghost var h := iter.Here();
      OneMoreLive(places, indexed, gs, p, h);
      LiveIsPut(indexed, gs, h);
      AfterIsNext(gs, h);
      var e := ReadEntry(iter);
      OneMorePair(pairs, gs, places, h, e);
      pairs, places := pairs + [(e.key, e.value)], places + [h];
      p := After(gs, h);
    }
  }

  lemma NothingRead(indexed: seq<Group>, gs: seq<Group>)
    requires NoEmptyGroups(indexed)
    ensures LiveBefore([], indexed, FIRST) && PairsAt([], gs, [])
  {
  }

  lemma OneMorePair(pairs: seq<Pair>, gs: seq<Group>, places: seq<Place>, h: Place, e: Entry)
    requires PairsAt(pairs, gs, places) && InLog(gs, h) && e == EntryAt(gs, h) && e.Put?
    ensures PairsAt(pairs + [(e.key, e.value)], gs, places + [h])
  {
  }

  lemma EntriesCounted(t: HashTable, c: Compression, indexed: seq<Group>)
    requires IsIndex(t, c, indexed)
    ensures t.numEntries == |Fold(Entries(indexed))|
  {
    LiveAndFold(indexed);
  }

  // ---- Looking up ----

  datatype Option<T> = Some(value: T) | None

  /** The value of a key, or nothing: what the folded log says. */
  method Lookup(t: HashTable, key: Bytes, iter: LogIter, ghost indexed: seq<Group>) returns (value: Option<Bytes>)
    requires iter.Consistent() && Serves(t, iter, indexed)
    modifies iter
    ensures iter.Valid()
    ensures var f := Fold(Entries(indexed)); value == if key in f then Some(f[key]) else None
  {
    hide LogIter.Consistent, LogIter.AtEntry, LogIter.Loaded, Entries, IsIndex, LiveIn, Fold, LogIter.ValueRest,
         Filled;
    ServesFacts(t, iter, indexed);
    LiveAndFold(indexed);
    ghost var probes, read := Get(t, key, iter, indexed);
    if iter.state != Active {
      return None;
    }
    CurrentEntry(iter);
    WholeEntry(iter);
    ghost var v := ValueOf(iter.Entry());
    var valuebuf := new byte[iter.valuelen];
    FilledFromStart(valuebuf[..], v);
    var rc, len := iter.FillValue(iter.valuelen, valuebuf, 0);
    assert EntryAt(iter.gs, LiveIn(indexed)[key]) == EntryAt(indexed, LiveIn(indexed)[key]);
    value := Some(valuebuf[..]);
  }

  // ---- Reading on after a missed lookup ----

  const ODD_PUT: Entry := LogFormat.Put([7], [3, 0, 9, 9])

  const ODD_LOG: seq<Group> := [Group([ODD_PUT], [Encoded(ODD_PUT)])]

  lemma OddLog(log: Log)
    requires log == Log(Plain, seq(LOG_HEADER_SIZE, _ => 0) + Image(Plain, ODD_LOG), 0)
    ensures IsLog(log, ODD_LOG) && NoEmptyGroups(ODD_LOG) && InLog(ODD_LOG, FIRST) && EntryAt(ODD_LOG, FIRST) == ODD_PUT
    ensures Entries(ODD_LOG) == [ODD_PUT]
  {
    hide Encoded, Image, IsGroup;
    PlainGroup(Plain, ODD_PUT);
    assert log.data[LOG_HEADER_SIZE..] == Image(Plain, ODD_LOG);
    assert Entries(ODD_LOG) == [ODD_PUT] + Entries([]);
    assert IsGroup(Plain, ODD_LOG[0]);
  }

  /** Without compression the value of an entry whose key has been consumed lies at the block offset. */
  lemma ValueLiesHere(iter: LogIter)
    requires iter.Valid() && iter.AtEntry() && iter.log.compression.Plain?
    requires iter.keyRemaining == 0 && iter.valueRemaining == iter.valuelen
    ensures var v := ValueOf(EntryAt(iter.gs, iter.Here()));
            iter.blockOffset + |v| <= iter.blockLen && iter.buf[iter.blockOffset..iter.blockOffset + |v|] == v
  {
    hide EncodeAll, Header, Start, Encoded, Image, ValueOf, Pos;
    var gs, g, i := iter.gs, iter.g, iter.i;
    BlockFacts(iter.log, gs, g, iter.j);
    PlainBlock(iter.log, gs, g);
    EntryBytes(gs[g], i);
    StartZero(gs[g]);
    StartGrows(gs[g], i + 1, |gs[g].entries|);
    SliceOfSlice(iter.buf, 0, GroupLen(gs, g), iter.blockOffset, Start(gs[g], i + 1));
  }

  method AtOddPut() returns (iter: LogIter)
    ensures fresh(iter) && iter.gs == ODD_LOG && iter.log.compression.Plain?
    ensures iter.Valid() && iter.state == Active && iter.Clean() && iter.Here() == FIRST && iter.keylen == 1
  {
    hide LogIter.Consistent, LogIter.AtEntry, LogIter.Loaded, IsLog, Entries, ODD_LOG, Encoded, Image, Header;
    var log := Log(Plain, seq(LOG_HEADER_SIZE, _ => 0) + Image(Plain, ODD_LOG), 0);
    OddLog(log);
    iter := new LogIter(log, ODD_LOG);
    iter.Next();
    WholeEntry(iter);
  }

  /** The key of the only entry is compared in vain with one of its hash. */
  method MissOnly() returns (iter: LogIter)
    ensures iter.gs == ODD_LOG && iter.log.compression.Plain? && iter.Valid() && iter.state == Invalid && iter.AtEntry()
    ensures iter.Here() == FIRST && iter.keyRemaining == 0 && iter.valueRemaining == iter.valuelen
  {
    hide LogIter.Consistent, LogIter.AtEntry, LogIter.Loaded, LogIter.KeyRest, LogIter.ValueRest, IsLog, ODD_LOG;
    hide ODD_PUT, ValueOf, Encoded, Image, Header, Start, Pos;
    iter := AtOddPut();
    WholeEntry(iter);
    var same := KeyEquals(iter, [8]);
    WholeEntry(iter);
    SetInvalid(iter);
  }

  lemma OddHeader()
    ensures Header(LogFormat.Put([9, 9], [])) == [3, 0]
  {
    assert Encode(3) == [3] && Encode(0) == [0];
  }

  lemma FirstTwo(s: Bytes, at: nat)
    requires at + 4 <= |s| && s[at..at + 4] == [3, 0, 9, 9]
    ensures s[at..at + 2] == [3, 0]
  {
    assert s[at..at + 2] == s[at..at + 4][..2];
  }

  lemma OddEntries()
    ensures Entries(ODD_LOG) == [ODD_PUT] && InLog(ODD_LOG, FIRST) && EntryAt(ODD_LOG, FIRST) == ODD_PUT
  {
    hide Encoded;
    assert Entries(ODD_LOG) == [ODD_PUT] + Entries([]);
  }

  /** After a missed lookup the next thing read may be no entry: a lookup of a key with the hash of the only one in
      this log leaves the iterator at its value, which reads like the header of a put that was never written. */
  method MissReadsOn() returns (iter: LogIter)
    ensures iter.Valid() && iter.state == Invalid && !iter.Aligned() && iter.gs == ODD_LOG
    ensures iter.blockOffset + 2 <= iter.blockLen <= |iter.buf|
    ensures iter.buf[iter.blockOffset..iter.blockOffset + 2] == Header(LogFormat.Put([9, 9], []))
    ensures LogFormat.Put([9, 9], []) !in Entries(iter.gs)
  {
    hide IsLog, Entries, ODD_LOG, Encoded, Image, Header, LogIter.Aligned, Pos, BlockPos, BlockBytes, NextPos, Start;
    iter := MissOnly();
    OddEntries();
    OddHeader();
    ValueLiesHere(iter);
    FirstTwo(iter.buf, iter.blockOffset);
    iter.AlignedIff();
  }

  // ---- All together ----

  /** What a session saw: the entries of the log in order, the live pairs, and an answer for each key asked. */
  datatype Report =
    | Report(entries: seq<Entry>, pairs: seq<Pair>, answers: seq<Option<Bytes>>)
    | HeaderTooLarge | NotPlausible | NotAddressable | NoRoomForHashSize

  /** When there is no report, and why: a header number does not fit its field, the header is not plausible,
      addresses would not fit 64 bits, or the size of the hashes has changed and a replay into the capacity
      computed from the old index would never end.  Else there is one. */
  ghost predicate Outcome(r: Report, w: LogWriter, old0: HashTable?, hashSize: nat)
    reads w, if old0 == null then {} else {old0}
  {
    var h := w.HeaderNow();
    if !Representable(h) then r == HeaderTooLarge
    else if !Plausible(h) then r == NotPlausible
    else if !Addressable(h, w.compression, w.groups) then r == NotAddressable
    else
      && (Usable(old0, h) ==> old0.numPuts <= h.numPuts)
      && NoEmptyGroups(w.groups)
      && if Resized(old0, hashSize, h) && !Room(w.groups, FIRST, CapacityFor(old0, h)) then r == NoRoomForHashSize
         else r.Report?
  }

  /** The report agrees with the simple map a log stands for. */
  ghost predicate Truthful(r: Report, entries: seq<Entry>, keys: seq<Bytes>)
    requires r.Report?
  {
    && r.entries == entries && Contents(r.pairs, Fold(entries)) && |r.answers| == |keys|
    && forall k :: 0 <= k < |keys| ==>
         r.answers[k] == if keys[k] in Fold(entries) then Some(Fold(entries)[keys[k]]) else None
  }

  method LookupAll(t: HashTable, log: Log, keys: seq<Bytes>, ghost gs: seq<Group>) returns (answers: seq<Option<Bytes>>)
    requires IsLog(log, gs) && IsIndex(t, log.compression, gs)
    ensures |answers| == |keys| && forall k :: 0 <= k < |keys| ==>
      answers[k] == if keys[k] in Fold(Entries(gs)) then Some(Fold(Entries(gs))[keys[k]]) else None
  {
    hide LogIter.Consistent, LogIter.AtEntry, LogIter.Loaded, Entries, IsIndex, Fold, IsLog;
    var iter := new LogIter(log, gs);
    answers := [];
    for n := 0 to |keys|
      invariant iter.Valid() && |answers| == n
      invariant forall k :: 0 <= k < n ==>
        answers[k] == if keys[k] in Fold(Entries(gs)) then Some(Fold(Entries(gs))[keys[k]]) else None
    {
      var answer := Lookup(t, keys[n], iter, gs);
      answers := answers + [answer];
    }
  }

  /** An index file that can be given: one of an older state of the log, or of another log. */
  ghost predicate FormerIndex(old0: HashTable?, fileIdentifier: nat, c: Compression, gs: seq<Group>, hashes: Hashes,
                              oldGs: seq<Group>)
    reads if old0 == null then {} else {old0, old0.slots, old0.slots.bytes}
  {
    old0 != null && old0.fileIdentifier == fileIdentifier ==>
      IsIndex(old0, c, oldGs) && oldGs <= gs && BelongsTo(old0, fileIdentifier, hashes)
  }

  lemma StaysFormer(old0: HashTable?, fileIdentifier: nat, c: Compression, gs: seq<Group>, hashes: Hashes, oldGs: seq<Group>,
                    gs': seq<Group>)
    requires FormerIndex(old0, fileIdentifier, c, gs, hashes, oldGs) && gs <= gs'
    ensures FormerIndex(old0, fileIdentifier, c, gs', hashes, oldGs)
  {
    hide IsIndex, BelongsTo;
  }

  // ---- Looking ahead: what the source does not check ----

  /** The position of the last block in which entries start. */
  method LastPosition(log: Log, ghost gs: seq<Group>) returns (last: nat)
    requires IsLog(log, gs)
    ensures gs != [] ==> last == Pos(log.compression, gs, |gs| - 1)
  {
    hide LogIter.Consistent, LogIter.AtEntry, LogIter.Loaded, IsLog, Pos;
    NonEmpty(log, gs);
    FirstIsFirst(gs);
    var iter := new LogIter(log, gs);
    last := 0;
    ghost var p := FIRST;
    while true
      invariant iter.Valid() && iter.state != Invalid && iter.Upcoming() == p && OnPath(gs, p)
      invariant p != FIRST ==> last == Pos(log.compression, gs, Prior(gs, p).group)
      decreases |gs| - p.group, if p.group < |gs| then |gs[p.group].entries| - p.index else 0
    {
      iter.Next();
      if iter.state != Active {
        return;
      }
      CurrentEntry(iter);
      AfterIsNext(gs, p);
      last := iter.blockPosition;
      p := After(gs, p);
    }
  }

  method IsAddressable(h: LogHeader, log: Log, ghost gs: seq<Group>) returns (ok: bool)
    requires Describes(h, log, gs)
    ensures ok <==> Addressable(h, log.compression, gs)
  {
    hide Describes, Pos, Pow2;
    LogDescribed(h, log, gs);
    if h.maxEntriesPerBlock >= 0x8000_0000 || h.numPuts >= 0x1000_0000_0000_0000 {
      return false;
    }
    var last := LastPosition(log, gs);
    var bits := IntLog2(h.maxEntriesPerBlock);
    BitsAreFew(h.maxEntriesPerBlock, bits);
    EmptyLog(h, log, gs);
    ok := |log.data| == LOG_HEADER_SIZE || last < Pow2(64 - bits);
  }

  lemma EmptyLog(h: LogHeader, log: Log, gs: seq<Group>)
    requires Describes(h, log, gs)
    ensures |log.data| == LOG_HEADER_SIZE <==> gs == []
  {
    hide Pos, Puts, PutBytes, LargestKey, LargestValue, Entries, EncodeAll;
    PosBounds(log, gs, 0);
    assert gs[..0] == [];
    FirstPos(log.compression, gs);
  }

  lemma FirstPos(c: Compression, gs: seq<Group>)
    ensures Pos(c, gs, 0) == LOG_HEADER_SIZE
  {
    assert gs[..0] == [];
  }

  lemma LiveLikeFold(gs: seq<Group>, p: Place)
    requires NoEmptyGroups(gs) && OnPath(gs, p)
    ensures LiveAt(gs, p).Keys == Fold(EntriesBefore(gs, p)).Keys && |LiveAt(gs, p)| == |Fold(EntriesBefore(gs, p))|
  {
    hide LiveAt, Fold, EntriesBefore;
    LiveIsFold(gs, p);
    var m, f := LiveAt(gs, p), Fold(EntriesBefore(gs, p));
    assert |m| == |m.Keys| == |f.Keys| == |f|;
  }

  /** Whether every put of a replay would find a free slot: no beginning of the log has more live keys than
      there are slots. */
  method RoomFor(log: Log, capacity: nat, ghost gs: seq<Group>) returns (ok: bool)
    requires IsLog(log, gs)
    ensures NoEmptyGroups(gs) && OnPath(gs, FIRST) && (ok <==> Room(gs, FIRST, capacity))
  {
    hide LogIter.Consistent, LogIter.AtEntry, LogIter.Loaded, EntriesBefore, IsLog, LiveAt, Fold, Room;
    NonEmpty(log, gs);
    FirstIsFirst(gs);
    NothingFolded(gs);
    var iter := new LogIter(log, gs);
    var live: map<Bytes, Bytes> := map[];
    ghost var p := FIRST;
    while true
      invariant iter.Valid() && iter.state != Invalid && iter.Upcoming() == p && OnPath(gs, p)
      invariant live == Fold(EntriesBefore(gs, p)) && (Room(gs, FIRST, capacity) <==> Room(gs, p, capacity))
      decreases |gs| - p.group, if p.group < |gs| then |gs[p.group].entries| - p.index else 0
    {
      iter.Next();
      if iter.state != Active {
        NoRoomNeeded(gs, p, capacity);
        return true;
      }
      CurrentEntry(iter);
      AfterIsNext(gs, p);
      LiveAfter(gs, p);
      LiveLikeFold(gs, p);
      RoomNow(gs, p, capacity);
      var e := ReadEntry(iter);
      FoldAppend(EntriesBefore(gs, p), e);
      if e.Put? && e.key !in live && |live| >= capacity {
        return false;
      }
      live := FoldStep(live, e);
      p := After(gs, p);
    }
  }

  /** Whether the index can be written although the size of the hashes has changed, if it has. */
  method RoomIfResized(old0: HashTable?, hashSize: nat, h: LogHeader, log: Log, ghost gs: seq<Group>) returns (ok: bool)
    requires IsLog(log, gs) && (Usable(old0, h) ==> old0.numPuts <= h.numPuts)
    ensures NoEmptyGroups(gs) && OnPath(gs, FIRST)
    ensures ok <==> (Resized(old0, hashSize, h) ==> Room(gs, FIRST, CapacityFor(old0, h)))
  {
    hide IsLog, Room, Resized, CapacityFor;
    ok := RoomFor(log, CapacityFor(old0, h), gs);
    ok := ok || !Resized(old0, hashSize, h);
  }

  lemma NothingFolded(gs: seq<Group>)
    requires NoEmptyGroups(gs)
    ensures OnPath(gs, FIRST) && Fold(EntriesBefore(gs, FIRST)) == map[]
  {
  }

  lemma NoRoomNeeded(gs: seq<Group>, p: Place, capacity: nat)
    requires NoEmptyGroups(gs) && OnPath(gs, p) && !InLog(gs, p)
    ensures Room(gs, p, capacity)
  {
  }

  /** The log is read and indexed. */
  method ReadAndIndex(log: Log, h: LogHeader, old0: HashTable?, hashSize: nat, randomSeed: Seed, hashes: Hashes,
                      keys: seq<Bytes>, ghost gs: seq<Group>, ghost oldGs: seq<Group>) returns (r: Report, t: HashTable)
    requires Describes(h, log, gs) && Addressable(h, log.compression, gs) && HashesFit(hashes) && hashSize in {0, 4, 8}
    requires GoodOld(old0, h, hashes, log.compression, gs, oldGs)
    requires Resized(old0, hashSize, h) ==> Room(gs, FIRST, CapacityFor(old0, h))
    ensures r.Report? && Truthful(r, Entries(gs), keys)
    ensures IsIndex(t, log.compression, gs) && BelongsTo(t, h.fileIdentifier, hashes) && (t == old0 || fresh(t.slots.bytes))
  {
    hide Describes, IsIndex, Entries, Fold, Contents, IsLog, Room, SizedFor, Surplus, CapacityFor, HashSizeFor,
         Addressable, HashesFit, Ascending, PairsAt, Resized;
    LogDescribed(h, log, gs);
    var entries := ReadAll(log, gs);
    var rc, t' := HashWrite(log, h, old0, hashSize, randomSeed, hashes, gs, oldGs);
    t := t';
    var pairs, places := ReadLive(t, log, gs, gs);
    var answers := LookupAll(t, log, keys, gs);
    r := Report(entries, pairs, answers);
  }

  lemma FormerIsGood(old0: HashTable?, w: LogWriter, log: Log, hashes: Hashes, oldGs: seq<Group>)
    requires FormerIndex(old0, w.fileIdentifier, w.compression, w.groups, hashes, oldGs)
    requires Describes(w.HeaderNow(), log, w.groups) && log.compression == w.compression
    ensures GoodOld(old0, w.HeaderNow(), hashes, log.compression, w.groups, oldGs)
  {
    hide HashTable.Valid, Holds, IndexAt, Entries;
    LogDescribed(w.HeaderNow(), log, w.groups);
    if Usable(old0, w.HeaderNow()) {
      OlderPuts(oldGs, w.groups);
    }
  }

  /** The log is closed, opened, read and indexed. */
  method CloseAndRead(codecs: Codecs, w: LogWriter, old0: HashTable?, hashSize: nat, randomSeed: Seed, hashes: Hashes,
                      keys: seq<Bytes>, ghost oldGs: seq<Group>) returns (r: Report, t: HashTable?)
    requires w.Valid() && Uses(w, codecs) && HashesFit(hashes) && hashSize in {0, 4, 8}
    requires FormerIndex(old0, w.fileIdentifier, w.compression, w.groups, hashes, oldGs)
    requires old0 != null ==> old0.slots.bytes !in w.Repr()
    modifies w.Repr()
    ensures w.Valid() && Uses(w, codecs) && w.Written() == old(w.Written()) && UpToDate(w)
    ensures Ends(old(w.groups), old(w.pending), w.groups, w.pending)
    ensures Outcome(r, w, old0, hashSize) && (r.Report? ==> Truthful(r, w.Written(), keys))
    ensures r.Report? ==>
      && t != null && t.slots.hashSize in {4, 8} && t.slots.bytes !in w.Repr()
      && t.fileIdentifier == w.fileIdentifier && FormerIndex(t, w.fileIdentifier, w.compression, w.groups, hashes, w.groups)
  {
    hide Describes, IsIndex, Entries, Truthful, WriteLogHeader, LogWriter.Valid, Representable, OpenLog, Addressable, Room,
         Resized, CapacityFor, IsLog, NoEmptyGroups;
    t := null;
    var ok := Close(codecs, w);
    if !ok {
      return HeaderTooLarge, null;
    }
    ghost var h, gs := w.HeaderNow(), w.groups;
    CanReopen(codecs, w.file.contents, h, gs);
    OpenComplete(codecs, w.file.contents, h, gs, w.file.All());
    var opened' := OpenLog(codecs, w.file.All());
    if !opened'.Opened? {
      return NotPlausible, null;
    }
    var addressable := IsAddressable(opened'.header, opened'.log, gs);
    if !addressable {
      return NotAddressable, null;
    }
    FormerIsGood(old0, w, opened'.log, hashes, oldGs);
    LogDescribed(opened'.header, opened'.log, gs);
    var room := RoomIfResized(old0, hashSize, opened'.header, opened'.log, gs);
    if !room {
      return NoRoomForHashSize, null;
    }
    r, t := ReadAndIndex(opened'.log, opened'.header, old0, hashSize, randomSeed, hashes, keys, gs, oldGs);
  }

  /** From operations to answers: for every sequence of operations, every compressor that can be undone and
      every hash function, what is read back is what the folded operations say, whether the index is
      written from scratch or from one of an earlier sitting.  The index can serve the next sitting.
      If there is no report, the log was refused after the first n operations, for a reason. */
  method Session(codecs: Codecs, w0: LogWriter, ops: seq<Op>, old0: HashTable?, hashSize: nat, randomSeed: Seed,
                 hashes: Hashes, keys: seq<Bytes>, ghost oldGs: seq<Group>)
    returns (r: Report, w: LogWriter, t: HashTable?, ghost n: nat)
    requires w0.Valid() && Uses(w0, codecs) && AllWritable(w0.compression, ops)
    requires HashesFit(hashes) && hashSize in {0, 4, 8}
    requires FormerIndex(old0, w0.fileIdentifier, w0.compression, w0.groups, hashes, oldGs)
    requires old0 != null ==> old0.slots.bytes !in w0.Repr()
    modifies w0.Repr()
    ensures Continues(w, w0, codecs) && fresh(w.Repr() - w0.Repr())
    ensures n <= |ops| && w.Written() == old(w0.Written()) + Effect(ops[..n]) && (r.Report? ==> ops[..n] == ops)
    ensures UpToDate(w) && Outcome(r, w, old0, hashSize) && (r.Report? ==> Truthful(r, w.Written(), keys))
    ensures r.Report? ==>
      && t != null && t.slots.hashSize in {4, 8} && t.slots.bytes !in w.Repr()
      && t.fileIdentifier == w.fileIdentifier && FormerIndex(t, w.fileIdentifier, w.compression, w.groups, hashes, w.groups)
  {
    hide Describes, IsIndex, Entries, Truthful, WriteLogHeader, LogWriter.Valid, Effect, AllWritable, FormerIndex, Outcome,
         TakenUp, UpToDate, LaidBy;
    t := null;
    ghost var gs, es := w0.groups, w0.pending;
    var run;
    run, n := Run(codecs, w0, ops);
    w := run.writer;
    r := if run.HeaderOverflow? then HeaderTooLarge else NotPlausible;
    StoppedOutcome(run, r, old0, hashSize);
    if run.Done? {
      LaidAppends(w0.compression, gs, es, ops[..n], w.groups, w.pending);
      StaysFormer(old0, w0.fileIdentifier, w0.compression, gs, hashes, oldGs, w.groups);
      r, t := CloseAndRead(codecs, w, old0, hashSize, randomSeed, hashes, keys, oldGs);
    }
  }

  /** A run that stopped early is the reason why there is no report. */
  lemma StoppedOutcome(run: RunResult, r: Report, old0: HashTable?, hashSize: nat)
    requires !run.Done? ==> TakenUp(run) && r == if run.HeaderOverflow? then HeaderTooLarge else NotPlausible
    ensures !run.Done? ==> Outcome(r, run.writer, old0, hashSize)
  {
    hide Representable, Plausible, Addressable;
  }

  /** A new log is written and indexed, appended to, and indexed again from the first index. */
  method TwoSittings(codecs: Codecs, compressionType: nat, blockSize: int, fileIdentifier: nat, hashes: Hashes,
                     hashSize: nat, randomSeed: Seed, ops1: seq<Op>, ops2: seq<Op>, keys: seq<Bytes>)
    returns (r1: Report, r2: Report, w: LogWriter, t: HashTable?)
    requires compressionType <= MAX_TYPE && blockSize < 0x8000_0000 && fileIdentifier < 0x1_0000_0000
    requires compressionType != 0 ==> blockSize >= MIN_BLOCK_SIZE
    requires Sound(Chosen(codecs, compressionType, blockSize)) && HashesFit(hashes) && hashSize in {0, 4, 8}
    requires AllWritable(Chosen(codecs, compressionType, blockSize), ops1 + ops2)
    ensures if r1.Report? then t != null && Truthful(r1, Effect(ops1), keys) else r2 == r1 && Outcome(r1, w, null, hashSize)
    ensures r1.Report? ==>
      Outcome(r2, w, t, hashSize) && (r2.Report? ==> Truthful(r2, Effect(ops1) + Effect(ops2), keys))
  {
    hide Describes, IsIndex, Truthful, WriteLogHeader, LogWriter.Valid, Effect, Sound, FormerIndex, IsComplete,
         AllWritable, Fold, Outcome;
    BothWritable(Chosen(codecs, compressionType, blockSize), ops1, ops2);
    var created := Create(codecs, compressionType, blockSize, fileIdentifier);
    FormerNone(created.writer, hashes);
    var unused: HashTable?;
    ghost var n;
    r1, w, t, n := Session(codecs, created.writer, ops1, null, hashSize, randomSeed, hashes, keys, []);
    r2 := r1;
    assert [] + Effect(ops1) == Effect(ops1);
    if r1.Report? {
      r2, w, unused, n := Session(codecs, w, ops2, t, hashSize, randomSeed, hashes, keys, w.groups);
    }
  }

  /** The index of one log is refused with another one, whatever was written to either, if their identifiers differ. */
  method IndexOfOther(codecs: Codecs, compressionType: nat, blockSize: int, id1: nat, id2: nat, hashes: Hashes,
                      hashSize: nat, randomSeed: Seed, ops1: seq<Op>, ops2: seq<Op>)
    returns (r: Report, other: RunResult, t: HashTable?)
    requires compressionType <= MAX_TYPE && blockSize < 0x8000_0000 && id1 < 0x1_0000_0000 && id2 < 0x1_0000_0000
    requires compressionType != 0 ==> blockSize >= MIN_BLOCK_SIZE
    requires Sound(Chosen(codecs, compressionType, blockSize)) && HashesFit(hashes) && hashSize in {0, 4, 8}
    requires AllWritable(Chosen(codecs, compressionType, blockSize), ops1 + ops2) && id1 != id2
    ensures r.Report? ==>
      t != null && OpenIndex(HeaderOf(t), other.writer.HeaderNow(), |FileOf(t)|) == FileIdentifierMismatch
    ensures other.Done? ==> UpToDate(other.writer) && other.writer.Written() == Effect(ops2)
  {
    hide Describes, IsIndex, Truthful, LogWriter.Valid, Effect, Sound, FormerIndex, IsComplete, AllWritable, Fold, Outcome,
         UpToDate, LaidBy, TakenUp, FileOf, OpenIndex;
    BothWritable(Chosen(codecs, compressionType, blockSize), ops1, ops2);
    var created := Create(codecs, compressionType, blockSize, id1);
    FormerNone(created.writer, hashes);
    other := WriteNew(codecs, compressionType, blockSize, id2, ops2);
    var w;
    ghost var n;
    r, w, t, n := Session(codecs, created.writer, ops1, null, hashSize, randomSeed, hashes, [], []);
    if r.Report? {
      OtherRefused(t, w, other.writer, hashes);
    }
  }

  lemma OtherRefused(t: HashTable, w: LogWriter, w2: LogWriter, hashes: Hashes)
    requires t.fileIdentifier == w.fileIdentifier != w2.fileIdentifier
    requires FormerIndex(t, w.fileIdentifier, w.compression, w.groups, hashes, w.groups)
    ensures OpenIndex(HeaderOf(t), w2.HeaderNow(), |FileOf(t)|) == FileIdentifierMismatch
  {
    hide IsIndex, Describes, FileOf, BelongsTo;
    IndexOpensLater(t, w.compression, w2.HeaderNow(), Log(w.compression, [], 0), w.groups, []);
  }

  lemma BothWritable(c: Compression, ops1: seq<Op>, ops2: seq<Op>)
    requires AllWritable(c, ops1 + ops2)
    ensures AllWritable(c, ops1) && AllWritable(c, ops2)
  {
    forall i | 0 <= i < |ops1| ensures forall e :: e in EntryOf(ops1[i]) ==> Writable(c, e) {
      assert (ops1 + ops2)[i] == ops1[i];
    }
    forall i | 0 <= i < |ops2| ensures forall e :: e in EntryOf(ops2[i]) ==> Writable(c, e) {
      assert (ops1 + ops2)[|ops1| + i] == ops2[i];
    }
  }

  lemma FormerNone(w: LogWriter, hashes: Hashes)
    ensures FormerIndex(null, w.fileIdentifier, w.compression, w.groups, hashes, [])
  {
  }
}
