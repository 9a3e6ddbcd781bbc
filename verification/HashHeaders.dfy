/** The header of the index file. */
module HashHeaders {
  import opened Vlq
  import opened LogFormat
  import opened LittleEndian
  import opened Liveness
  import opened LogHeaders
  import opened LogWriter
  import opened HashTables
  import opened HashStats
  import opened HashBuilder
  import opened HashWriter
  import opened Index
  import opened SlotArrays

  const HASH_MAGIC: nat := 0x9a11318f
  const HASH_MAJOR: nat := 1
  const HASH_MINOR: nat := 1
  const HASH_HEADER_SIZE: nat := 112

  datatype HashHeader = HashHeader(
    fileIdentifier: nat, hashSeed: nat, dataEnd: nat, maxKeyLen: nat, maxValueLen: nat, numPuts: nat, garbageSize: nat,
    numEntries: nat, addressSize: nat, hashSize: nat, hashCapacity: nat, maxDisplacement: nat, entryBlockBits: nat,
    hashCollisions: nat, totalDisplacement: nat)

  datatype LoadHashResult =
    | HashLoaded(header: HashHeader) | HashUnexpectedEof | WrongHashMagic | WrongHashMajor | UnsupportedHashMinor
    | HashHeaderCorrupt

  const HASH_WIDTHS: seq<nat> := [4, 4, 4, 4, 4, 8, 8, 8, 8, 8, 8, 4, 4, 8, 8, 4, 8, 8]

  function HashValues(h: HashHeader): (v: seq<nat>)
    ensures |v| == |HASH_WIDTHS|
  {
    [HASH_MAGIC, HASH_MAJOR, HASH_MINOR, h.fileIdentifier, h.hashSeed, h.dataEnd, h.maxKeyLen, h.maxValueLen, h.numPuts,
     h.garbageSize, h.numEntries, h.addressSize, h.hashSize, h.hashCapacity, h.maxDisplacement, h.entryBlockBits,
     h.hashCollisions, h.totalDisplacement]
  }

  predicate HashRepresentable(h: HashHeader) {
    Fit(HashValues(h), HASH_WIDTHS)
  }

  lemma {:induction false} TotalSame(widths: seq<nat>, w: nat)
    requires forall k :: 0 <= k < |widths| ==> widths[k] == w
    ensures Total(widths) == w * |widths|
  {
    if widths != [] {
      TotalSame(widths[1..], w);
      assert w * |widths| == w + w * |widths[1..]|;
    }
  }

  lemma HashHeaderSize()
    ensures Total(HASH_WIDTHS) == HASH_HEADER_SIZE
  {
    hide Total;
    var a, b, c, d, e, f := HASH_WIDTHS[..5], HASH_WIDTHS[5..11], HASH_WIDTHS[11..13], HASH_WIDTHS[13..15],
      HASH_WIDTHS[15..16], HASH_WIDTHS[16..];
    TotalSame(a, 4);
    TotalSame(b, 8);
    TotalSame(c, 4);
    TotalSame(d, 8);
    TotalSame(e, 4);
    TotalSame(f, 8);
    TotalAppend(a, b);
    TotalAppend(a + b, c);
    TotalAppend(a + b + c, d);
    TotalAppend(a + b + c + d, e);
    TotalAppend(a + b + c + d + e, f);
    assert HASH_WIDTHS == a + b + c + d + e + f;
  }

  function WriteHashHeader(h: HashHeader): (s: Bytes)
    ensures |s| == HASH_HEADER_SIZE
  {
    HashHeaderSize();
    WriteRecord(HashValues(h), HASH_WIDTHS)
  }

  /** Basic consistency checks on loading. */
  predicate HashPlausible(h: HashHeader) {
    h.hashSize in {4, 8} && h.numEntries <= h.numPuts && h.maxDisplacement <= h.numEntries && h.hashCollisions <= h.numEntries
  }

  function LoadHashHeader(file: Bytes): LoadHashResult {
    if |file| < HASH_HEADER_SIZE then HashUnexpectedEof
    else
      HashHeaderSize();
      var v := ReadRecord(file, HASH_WIDTHS);
      if v[0] != HASH_MAGIC then WrongHashMagic
      else if v[1] != HASH_MAJOR then WrongHashMajor
      else if v[2] > HASH_MINOR then UnsupportedHashMinor
      else
        var h := HashHeader(v[3], v[4], v[5], v[6], v[7], v[8], v[9], v[10], v[11], v[12], v[13], v[14], v[15], v[16], v[17]);
        if HashPlausible(h) then HashLoaded(h) else HashHeaderCorrupt
  }

  /** A written header is loaded back exactly when it passes the checks. */
  lemma LoadWrittenHash(h: HashHeader, rest: Bytes)
    requires HashRepresentable(h)
    ensures LoadHashHeader(WriteHashHeader(h) + rest) == if HashPlausible(h) then HashLoaded(h) else HashHeaderCorrupt
  {
    hide Total, WriteRecord, ReadRecord;
    HashHeaderSize();
    RecordRoundTrip(HashValues(h), HASH_WIDTHS, rest);
  }

  // ---- Where the fields are ----

  const HASH_OFFSETS: seq<nat> := [0, 4, 8, 12, 16, 20, 28, 36, 44, 52, 60, 68, 72, 76, 84, 92, 96, 104]

  lemma {:induction false} HashOffsetsAre(k: nat)
    requires k < |HASH_WIDTHS|
    ensures FieldOffset(HASH_WIDTHS, k) == HASH_OFFSETS[k]
  {
    if k > 0 {
      HashOffsetsAre(k - 1);
    }
  }

  /** Each field of the index header at its place in the file. */
  lemma HashHeaderBytes(h: HashHeader)
    ensures var s := WriteHashHeader(h);
      && s[0..4] == [0x8f, 0x31, 0x11, 0x9a] && s[4..8] == [1, 0, 0, 0] && s[8..12] == [1, 0, 0, 0]
      && s[12..16] == ToBytes(h.fileIdentifier, 4) && s[16..20] == ToBytes(h.hashSeed, 4)
      && s[20..28] == ToBytes(h.dataEnd, 8) && s[28..36] == ToBytes(h.maxKeyLen, 8)
      && s[36..44] == ToBytes(h.maxValueLen, 8) && s[44..52] == ToBytes(h.numPuts, 8)
      && s[52..60] == ToBytes(h.garbageSize, 8) && s[60..68] == ToBytes(h.numEntries, 8)
      && s[68..72] == ToBytes(h.addressSize, 4) && s[72..76] == ToBytes(h.hashSize, 4)
      && s[76..84] == ToBytes(h.hashCapacity, 8) && s[84..92] == ToBytes(h.maxDisplacement, 8)
      && s[92..96] == ToBytes(h.entryBlockBits, 4) && s[96..104] == ToBytes(h.hashCollisions, 8)
      && s[104..112] == ToBytes(h.totalDisplacement, 8)
  {
    hide WriteHashHeader, ToBytes;
    HashConstantBytes();
    HashFieldHere(h, 0);
    HashFieldHere(h, 1);
    HashFieldHere(h, 2);
    HashFieldHere(h, 3);
    HashFieldHere(h, 4);
    HashFieldHere(h, 5);
    HashFieldHere(h, 6);
    HashFieldHere(h, 7);
    HashFieldHere(h, 8);
    HashFieldHere(h, 9);
    HashFieldHere(h, 10);
    HashFieldHere(h, 11);
    HashFieldHere(h, 12);
    HashFieldHere(h, 13);
    HashFieldHere(h, 14);
    HashFieldHere(h, 15);
    HashFieldHere(h, 16);
    HashFieldHere(h, 17);
  }

  lemma HashFieldHere(h: HashHeader, k: nat)
    requires k < |HASH_WIDTHS|
    ensures var at := HASH_OFFSETS[k];
            at + HASH_WIDTHS[k] <= |WriteHashHeader(h)|
            && WriteHashHeader(h)[at..at + HASH_WIDTHS[k]] == ToBytes(HashValues(h)[k], HASH_WIDTHS[k])
  {
    hide Total, WriteRecord, FieldOffset, ToBytes;
    HashHeaderSize();
    HashOffsetsAre(k);
    FieldAt(HashValues(h), HASH_WIDTHS, k);
  }

  lemma HashConstantBytes()
    ensures ToBytes(HASH_MAGIC, 4) == [0x8f, 0x31, 0x11, 0x9a] && ToBytes(HASH_MAJOR, 4) == [1, 0, 0, 0]
    ensures ToBytes(HASH_MINOR, 4) == [1, 0, 0, 0]
  {
  }

  /** What loading makes of any file: each field is read from its place, and the checks are made in this order. */
  lemma HashLoadsByOffset(file: Bytes)
    ensures LoadHashHeader(file) ==
      if |file| < 112 then HashUnexpectedEof
      else if FromBytes(file[0..4]) != 0x9a11318f then WrongHashMagic
      else if FromBytes(file[4..8]) != 1 then WrongHashMajor
      else if FromBytes(file[8..12]) > 1 then UnsupportedHashMinor
      else var h := HashHeader(
        FromBytes(file[12..16]), FromBytes(file[16..20]), FromBytes(file[20..28]), FromBytes(file[28..36]),
        FromBytes(file[36..44]), FromBytes(file[44..52]), FromBytes(file[52..60]), FromBytes(file[60..68]),
        FromBytes(file[68..72]), FromBytes(file[72..76]), FromBytes(file[76..84]), FromBytes(file[84..92]),
        FromBytes(file[92..96]), FromBytes(file[96..104]), FromBytes(file[104..112]));
        if (h.hashSize == 4 || h.hashSize == 8) && h.numEntries <= h.numPuts
           && Larger(h.maxDisplacement, h.hashCollisions) <= h.numEntries then HashLoaded(h) else HashHeaderCorrupt
  {
    hide Total, ReadRecord, FieldOffset, FromBytes;
    HashHeaderSize();
    if |file| >= HASH_HEADER_SIZE {
      forall k | 0 <= k < |HASH_WIDTHS|
        ensures ReadRecord(file, HASH_WIDTHS)[k] == FromBytes(file[HASH_OFFSETS[k]..HASH_OFFSETS[k] + HASH_WIDTHS[k]])
      {
        HashOffsetsAre(k);
        FieldRead(file, HASH_WIDTHS, k);
      }
    }
  }

  // ---- The header of a table ----

  function HeaderOf(t: HashTable): HashHeader
    reads t
  {
    HashHeader(t.fileIdentifier, t.hashSeed, t.dataEnd, t.maxKeyLen, t.maxValueLen, t.numPuts, t.garbageSize, t.numEntries,
               t.slots.addressSize, t.slots.hashSize, t.Capacity(), t.maxDisplacement, t.entryBlockBits, t.hashCollisions,
               t.totalDisplacement)
  }

  /** The index file. */
  function FileOf(t: HashTable): Bytes
    reads t, t.slots.bytes
  {
    WriteHashHeader(HeaderOf(t)) + t.slots.bytes[..]
  }

  /** The numbers of a table at their places in the index file. */
  lemma IndexFileBytes(t: HashTable)
    ensures var s := WriteHashHeader(HeaderOf(t));
      && FileOf(t) == s + t.slots.bytes[..] && s[0..4] == [0x8f, 0x31, 0x11, 0x9a]
      && s[12..16] == ToBytes(t.fileIdentifier, 4) && s[16..20] == ToBytes(t.hashSeed, 4)
      && s[20..28] == ToBytes(t.dataEnd, 8) && s[28..36] == ToBytes(t.maxKeyLen, 8)
      && s[36..44] == ToBytes(t.maxValueLen, 8) && s[44..52] == ToBytes(t.numPuts, 8)
      && s[52..60] == ToBytes(t.garbageSize, 8) && s[60..68] == ToBytes(t.numEntries, 8)
      && s[68..72] == ToBytes(t.slots.addressSize, 4) && s[72..76] == ToBytes(t.slots.hashSize, 4)
      && s[76..84] == ToBytes(t.Capacity(), 8) && s[84..92] == ToBytes(t.maxDisplacement, 8)
      && s[92..96] == ToBytes(t.entryBlockBits, 4) && s[96..104] == ToBytes(t.hashCollisions, 8)
      && s[104..112] == ToBytes(t.totalDisplacement, 8)
  {
    hide WriteHashHeader, ToBytes;
    HashHeaderBytes(HeaderOf(t));
  }

  /** A slot as bytes: the hash and then the address, both 0 if it is free. */
  ghost predicate SlotIs(bytes: Bytes, at: nat, x: Cell, hashSize: nat, addressSize: nat, bits: nat) {
    && at + hashSize + addressSize <= |bytes|
    && FromBytes(bytes[at..at + hashSize]) == (if x.Used? then x.hash else 0)
    && FromBytes(bytes[at + hashSize..at + hashSize + addressSize])
       == if x.Used? then x.position * Pow2(bits) + x.place.index else 0
  }

  /** The index file behind its header: each slot at its place, none between them. */
  lemma SlotBytes(t: HashTable, i: nat, at: nat)
    requires t.Valid() && i < |t.cells| && at == i * t.slots.SlotSize()
    ensures FileOf(t)[HASH_HEADER_SIZE..] == t.slots.bytes[..]
    ensures SlotIs(t.slots.bytes[..], at, t.cells[i], t.slots.hashSize, t.slots.addressSize, t.entryBlockBits)
  {
    hide RobinHood.Valid, FromBytes, WriteHashHeader, Pow2, SlotPos;
    SlotPosIsProduct(i, t.slots.SlotSize());
    assert HoldsAt(t.slots.bytes[..], i, t.slots.slots[i], t.slots.hashSize, t.slots.addressSize);
    assert t.slots.slots[i] == SlotOf(t.cells[i], t.entryBlockBits);
  }

  lemma Products(a: nat, b: nat, n: nat)
    requires a <= n && b <= n && n < 0x1_0000_0000
    ensures a * b < TWO_64
  {
    assert a * b <= n * b;
    assert n * b <= n * n;
    assert n * n <= n * 0x1_0000_0000;
  }

  /** The total displacement fits 64 bits for less than 2^32 puts. */
  lemma TotalFits(t: HashTable, c: Compression, gs: seq<Group>)
    requires IsIndex(t, c, gs) && t.numPuts < 0x1_0000_0000
    ensures t.totalDisplacement < TWO_64 && t.Capacity() < TWO_63
  {
    hide Holds, RobinHood.Valid, LiveAt;
    FreeOf(t);
    TotalBound(t.cells, |t.cells|, t.maxDisplacement);
    UsedInAll(t.cells);
    Products(t.maxDisplacement, t.numEntries, t.numPuts);
  }

  lemma FreeOf(t: HashTable)
    requires t.Valid()
    ensures 0 < |t.cells| == t.Capacity() < TWO_63 && t.numEntries == |t.cells| - multiset(t.cells)[Free]
  {
  }

  /** The garbage fits 64 bits if all encoded entries and the surplus do. */
  lemma GarbageFits(t: HashTable, h: LogHeader, log: Log, gs: seq<Group>)
    requires Describes(h, log, gs) && IsIndex(t, log.compression, gs)
    requires h.putSize + h.deleteSize + Surplus(t, gs) < TWO_64
    ensures t.garbageSize < TWO_64
  {
    hide IsLog, HashTable.Valid, Holds, EncodeAll, LiveAt;
  }

  /** The numbers of an index header fit their fields exactly if garbage and total displacement do. */
  lemma IndexHeaderFitsIff(t: HashTable, h: LogHeader, hashes: Hashes, log: Log, gs: seq<Group>)
    requires Describes(h, log, gs) && IsIndex(t, log.compression, gs) && BelongsTo(t, h.fileIdentifier, hashes)
    requires Representable(h)
    ensures HashRepresentable(HeaderOf(t)) <==> t.garbageSize < TWO_64 && t.totalDisplacement < TWO_64
  {
    hide Pow256, IsLog, HashTable.Valid, Holds, LiveAt, Total, EncodeAll, Entries, LargestKey, LargestValue, Puts, PutBytes;
    Widths();
    LogDescribed(h, log, gs);
    PosBounds(log, gs, |gs|);
    FreeOf(t);
    LogFields(h);
    hide HashRepresentable;
    HashFieldsFit(HeaderOf(t));
  }

  lemma HashFieldsFit(h: HashHeader)
    requires h.fileIdentifier < 0x1_0000_0000 && h.hashSeed < 0x1_0000_0000 && h.dataEnd < TWO_64 && h.maxKeyLen < TWO_64
    requires h.maxValueLen < TWO_64 && h.numPuts < TWO_64 && h.numEntries < TWO_64 && h.addressSize < 0x1_0000_0000
    requires h.hashSize < 0x1_0000_0000 && h.hashCapacity < TWO_64 && h.maxDisplacement < TWO_64
    requires h.entryBlockBits < 0x1_0000_0000 && h.hashCollisions < TWO_64
    ensures HashRepresentable(h) <==> h.garbageSize < TWO_64 && h.totalDisplacement < TWO_64
  {
    hide Pow256;
    Widths();
    var v := HashValues(h);
    if HashRepresentable(h) {
      assert v[9] < Pow256(HASH_WIDTHS[9]) && v[17] < Pow256(HASH_WIDTHS[17]);
    }
  }

  lemma LogFields(h: LogHeader)
    requires Representable(h)
    ensures h.fileIdentifier < 0x1_0000_0000 && h.dataEnd < TWO_64 && h.maxKeyLen < TWO_64 && h.maxValueLen < TWO_64
    ensures h.numPuts < TWO_64
  {
    hide Pow256;
    Widths();
    var v := Values(h);
    assert v[3] < Pow256(WIDTHS[3]) && v[4] < Pow256(WIDTHS[4]) && v[6] < Pow256(WIDTHS[6]);
    assert v[7] < Pow256(WIDTHS[7]) && v[8] < Pow256(WIDTHS[8]);
  }

  /** Whatever is loaded fits the fields. */
  lemma LoadedHashFits(file: Bytes, h: HashHeader)
    requires LoadHashHeader(file) == HashLoaded(h)
    ensures HashRepresentable(h)
  {
    hide Total, ReadRecord, HashPlausible, Pow256;
    Widths();
    HashHeaderSize();
    ReadsFit(file, HASH_WIDTHS);
    var v, w := ReadRecord(file, HASH_WIDTHS), HashValues(h);
    assert v[2 := HASH_MINOR] == w;
    forall k | 0 <= k < |w| ensures w[k] < Pow256(HASH_WIDTHS[k]) {
      assert k == 2 || w[k] == v[k];
    }
  }

  /** An index the builder wrote for a log whose header fits is loaded again, all of its header and the table
      behind it, exactly if its garbage and its total displacement fit 64 bits. */
  lemma IndexLoadsIff(t: HashTable, h: LogHeader, hashes: Hashes, log: Log, gs: seq<Group>)
    requires Describes(h, log, gs) && IsIndex(t, log.compression, gs) && BelongsTo(t, h.fileIdentifier, hashes)
    requires Representable(h)
    ensures LoadHashHeader(FileOf(t)) == HashLoaded(HeaderOf(t)) <==> t.garbageSize < TWO_64 && t.totalDisplacement < TWO_64
    ensures FileOf(t)[HASH_HEADER_SIZE..] == t.slots.bytes[..]
  {
    hide WriteHashHeader, LoadHashHeader, HashRepresentable, HashTable.Valid, Describes, Representable, LiveAt, Holds;
    IndexHeaderFitsIff(t, h, hashes, log, gs);
    if HashRepresentable(HeaderOf(t)) {
      LoadWrittenHash(HeaderOf(t), t.slots.bytes[..]);
    } else if LoadHashHeader(FileOf(t)) == HashLoaded(HeaderOf(t)) {
      LoadedHashFits(FileOf(t), HeaderOf(t));
    }
  }

  /** So it is for less than 2^32 puts, if all encoded entries and the surplus of garbage fit 64 bits. */
  lemma IndexLoads(t: HashTable, h: LogHeader, hashes: Hashes, log: Log, gs: seq<Group>)
    requires Describes(h, log, gs) && IsIndex(t, log.compression, gs) && BelongsTo(t, h.fileIdentifier, hashes)
    requires Representable(h)
    requires h.putSize + h.deleteSize + Surplus(t, gs) < TWO_64 && h.numPuts < 0x1_0000_0000
    ensures LoadHashHeader(FileOf(t)) == HashLoaded(HeaderOf(t))
  {
    hide LoadHashHeader, HashRepresentable, HashTable.Valid, Representable, LiveAt, Holds, FileOf, IsLog;
    IndexLoadsIff(t, h, hashes, log, gs);
    GarbageFits(t, h, log, gs);
    TotalFits(t, log.compression, gs);
  }

  // ---- Opening an index together with its log ----

  datatype OpenIndexResult = IndexOpened | FileIdentifierMismatch | IndexCorrupt | IndexTooSmall

  /** The headers of both files and the size of the index file are compared. */
  function OpenIndex(header: HashHeader, log: LogHeader, fileSize: nat): OpenIndexResult {
    if header.fileIdentifier != log.fileIdentifier then FileIdentifierMismatch
    else if header.dataEnd > log.dataEnd then IndexCorrupt
    else if header.maxKeyLen > log.maxKeyLen then IndexCorrupt
    else if header.maxValueLen > log.maxValueLen then IndexCorrupt
    else if HASH_HEADER_SIZE + header.hashCapacity * (header.hashSize + header.addressSize) > fileSize then IndexTooSmall
    else IndexOpened
  }

  lemma {:induction false} LargestGrows(es: seq<Entry>, more: seq<Entry>)
    requires es <= more
    ensures LargestKey(es) <= LargestKey(more) && LargestValue(es) <= LargestValue(more)
    decreases |more|
  {
    if |es| < |more| {
      LargestGrows(es, more[..|more| - 1]);
    } else {
      assert es == more;
    }
  }

  lemma EntriesGrow(old0: seq<Group>, gs: seq<Group>)
    requires old0 <= gs
    ensures Entries(old0) <= Entries(gs)
  {
    EntriesAppend(old0, gs[|old0|..]);
    assert gs == old0 + gs[|old0|..];
  }

  lemma FileSize(t: HashTable)
    requires t.Valid()
    ensures |FileOf(t)| == HASH_HEADER_SIZE + t.Capacity() * (t.slots.hashSize + t.slots.addressSize)
  {
    hide WriteHashHeader;
    SlotPosIsProduct(t.Capacity(), t.slots.SlotSize());
    assert t.slots.bytes.Length == SlotPos(t.Capacity(), t.slots.SlotSize());
  }

  lemma IndexSays(t: HashTable, c: Compression, indexed: seq<Group>)
    requires IsIndex(t, c, indexed)
    ensures t.Valid() && t.dataEnd == Pos(c, indexed, |indexed|)
    ensures t.maxKeyLen == LargestKey(Entries(indexed)) && t.maxValueLen == LargestValue(Entries(indexed))
  {
    hide HashTable.Valid, Holds, LiveAt, IndexAt;
    assert IndexAt(t, c, indexed, End(indexed));
    IndexFacts(t, c, indexed);
  }

  /** An index can be opened with its log in every later state, and with no log of another identifier. */
  lemma IndexOpensLater(t: HashTable, c: Compression, h: LogHeader, log: Log, indexed: seq<Group>, gs: seq<Group>)
    requires IsIndex(t, c, indexed)
    ensures t.fileIdentifier != h.fileIdentifier ==> OpenIndex(HeaderOf(t), h, |FileOf(t)|) == FileIdentifierMismatch
    ensures t.fileIdentifier == h.fileIdentifier && c == log.compression && Describes(h, log, gs) && indexed <= gs ==>
      OpenIndex(HeaderOf(t), h, |FileOf(t)|) == IndexOpened
  {
    hide HashTable.Valid, LargestKey, LargestValue, Entries, Puts, PutBytes, EncodeAll, Pos, IsLog, FileOf, Describes,
         IsIndex;
    IndexSays(t, c, indexed);
    FileSize(t);
    if c == log.compression && Describes(h, log, gs) && indexed <= gs {
      LogDescribed(h, log, gs);
      LengthsDescribed(h, log, gs);
      EntriesGrow(indexed, gs);
      LargestGrows(Entries(indexed), Entries(gs));
      SamePos(c, indexed, gs, |indexed|);
      PosBounds(log, gs, |indexed|);
    }
  }

  /** With the identifier of the log an index opens exactly if it covers no more of the log than there is, the lengths
      it records are no larger than those of the log, and the file is all there. */
  lemma IndexOpensIff(t: HashTable, c: Compression, h: LogHeader, log: Log, indexed: seq<Group>, gs: seq<Group>, size: nat)
    requires IsIndex(t, c, indexed) && Describes(h, log, gs) && t.fileIdentifier == h.fileIdentifier
    ensures OpenIndex(HeaderOf(t), h, size) == IndexOpened <==>
      && Pos(c, indexed, |indexed|) <= |log.data| && |FileOf(t)| <= size
      && LargestKey(Entries(indexed)) <= LargestKey(Entries(gs))
      && LargestValue(Entries(indexed)) <= LargestValue(Entries(gs))
  {
    hide HashTable.Valid, LargestKey, LargestValue, Entries, Puts, PutBytes, EncodeAll, Pos, IsLog, FileOf, Describes,
         IsIndex, NoEmptyGroups;
    IndexSays(t, c, indexed);
    FileSize(t);
    LogDescribed(h, log, gs);
    LengthsDescribed(h, log, gs);
  }

  /** An index of a later state of the log is refused with an earlier one. */
  lemma LaterIndexRefused(t: HashTable, later: Log, indexed: seq<Group>, h: LogHeader, log: Log, gs: seq<Group>)
    requires IsLog(later, indexed) && IsIndex(t, later.compression, indexed) && t.fileIdentifier == h.fileIdentifier
    requires Describes(h, log, gs) && log.compression == later.compression && gs < indexed
    ensures OpenIndex(HeaderOf(t), h, |FileOf(t)|) == IndexCorrupt
  {
    hide HashTable.Valid, LargestKey, LargestValue, Entries, Puts, PutBytes, EncodeAll, Pos, FileOf, Describes, IsIndex;
    IndexSays(t, later.compression, indexed);
    LogDescribed(h, log, gs);
    PosBounds(log, gs, |gs|);
    SamePos(log.compression, gs, indexed, |gs|);
    PosGrows(log.compression, indexed, |gs|, |indexed|);
  }

  lemma LengthsDescribed(h: LogHeader, log: Log, gs: seq<Group>)
    requires Describes(h, log, gs)
    ensures h.maxKeyLen == LargestKey(Entries(gs)) && h.maxValueLen == LargestValue(Entries(gs))
  {
  }
}
