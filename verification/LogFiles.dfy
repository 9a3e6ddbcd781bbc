/** Creating log files, and opening them again for reading or for appending. */
module LogFiles {
  import opened Vlq
  import opened LittleEndian
  import opened LogFormat
  import opened Buf
  import opened LogHeaders
  import opened LogWriter

  /** The compression libraries: for each type a compress and a decompress function. */
  datatype Codec = Codec(compress: Bytes -> Bytes, decompress: Bytes -> Bytes)

  type Codecs = nat -> Codec

  /** Compression type 0 is none. */
  function CompressionOf(codecs: Codecs, compressionType: nat, blockSize: nat): Compression {
    if compressionType == 0 then Plain
    else Packed(codecs(compressionType).compress, codecs(compressionType).decompress, blockSize)
  }

  function LogOf(codecs: Codecs, h: LogHeader, data: Bytes): Log {
    Log(CompressionOf(codecs, h.compressionType, h.blockSize), data, h.maxEntriesPerBlock)
  }

  /** A complete file: a header and the log it describes. */
  ghost predicate IsComplete(codecs: Codecs, file: Bytes, h: LogHeader, gs: seq<Group>) {
    && Representable(h) && Describes(h, LogOf(codecs, h, file), gs)
    && |file| >= LOG_HEADER_SIZE && file[..LOG_HEADER_SIZE] == WriteLogHeader(h)
  }

  // ---- Opening for reading ----

  datatype OpenResult = Opened(header: LogHeader, log: Log) | BadHeader(why: LoadResult) | TooSmall

  function OpenLog(codecs: Codecs, file: Bytes): OpenResult {
    match LoadLogHeader(file)
    case Loaded(h) => if h.dataEnd > |file| then TooSmall else Opened(h, LogOf(codecs, h, file[..h.dataEnd]))
    case why => BadHeader(why)
  }

  /** A file that was complete and may have grown since is opened as it was complete, exactly when its
      counters are not larger than its length was. */
  lemma OpenComplete(codecs: Codecs, file: Bytes, h: LogHeader, gs: seq<Group>, now: Bytes)
    requires IsComplete(codecs, file, h, gs) && file <= now
    ensures OpenLog(codecs, now) ==
      if h.numPuts <= h.dataEnd && h.numDeletes <= h.dataEnd then Opened(h, LogOf(codecs, h, file)) else BadHeader(Corrupt)
  {
    hide WriteLogHeader, LoadLogHeader, Representable;
    assert now == WriteLogHeader(h) + now[LOG_HEADER_SIZE..] by {
      assert file[..LOG_HEADER_SIZE] == now[..LOG_HEADER_SIZE];
    }
    LoadWritten(h, now[LOG_HEADER_SIZE..]);
    assert now[..|file|] == file;
  }

  // ---- When the counters are small enough ----

  lemma {:induction false} EveryEntryTakesSpace(es: seq<Entry>)
    ensures |es| <= |EncodeAll(es)| && Puts(es) <= |es|
  {
    if es != [] {
      EveryEntryTakesSpace(es[1..]);
    }
  }

  lemma GroupsTail(c: Compression, gs: seq<Group>)
    requires AreGroups(c, gs) && gs != []
    ensures AreGroups(c, gs[1..]) && IsGroup(c, gs[0])
  {
    hide IsGroup;
    assert IsGroup(c, gs[0]);
    forall g | 0 <= g < |gs[1..]| ensures IsGroup(c, gs[1..][g]) {
      assert IsGroup(c, gs[g + 1]);
    }
  }

  /** Without compression the file is as long as its header and its encoded entries. */
  lemma {:induction false} PlainImage(c: Compression, gs: seq<Group>)
    requires c.Plain? && AreGroups(c, gs)
    ensures Image(c, gs) == EncodeAll(Entries(gs))
  {
    hide EncodeAll, Concat, Start, Header;
    if gs == [] {
      EncodeNone();
    } else {
      GroupsTail(c, gs);
      PlainImage(c, gs[1..]);
      OneBlock(c, gs[0].blocks[0]);
      assert gs[0].blocks == [gs[0].blocks[0]];
      EncodeAllAppend(gs[0].entries, Entries(gs[1..]));
    }
  }

  /** An uncompressed log can always be opened again. */
  lemma PlainAlwaysOpens(h: LogHeader, log: Log, gs: seq<Group>)
    requires Describes(h, log, gs) && log.compression.Plain?
    ensures Plausible(h)
  {
    hide EncodeAll, Entries, Image, Puts, AreGroups;
    PlainImage(log.compression, gs);
    EveryEntryTakesSpace(Entries(gs));
  }

  // ---- A compressed log that cannot be opened again ----

  const TINY: Entry := Put([], [])

  function Tinies(n: nat): seq<Entry> {
    seq(n, _ => TINY)
  }

  const TINY_BLOCK: Bytes := EncodeAll(Tinies(100))

  /** A compressor that has a short form for one block of a hundred empty puts. */
  function Squeeze(b: Bytes): Bytes {
    if b == TINY_BLOCK then [0] else [1] + b
  }

  function Unsqueeze(b: Bytes): Bytes {
    if b == [0] then TINY_BLOCK else if b != [] then b[1..] else []
  }

  const SQUEEZE: Codecs := _ => Codec(Squeeze, Unsqueeze)

  lemma {:induction false} TiniesEncoded(n: nat)
    ensures |EncodeAll(Tinies(n))| == 2 * n && Puts(Tinies(n)) == n
    ensures n > 0 ==> Start(Group(Tinies(n), []), n - 1) == 2 * (n - 1)
    ensures AllFit(Tinies(n)) && |Header(TINY)| == 2
  {
    if n > 0 {
      TiniesEncoded(n - 1);
      assert Tinies(n)[1..] == Tinies(n - 1);
      assert Tinies(n)[..n - 1] == Tinies(n - 1);
    }
  }

  lemma SqueezeBack(b: Bytes)
    ensures Unsqueeze(Squeeze(b)) == b && |Squeeze(b)| <= |b| + 1
  {
    hide TINY_BLOCK;
    if b != TINY_BLOCK {
      assert ([1] + b)[0] == 1 && ([1] + b)[1..] == b;
    }
  }

  lemma SqueezeSound()
    ensures Sound(CompressionOf(SQUEEZE, 1, 200))
  {
    hide TINY_BLOCK, Squeeze, Unsqueeze;
    forall b: Bytes | |b| <= 200 ensures Unsqueeze(Squeeze(b)) == b && |Squeeze(b)| < 0x1_0000_0000 {
      SqueezeBack(b);
    }
  }

  const SMALL_GROUP: Group := Group(Tinies(100), [TINY_BLOCK])

  lemma SmallGroup()
    ensures IsGroup(CompressionOf(SQUEEZE, 1, 200), SMALL_GROUP)
  {
    hide EncodeAll, Header;
    TiniesEncoded(100);
    OneBlock(Plain, TINY_BLOCK);
    assert Start(SMALL_GROUP, 99) == Start(Group(Tinies(100), []), 99);
  }

  lemma SmallImage()
    ensures Image(CompressionOf(SQUEEZE, 1, 200), [SMALL_GROUP]) == [1, 0]
    ensures Entries([SMALL_GROUP]) == Tinies(100)
  {
    hide TINY_BLOCK;
    var c := CompressionOf(SQUEEZE, 1, 200);
    OneBlock(c, TINY_BLOCK);
    assert Framed(c, TINY_BLOCK) == Encode(1) + [0];
    assert Encode(1) == [1];
    assert Image(c, [SMALL_GROUP]) == FramedAll(c, [TINY_BLOCK]) + Image(c, []);
    assert Entries([SMALL_GROUP]) == Tinies(100) + Entries([]);
  }

  const SMALL_HEADER: LogHeader := LogHeader(0, 100, 0, 86, 0, 0, 0, 1, 200, 200, 100)

  lemma {:induction false} TiniesStats(n: nat)
    ensures |Tinies(n)| == n && PutBytes(Tinies(n)) == 2 * n
    ensures LargestKey(Tinies(n)) == 0 && LargestValue(Tinies(n)) == 0
  {
    if n > 0 {
      TiniesStats(n - 1);
      TiniesEncoded(0);
      assert Tinies(n) == Tinies(n - 1) + [TINY];
      StatsAppend(Tinies(n - 1), TINY);
    }
  }

  lemma OneGroup(c: Compression, gr: Group, n: nat)
    requires IsGroup(c, gr) && |gr.entries| == n
    ensures AreGroups(c, [gr]) && IsMost([gr], n)
  {
    hide IsGroup;
    assert [gr][0] == gr;
  }

  lemma OneSmallGroup()
    ensures AreGroups(CompressionOf(SQUEEZE, 1, 200), [SMALL_GROUP]) && IsMost([SMALL_GROUP], 100)
    ensures CompressionOf(SQUEEZE, 1, 200).Packed? && CompressionOf(SQUEEZE, 1, 200).blockSize == 200
  {
    hide IsGroup, AreGroups, IsMost, TINY_BLOCK, Tinies;
    SmallGroup();
    TiniesStats(100);
    OneGroup(CompressionOf(SQUEEZE, 1, 200), SMALL_GROUP, 100);
  }

  lemma SmallDescribed(file: Bytes)
    requires |file| == 86 && file[LOG_HEADER_SIZE..] == [1, 0]
    ensures Describes(SMALL_HEADER, LogOf(SQUEEZE, SMALL_HEADER, file), [SMALL_GROUP])
  {
    hide TINY_BLOCK, EncodeAll, Image, Entries, Sound, IsGroup, Puts, Tinies, SMALL_GROUP, SQUEEZE;
    SqueezeSound();
    TiniesStats(100);
    OneSmallGroup();
    SmallGroup();
    SmallImage();
    TiniesEncoded(100);
  }

  lemma SmallFits()
    ensures Representable(SMALL_HEADER)
  {
    Widths();
  }

  /** A hundred empty puts make a file of 86 bytes with this compressor: more puts than bytes. */
  lemma CompressedMayNotOpen() returns (file: Bytes)
    ensures IsComplete(SQUEEZE, file, SMALL_HEADER, [SMALL_GROUP]) && Entries([SMALL_GROUP]) == Tinies(100)
    ensures OpenLog(SQUEEZE, file) == BadHeader(Corrupt)
  {
    hide WriteLogHeader, OpenLog, Describes, TINY_BLOCK, Representable;
    file := WriteLogHeader(SMALL_HEADER) + [1, 0];
    assert file[LOG_HEADER_SIZE..] == [1, 0];
    SmallDescribed(file);
    SmallFits();
    SmallImage();
    OpenComplete(SQUEEZE, file, SMALL_HEADER, [SMALL_GROUP], file);
  }

  // ---- Opening for writing ----

  datatype WriterResult = Ready(writer: LogWriter) | InvalidBlockSize | CannotLoad(why: LoadResult)

  /** Nothing has been written yet. */
  lemma EmptyIsComplete(codecs: Codecs, h: LogHeader, file: Bytes)
    requires Sound(CompressionOf(codecs, h.compressionType, h.blockSize)) && Representable(h)
    requires h.numPuts == h.numDeletes == h.putSize == h.deleteSize == 0 && h.maxKeyLen == h.maxValueLen == 0
    requires h.dataEnd == LOG_HEADER_SIZE && h.maxEntriesPerBlock == 0
    requires h.compressionType <= MAX_TYPE
    requires if h.compressionType == 0 then h.blockSize == 0 else h.blockSize >= MIN_BLOCK_SIZE
    requires file == WriteLogHeader(h)
    ensures IsComplete(codecs, file, h, []) && Entries([]) == []
  {
    hide Sound, WriteLogHeader, Representable;
    EncodeNone();
    assert file[LOG_HEADER_SIZE..] == [];
  }

  /** A new log. */
  method Create(codecs: Codecs, compressionType: nat, blockSize: int, fileIdentifier: nat) returns (r: WriterResult)
    requires compressionType <= MAX_TYPE && blockSize < 0x8000_0000 && fileIdentifier < 0x1_0000_0000
    requires blockSize >= 0 ==> Sound(CompressionOf(codecs, compressionType, blockSize))
    ensures r.InvalidBlockSize? <==> compressionType != 0 && blockSize < MIN_BLOCK_SIZE
    ensures r.InvalidBlockSize? || r.Ready?
    ensures r.Ready? ==>
      && r.writer.Valid() && fresh(r.writer.Repr()) && r.writer.groups == [] && r.writer.Written() == []
      && r.writer.compression == CompressionOf(codecs, compressionType, if compressionType == 0 then 0 else blockSize)
      && r.writer.HeaderNow().compressionType == compressionType
      && r.writer.HeaderNow().fileIdentifier == fileIdentifier && r.writer.HeaderNow().maxEntriesPerBlock == 0
      && IsComplete(codecs, r.writer.file.contents, r.writer.HeaderNow(), [])
  {
    hide WriteLogHeader, Describes, Representable;
    var size := 0;
    if compressionType != 0 {
      if blockSize < MIN_BLOCK_SIZE {
        return InvalidBlockSize;
      }
      size := blockSize;
    }
    var h := LogHeader(fileIdentifier, 0, 0, LOG_HEADER_SIZE, 0, 0, 0, compressionType, size, 0, 0);
    NewHeaderFits(h);
    var file := new File(WriteLogHeader(h));
    EmptyIsComplete(codecs, h, file.contents);
    var w := new LogWriter(CompressionOf(codecs, compressionType, size), file, h, []);
    r := Ready(w);
  }

  lemma NewHeaderFits(h: LogHeader)
    requires h.fileIdentifier < 0x1_0000_0000 && h.compressionType <= MAX_TYPE && h.blockSize < 0x8000_0000
    requires h == LogHeader(h.fileIdentifier, 0, 0, LOG_HEADER_SIZE, 0, 0, 0, h.compressionType, h.blockSize, 0, 0)
    ensures Representable(h)
  {
    Widths();
  }

  /** A complete log is opened to be appended to.  What an earlier writer left behind its end is overwritten. */
  method Append(codecs: Codecs, file: File, ghost log: Bytes, ghost h: LogHeader, ghost gs: seq<Group>)
    returns (r: WriterResult)
    requires IsComplete(codecs, log, h, gs) && log <= file.All()
    modifies file
    ensures file.All() == old(file.All())
    ensures if h.numPuts <= h.dataEnd && h.numDeletes <= h.dataEnd
      then r.Ready? && r.writer.file == file && r.writer.Valid() && fresh(r.writer.Repr() - {file})
           && file.contents == log && r.writer.groups == gs && r.writer.Written() == Entries(gs)
           && r.writer.HeaderNow() == h && r.writer.compression == CompressionOf(codecs, h.compressionType, h.blockSize)
      else r == CannotLoad(Corrupt) && unchanged(file)
  {
    hide WriteLogHeader, LoadLogHeader, Sound, Describes, Representable, Entries, LogWriter.Valid, Plausible;
    OpenComplete(codecs, log, h, gs, file.All());
    var loaded := LoadLogHeader(file.All());
    if !loaded.Loaded? {
      return CannotLoad(loaded);
    }
    var h' := loaded.header;
    BlockSizeKept(codecs, log, h', gs);
    if h'.compressionType != 0 && h'.blockSize < MIN_BLOCK_SIZE {
      return InvalidBlockSize;
    }
    var size := if h'.compressionType != 0 then h'.blockSize else 0;
    file.Seek(h'.dataEnd);
    TakeLonger(log, file.All());
    var w := new LogWriter(CompressionOf(codecs, h'.compressionType, size), file, h', gs);
    assert Entries(gs) + [] == Entries(gs);
    r := Ready(w);
  }

  lemma TakeLonger(a: Bytes, b: Bytes)
    requires a <= b
    ensures b[..|a|] == a
  {
  }

  lemma BlockSizeKept(codecs: Codecs, file: Bytes, h: LogHeader, gs: seq<Group>)
    requires Describes(h, LogOf(codecs, h, file), gs)
    ensures h.dataEnd == |file| && if h.compressionType == 0 then h.blockSize == 0 else h.blockSize >= MIN_BLOCK_SIZE
  {
  }

  /** After a flush the file is complete. */
  lemma FlushedIsComplete(codecs: Codecs, w: LogWriter)
    requires Describes(w.HeaderNow(), Log(w.compression, w.file.contents, w.maxEntriesPerBlock), w.groups)
    requires w.compression == CompressionOf(codecs, w.HeaderNow().compressionType, w.HeaderNow().blockSize)
    requires |w.file.contents| >= LOG_HEADER_SIZE && w.file.contents[..LOG_HEADER_SIZE] == WriteLogHeader(w.HeaderNow())
    requires Representable(w.HeaderNow())
    ensures IsComplete(codecs, w.file.contents, w.HeaderNow(), w.groups)
  {
    hide WriteLogHeader, Describes, Representable;
  }
}
