/** Runs of the writer: any operations in any sittings, and what they make of the file. */
module LogRuns {
  import opened LogFormat
  import opened LogHeaders
  import opened LogWriter
  import opened LogFiles

  datatype Op = PutOp(key: Bytes, value: Bytes) | DeleteOp(key: Bytes) | FlushOp | ReopenOp

  function EntryOf(op: Op): seq<Entry> {
    match op
    case PutOp(key, value) => [LogFormat.Put(key, value)]
    case DeleteOp(key) => [LogFormat.Delete(key)]
    case _ => []
  }

  /** The entries that operations write. */
  function Effect(ops: seq<Op>): seq<Entry> {
    if ops == [] then [] else Effect(ops[..|ops| - 1]) + EntryOf(ops[|ops| - 1])
  }

  /** Lengths are below 2^63, and with compression a header fits a block. */
  predicate Writable(c: Compression, e: Entry) {
    Fits(e) && (c.Packed? ==> |Header(e)| <= c.blockSize)
  }

  predicate AllWritable(c: Compression, ops: seq<Op>) {
    forall i :: 0 <= i < |ops| ==> forall e :: e in EntryOf(ops[i]) ==> Writable(c, e)
  }

  /** Nothing is waiting to be written, and the file tells so. */
  ghost predicate UpToDate(w: LogWriter)
    reads w, w.file
  {
    && w.pending == []
    && Describes(w.HeaderNow(), Log(w.compression, w.file.contents, w.maxEntriesPerBlock), w.groups)
    && |w.file.contents| >= LOG_HEADER_SIZE && w.file.contents[..LOG_HEADER_SIZE] == WriteLogHeader(w.HeaderNow())
  }

  /** And its header numbers fit their fields. */
  ghost predicate Flushed(codecs: Codecs, w: LogWriter)
    reads w, w.file
  {
    w.pending == [] && IsComplete(codecs, w.file.contents, w.HeaderNow(), w.groups)
  }

  /** How a run ends: at the end of the operations, or because a number was too large for its header field, or
      because the closed log could not be opened again. */
  datatype RunResult = Done(writer: LogWriter) | HeaderOverflow(writer: LogWriter) | CannotReopen(writer: LogWriter)

  /** The closed log is taken up again exactly if its header fits its fields and is plausible. */
  ghost predicate TakenUp(r: RunResult)
    reads r.writer
  {
    var h := r.writer.HeaderNow();
    match r
    case Done(_) => Representable(h) && Plausible(h)
    case HeaderOverflow(_) => !Representable(h)
    case CannotReopen(_) => Representable(h) && !Plausible(h)
  }

  /** A writer made with these compression libraries. */
  ghost predicate Uses(w: LogWriter, codecs: Codecs)
    reads w
  {
    w.compression == CompressionOf(codecs, w.HeaderNow().compressionType, w.HeaderNow().blockSize)
  }

  /** Everything written reaches the file and its header. */
  method Close(codecs: Codecs, w: LogWriter) returns (ok: bool)
    requires w.Valid() && Uses(w, codecs)
    modifies w.Repr()
    ensures w.Valid() && w.Written() == old(w.Written()) && UpToDate(w)
    ensures Ends(old(w.groups), old(w.pending), w.groups, w.pending) && Entries(w.groups) == w.Written()
    ensures ok ==> Flushed(codecs, w)
    ensures w.HeaderNow().compressionType == old(w.HeaderNow()).compressionType
    ensures w.HeaderNow().blockSize == old(w.HeaderNow()).blockSize
    ensures ok <==> Representable(w.HeaderNow())
  {
    hide Describes, WriteLogHeader, Entries, LogWriter.Valid, Representable;
    w.Flush();
    ok := Representable(w.HeaderNow());
    HeaderIsThere(w);
    if ok {
      FlushedIsComplete(codecs, w);
    }
    assert Entries(w.groups) + [] == Entries(w.groups);
  }

  lemma HeaderIsThere(w: LogWriter)
    requires w.Valid()
    ensures |w.file.contents| >= LOG_HEADER_SIZE
  {
  }

  /** Writer w continues what writer w0 has written, on the same file, with the same compression. */
  ghost predicate Continues(w: LogWriter, w0: LogWriter, codecs: Codecs)
    reads w, w.file, w.blockBuf, w.blockBuf.start, w.fileBuf, w.fileBuf.start
  {
    && w.Valid() && w.file == w0.file && Uses(w, codecs)
    && w.compression == w0.compression && w.compressionType == w0.compressionType && w.fileIdentifier == w0.fileIdentifier
  }

  /** The log is closed and opened again, by another writer. */
  method Reopen(codecs: Codecs, w: LogWriter) returns (r: RunResult)
    requires w.Valid() && Uses(w, codecs)
    modifies w.Repr()
    ensures Continues(r.writer, w, codecs) && fresh(r.writer.Repr() - w.Repr())
    ensures r.writer.Written() == old(w.Written())
    ensures Ends(old(w.groups), old(w.pending), r.writer.groups, r.writer.pending)
    ensures UpToDate(r.writer) && TakenUp(r)
    ensures if r.Done? then fresh(r.writer) && Flushed(codecs, r.writer) else r.writer == w
    ensures w.compression.Plain? ==> !r.CannotReopen?
  {
    hide Describes, WriteLogHeader, Entries, LogWriter.Valid, Representable, IsComplete;
    var ok := Close(codecs, w);
    if !ok {
      return HeaderOverflow(w);
    }
    ghost var h, gs := w.HeaderNow(), w.groups;
    CanReopen(codecs, w.file.contents, h, gs);
    var a := Append(codecs, w.file, w.file.contents, h, gs);
    match a {
      case Ready(w') => r := Done(w');
      case _ => r := CannotReopen(w);
    }
  }

  lemma CanReopen(codecs: Codecs, file: Bytes, h: LogHeader, gs: seq<Group>)
    requires IsComplete(codecs, file, h, gs)
    ensures Plausible(h) <==> h.numPuts <= h.dataEnd && h.numDeletes <= h.dataEnd
    ensures h.compressionType == 0 ==> Plausible(h)
  {
    hide Describes, WriteLogHeader, Representable;
    DescribedHeader(h, LogOf(codecs, h, file), gs);
    if h.compressionType == 0 {
      PlainAlwaysOpens(h, LogOf(codecs, h, file), gs);
    }
  }

  lemma DescribedHeader(h: LogHeader, log: Log, gs: seq<Group>)
    requires Describes(h, log, gs)
    ensures h.dataEnd >= LOG_HEADER_SIZE && h.compressionType <= MAX_TYPE
  {
  }

  // ---- What operations do to the file ----

  /** What is in groups and what is pending, before and after an operation. */
  ghost predicate Follows(c: Compression, gs: seq<Group>, es: seq<Entry>, op: Op, gs': seq<Group>, es': seq<Entry>) {
    match op
    case PutOp(key, value) => Lays(c, gs, es, LogFormat.Put(key, value), gs', es')
    case DeleteOp(key) => Lays(c, gs, es, LogFormat.Delete(key), gs', es')
    case _ => Ends(gs, es, gs', es')
  }

  function Front(ops: seq<Op>): (r: seq<Op>)
    requires ops != []
    ensures |r| == |ops| - 1
  {
    ops[..|ops| - 1]
  }

  function Last(ops: seq<Op>): Op
    requires ops != []
  {
    ops[|ops| - 1]
  }

  /** What the operations make of groups and pending entries. */
  ghost predicate LaidBy(c: Compression, gs: seq<Group>, es: seq<Entry>, ops: seq<Op>, gs': seq<Group>, es': seq<Entry>)
    decreases |ops|
  {
    if ops == [] then gs' == gs && es' == es
    else exists m, n :: LaidBy(c, gs, es, Front(ops), m, n) && Follows(c, m, n, Last(ops), gs', es')
  }

  /** The state before the last operation. */
  lemma LaidBefore(c: Compression, gs: seq<Group>, es: seq<Entry>, ops: seq<Op>, gs': seq<Group>, es': seq<Entry>)
    returns (m: seq<Group>, n: seq<Entry>)
    requires ops != [] && LaidBy(c, gs, es, ops, gs', es')
    ensures LaidBy(c, gs, es, Front(ops), m, n) && Follows(c, m, n, Last(ops), gs', es')
  {
    hide Follows, Front, Last;
    m, n :| LaidBy(c, gs, es, Front(ops), m, n) && Follows(c, m, n, Last(ops), gs', es');
  }

  lemma LaidNone(c: Compression, gs: seq<Group>, es: seq<Entry>)
    ensures LaidBy(c, gs, es, [], gs, es)
  {
  }

  lemma LaidNext(c: Compression, gs: seq<Group>, es: seq<Entry>, ops: seq<Op>, i: nat, gs1: seq<Group>, es1: seq<Entry>,
                 gs2: seq<Group>, es2: seq<Entry>)
    requires i < |ops| && LaidBy(c, gs, es, ops[..i], gs1, es1) && Follows(c, gs1, es1, ops[i], gs2, es2)
    ensures LaidBy(c, gs, es, ops[..i + 1], gs2, es2)
  {
    hide Follows;
    assert Front(ops[..i + 1]) == ops[..i] && Last(ops[..i + 1]) == ops[i];
  }

  /** The groups that are there stay where they are. */
  lemma {:induction false} LaidAppends(c: Compression, gs: seq<Group>, es: seq<Entry>, ops: seq<Op>, gs': seq<Group>,
                                       es': seq<Entry>)
    requires LaidBy(c, gs, es, ops, gs', es')
    ensures gs <= gs'
    decreases |ops|
  {
    hide Lays, LaidBy;
    if ops == [] {
      LaidNothing(c, gs, es, gs', es');
    } else {
      var m, n := LaidBefore(c, gs, es, ops, gs', es');
      LaidAppends(c, gs, es, Front(ops), m, n);
      FollowsAppends(c, m, n, Last(ops), gs', es');
    }
  }

  lemma LaidNothing(c: Compression, gs: seq<Group>, es: seq<Entry>, gs': seq<Group>, es': seq<Entry>)
    requires LaidBy(c, gs, es, [], gs', es')
    ensures gs' == gs && es' == es
  {
  }

  lemma FollowsAppends(c: Compression, gs: seq<Group>, es: seq<Entry>, op: Op, gs': seq<Group>, es': seq<Entry>)
    requires Follows(c, gs, es, op, gs', es')
    ensures gs <= gs'
  {
    hide Lays;
    match op {
      case PutOp(key, value) => LaysAppends(c, gs, es, LogFormat.Put(key, value), gs', es');
      case DeleteOp(key) => LaysAppends(c, gs, es, LogFormat.Delete(key), gs', es');
      case _ =>
    }
  }

  lemma FollowsOnce(c: Compression, gs: seq<Group>, es: seq<Entry>, op: Op, gs1: seq<Group>, es1: seq<Entry>,
                    gs2: seq<Group>, es2: seq<Entry>)
    requires Follows(c, gs, es, op, gs1, es1) && Follows(c, gs, es, op, gs2, es2)
    ensures gs1 == gs2 && es1 == es2
  {
    hide Lays;
    match op {
      case PutOp(key, value) => LaysOnce(c, gs, es, LogFormat.Put(key, value), gs1, es1, gs2, es2);
      case DeleteOp(key) => LaysOnce(c, gs, es, LogFormat.Delete(key), gs1, es1, gs2, es2);
      case _ =>
    }
  }

  /** Operations leave nothing open about how entries are cut into groups and blocks. */
  lemma {:induction false} LaidOnce(c: Compression, gs: seq<Group>, es: seq<Entry>, ops: seq<Op>, gs1: seq<Group>,
                                    es1: seq<Entry>, gs2: seq<Group>, es2: seq<Entry>)
    requires LaidBy(c, gs, es, ops, gs1, es1) && LaidBy(c, gs, es, ops, gs2, es2)
    ensures gs1 == gs2 && es1 == es2
    decreases |ops|
  {
    hide Follows, LaidBy;
    if ops == [] {
      LaidNothing(c, gs, es, gs1, es1);
      LaidNothing(c, gs, es, gs2, es2);
    } else {
      var m1, n1 := LaidBefore(c, gs, es, ops, gs1, es1);
      var m2, n2 := LaidBefore(c, gs, es, ops, gs2, es2);
      LaidOnce(c, gs, es, Front(ops), m1, n1, m2, n2);
      FollowsOnce(c, m1, n1, Last(ops), gs1, es1, gs2, es2);
    }
  }

  // ---- Runs ----

  /** One operation. */
  method Perform(codecs: Codecs, w: LogWriter, op: Op) returns (r: RunResult)
    requires w.Valid() && Uses(w, codecs) && forall e :: e in EntryOf(op) ==> Writable(w.compression, e)
    modifies w.Repr()
    ensures Continues(r.writer, w, codecs) && fresh(r.writer.Repr() - w.Repr())
    ensures r.writer.Written() == old(w.Written()) + EntryOf(op)
    ensures Follows(w.compression, old(w.groups), old(w.pending), op, r.writer.groups, r.writer.pending)
    ensures op.FlushOp? || op.ReopenOp? ==> UpToDate(r.writer)
    ensures if op.ReopenOp? then TakenUp(r) && (r.Done? ==> fresh(r.writer)) else r == Done(w)
    ensures r.CannotReopen? ==> w.compression.Packed?
  {
    hide Describes, WriteLogHeader, Entries, LogWriter.Valid, Representable, Plausible, Lays;
    assert w.Written() + [] == w.Written();
    match op {
      case PutOp(key, value) =>
        assert Writable(w.compression, EntryOf(op)[0]);
        w.Put(key, value);
        r := Done(w);
      case DeleteOp(key) =>
        assert Writable(w.compression, EntryOf(op)[0]);
        w.Delete(key);
        r := Done(w);
      case FlushOp =>
        w.Flush();
        HeaderIsThere(w);
        r := Done(w);
      case ReopenOp =>
        r := Reopen(codecs, w);
    }
  }

  /** Whatever is written in whatever sittings: the log holds what was there and the effect of the
      operations (of the first n, if the run ended early), and the entries that were there stay where they are. */
  method Run(codecs: Codecs, w0: LogWriter, ops: seq<Op>) returns (r: RunResult, ghost n: nat)
    requires w0.Valid() && Uses(w0, codecs) && AllWritable(w0.compression, ops)
    modifies w0.Repr()
    ensures Continues(r.writer, w0, codecs) && fresh(r.writer.Repr() - w0.Repr())
    ensures n <= |ops| && r.writer.Written() == old(w0.Written()) + Effect(ops[..n])
    ensures LaidBy(w0.compression, old(w0.groups), old(w0.pending), ops[..n], r.writer.groups, r.writer.pending)
    ensures n > 0 && (ops[n - 1].FlushOp? || ops[n - 1].ReopenOp?) ==> UpToDate(r.writer)
    ensures if r.Done? then ops[..n] == ops else n > 0 && ops[n - 1].ReopenOp? && TakenUp(r)
    ensures w0.compression.Plain? ==> !r.CannotReopen?
  {
    hide LogWriter.Valid, Uses, Writable, TakenUp, UpToDate, Follows, LaidBy;
    var w, i := w0, 0;
    assert ops[..0] == [];
    assert w0.Written() + [] == w0.Written();
    r := Done(w);
    LaidNone(w0.compression, w0.groups, w0.pending);
    while i < |ops|
      invariant i <= |ops| && r == Done(w) && Continues(w, w0, codecs) && fresh(w.Repr() - w0.Repr())
      invariant LaidBy(w0.compression, old(w0.groups), old(w0.pending), ops[..i], w.groups, w.pending)
      invariant i > 0 && (ops[i - 1].FlushOp? || ops[i - 1].ReopenOp?) ==> UpToDate(w)
      invariant w.Written() == old(w0.Written()) + Effect(ops[..i])
    {
      EffectNext(ops, i, old(w0.Written()));
      ghost var gs, es := w.groups, w.pending;
      r := Perform(codecs, w, ops[i]);
      LaidNext(w0.compression, old(w0.groups), old(w0.pending), ops, i, gs, es, r.writer.groups, r.writer.pending);
      i := i + 1;
      if !r.Done? {
        n := i;
        return;
      }
      w := r.writer;
    }
    n := i;
  }

  // ---- The file is determined ----

  lemma MostOnce(gs: seq<Group>, a: nat, b: nat)
    requires IsMost(gs, a) && IsMost(gs, b)
    ensures a == b
  {
  }

  lemma DescribedOnce(h1: LogHeader, h2: LogHeader, log1: Log, log2: Log, gs: seq<Group>)
    requires Describes(h1, log1, gs) && Describes(h2, log2, gs) && log1.compression == log2.compression
    requires h1.fileIdentifier == h2.fileIdentifier && h1.compressionType == h2.compressionType
    ensures h1 == h2 && log1.data[LOG_HEADER_SIZE..] == log2.data[LOG_HEADER_SIZE..]
  {
    hide IsMost, Image, Entries, Puts, PutBytes, LargestKey, LargestValue, EncodeAll, Sound, AreGroups, BlocksHold;
    if log1.compression.Packed? {
      MostOnce(gs, h1.maxEntriesPerBlock, h2.maxEntriesPerBlock);
    }
    assert |log1.data| == LOG_HEADER_SIZE + |Image(log1.compression, gs)| == |log2.data|;
  }

  /** Closed files with the same groups are the same, byte by byte. */
  lemma SameFile(w1: LogWriter, w2: LogWriter)
    requires UpToDate(w1) && UpToDate(w2) && w1.groups == w2.groups && w1.compression == w2.compression
    requires w1.compressionType == w2.compressionType && w1.fileIdentifier == w2.fileIdentifier
    ensures w1.file.contents == w2.file.contents
  {
    hide Describes, WriteLogHeader;
    var a, b := w1.file.contents, w2.file.contents;
    DescribedOnce(w1.HeaderNow(), w2.HeaderNow(), Log(w1.compression, a, w1.maxEntriesPerBlock),
                  Log(w2.compression, b, w2.maxEntriesPerBlock), w1.groups);
    assert a == a[..LOG_HEADER_SIZE] + a[LOG_HEADER_SIZE..] && b == b[..LOG_HEADER_SIZE] + b[LOG_HEADER_SIZE..];
  }

  /** A new log with these operations, closed. */
  method WriteNew(codecs: Codecs, compressionType: nat, blockSize: int, fileIdentifier: nat, ops: seq<Op>)
    returns (r: RunResult)
    requires compressionType <= MAX_TYPE && blockSize < 0x8000_0000 && fileIdentifier < 0x1_0000_0000
    requires compressionType != 0 ==> blockSize >= MIN_BLOCK_SIZE
    requires Sound(Chosen(codecs, compressionType, blockSize)) && AllWritable(Chosen(codecs, compressionType, blockSize), ops)
    ensures fresh(r.writer) && fresh(r.writer.file)
    ensures r.writer.compression == CompressionOf(codecs, compressionType, if compressionType == 0 then 0 else blockSize)
    ensures r.writer.compressionType == compressionType && r.writer.fileIdentifier == fileIdentifier
    ensures r.Done? ==> UpToDate(r.writer) && r.writer.Written() == Effect(ops)
    ensures r.Done? ==> LaidBy(r.writer.compression, [], [], ops + [FlushOp], r.writer.groups, r.writer.pending)
  {
    hide LogWriter.Valid, Sound, LaidBy, UpToDate, AllWritable, Effect, IsComplete;
    var created := Create(codecs, compressionType, blockSize, fileIdentifier);
    FlushAdded(Chosen(codecs, compressionType, blockSize), ops);
    ghost var n;
    r, n := Run(codecs, created.writer, ops + [FlushOp]);
    if r.Done? {
      assert n == |ops| + 1;
      assert (ops + [FlushOp])[..n] == ops + [FlushOp];
    }
  }

  lemma FlushAdded(c: Compression, ops: seq<Op>)
    requires AllWritable(c, ops)
    ensures AllWritable(c, ops + [FlushOp]) && [] + Effect(ops + [FlushOp]) == Effect(ops)
  {
    assert (ops + [FlushOp])[..|ops|] == ops;
  }

  /** The same operations make the same file, byte by byte, if the identifier drawn is the same. */
  method WrittenTwice(codecs: Codecs, compressionType: nat, blockSize: int, fileIdentifier: nat, ops: seq<Op>)
    returns (r1: RunResult, r2: RunResult)
    requires compressionType <= MAX_TYPE && blockSize < 0x8000_0000 && fileIdentifier < 0x1_0000_0000
    requires compressionType != 0 ==> blockSize >= MIN_BLOCK_SIZE
    requires Sound(Chosen(codecs, compressionType, blockSize)) && AllWritable(Chosen(codecs, compressionType, blockSize), ops)
    ensures r1.Done? && r2.Done? ==>
      && UpToDate(r1.writer) && r1.writer.Written() == Effect(ops)
      && r1.writer.file != r2.writer.file && r1.writer.file.contents == r2.writer.file.contents
  {
    hide Sound, LaidBy, UpToDate, AllWritable, Effect;
    r1 := WriteNew(codecs, compressionType, blockSize, fileIdentifier, ops);
    r2 := WriteNew(codecs, compressionType, blockSize, fileIdentifier, ops);
    if r1.Done? && r2.Done? {
      var w1, w2 := r1.writer, r2.writer;
      LaidOnce(w1.compression, [], [], ops + [FlushOp], w1.groups, w1.pending, w2.groups, w2.pending);
      SameFile(w1, w2);
    }
  }

  /** The compression of a new log; without a compressor the block size does not matter. */
  function Chosen(codecs: Codecs, compressionType: nat, blockSize: int): Compression {
    CompressionOf(codecs, compressionType, if blockSize < 0 then 0 else blockSize)
  }

  lemma EffectNext(ops: seq<Op>, n: nat, before: seq<Entry>)
    requires n < |ops|
    ensures before + Effect(ops[..n + 1]) == before + Effect(ops[..n]) + EntryOf(ops[n])
  {
    assert ops[..n + 1][..n] == ops[..n];
  }
}
