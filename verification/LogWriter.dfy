/** The log writer. */
module LogWriter {
  import opened Vlq
  import opened LogFormat
  import opened Buf
  import opened LogHeaders

  /** All bytes of a and b, then the rest. */
  lemma Regroup(a: Bytes, b: Bytes, c: Bytes)
    ensures a + b + c == a + (b + c)
  {
  }

  predicate AllFull(bs: seq<Bytes>, size: nat) {
    forall k :: 0 <= k < |bs| ==> |bs[k]| == size
  }

  /** A header tells the truth about a complete log. */
  ghost predicate Describes(h: LogHeader, log: Log, gs: seq<Group>) {
    && IsLog(log, gs) && h.dataEnd == |log.data| && h.maxEntriesPerBlock == log.maxEntriesPerBlock
    && (h.compressionType == 0 <==> log.compression.Plain?) && h.compressionType <= MAX_TYPE
    && h.blockSize == (if log.compression.Packed? then log.compression.blockSize else 0)
    && (log.compression.Packed? ==> h.blockSize >= MIN_BLOCK_SIZE)
    && h.numPuts == Puts(Entries(gs)) && h.numPuts + h.numDeletes == |Entries(gs)|
    && h.putSize == PutBytes(Entries(gs)) && h.putSize + h.deleteSize == |EncodeAll(Entries(gs))|
    && h.maxKeyLen == LargestKey(Entries(gs)) && h.maxValueLen == LargestValue(Entries(gs))
    && if log.compression.Packed? then IsMost(gs, h.maxEntriesPerBlock) else h.maxEntriesPerBlock == 0
  }

  /** All blocks but the last are full. */
  predicate Cut(bs: seq<Bytes>, size: nat) {
    forall k :: 0 <= k < |bs| ==> if k + 1 < |bs| then |bs[k]| == size else 0 < |bs[k]| <= size
  }

  /** How an entry is added to complete groups and to what is pending in the block buffer.  The buffer is ended before
      it only if the header does not fit there, or if the entry does not but fits a block.  An entry that no block
      can hold is cut into full blocks. */
  ghost predicate Lays(c: Compression, gs: seq<Group>, es: seq<Entry>, e: Entry, gs': seq<Group>, es': seq<Entry>) {
    match c
    case Plain => gs' == gs + [Group([e], [Encoded(e)])] && es' == es
    case Packed(_, _, size) =>
      var room := size - |EncodeAll(es)|;
      var ended := gs + [Group(es, [EncodeAll(es)])];
      if |Encoded(e)| <= room then gs' == gs && es' == es + [e]
      else if |Encoded(e)| <= size then gs' == ended && es' == [e]
      else if |Header(e)| <= room then Spills(gs, es + [e], gs', size) && es' == []
      else Spills(ended, [e], gs', size) && es' == []
  }

  /** An entry is added after room has been made for it. */
  lemma RoomThenAdded(c: Compression, gs: seq<Group>, es: seq<Entry>, e: Entry, gs1: seq<Group>, es1: seq<Entry>,
                      gs2: seq<Group>, es2: seq<Entry>)
    requires c.Packed?
    requires var room := c.blockSize - |EncodeAll(es)|;
      if |Header(e)| <= room && (|Encoded(e)| <= room || |Encoded(e)| > c.blockSize) then gs1 == gs && es1 == es
      else gs1 == gs + [Group(es, [EncodeAll(es)])] && es1 == []
    requires if |Encoded(e)| <= c.blockSize - |EncodeAll(es1)| then gs2 == gs1 && es2 == es1 + [e]
      else Spills(gs1, es1 + [e], gs2, c.blockSize) && es2 == []
    ensures Lays(c, gs, es, e, gs2, es2)
  {
    hide Encoded, Header, Spills;
    assert EncodeAll([]) == [];
    assert [] + [e] == [e];
  }

  /** There is one way to cut bytes into full blocks. */
  lemma {:induction false} CutOnce(a: seq<Bytes>, b: seq<Bytes>, size: nat)
    requires Cut(a, size) && Cut(b, size) && Concat(a) == Concat(b)
    ensures a == b
  {
    if a == [] && b != [] {
      CutNotEmpty(b, size);
    } else if a != [] && b == [] {
      CutNotEmpty(a, size);
    } else if a != [] {
      FirstOfCut(a, b, size);
      assert Concat(a[1..]) == Concat(a)[|a[0]|..] == Concat(b)[|b[0]|..] == Concat(b[1..]);
      CutTail(a, size);
      CutTail(b, size);
      CutOnce(a[1..], b[1..], size);
      assert a == [a[0]] + a[1..] && b == [b[0]] + b[1..];
    }
  }

  lemma CutTail(a: seq<Bytes>, size: nat)
    requires Cut(a, size) && a != []
    ensures Cut(a[1..], size) && (|a| > 1 ==> Concat(a[1..]) != [])
  {
    assert forall k :: 0 <= k < |a[1..]| ==> a[1..][k] == a[k + 1];
    if |a| > 1 {
      CutNotEmpty(a[1..], size);
    }
  }

  lemma CutNotEmpty(a: seq<Bytes>, size: nat)
    requires Cut(a, size) && a != []
    ensures Concat(a) != []
  {
    assert 0 < |a[|a| - 1]| <= size;
    assert a[0] != [];
  }

  lemma FirstOfCut(a: seq<Bytes>, b: seq<Bytes>, size: nat)
    requires Cut(a, size) && Cut(b, size) && Concat(a) == Concat(b) && a != [] && b != []
    ensures a[0] == b[0]
  {
    assert a[0] == Concat(a)[..|a[0]|] && b[0] == Concat(b)[..|b[0]|];
    if |a| > 1 {
      CutTail(a, size);
    }
    if |b| > 1 {
      CutTail(b, size);
    }
  }

  /** How an entry is added is determined by what is there. */
  lemma LaysOnce(c: Compression, gs: seq<Group>, es: seq<Entry>, e: Entry, gs1: seq<Group>, es1: seq<Entry>,
                 gs2: seq<Group>, es2: seq<Entry>)
    requires Lays(c, gs, es, e, gs1, es1) && Lays(c, gs, es, e, gs2, es2)
    ensures gs1 == gs2 && es1 == es2
  {
    hide EncodeAll, Encoded, Header, Concat, Cut;
    if es1 == [] && |gs1| > |gs| && c.Packed? {
      var n := |gs1| - 1;
      if Cut(gs1[n].blocks, c.blockSize) && Cut(gs2[n].blocks, c.blockSize) {
        CutOnce(gs1[n].blocks, gs2[n].blocks, c.blockSize);
      }
      assert gs1 == gs1[..n] + [gs1[n]] && gs2 == gs2[..n] + [gs2[n]];
    }
  }

  lemma LaysAppends(c: Compression, gs: seq<Group>, es: seq<Entry>, e: Entry, gs': seq<Group>, es': seq<Entry>)
    requires Lays(c, gs, es, e, gs', es')
    ensures gs <= gs'
  {
    hide EncodeAll, Encoded, Header, Concat, Cut;
  }

  /** What is pending is ended as a group of one block, if anything is. */
  ghost predicate Ends(gs: seq<Group>, es: seq<Entry>, gs': seq<Group>, es': seq<Entry>) {
    es' == [] && gs' == if es == [] then gs else gs + [Group(es, [EncodeAll(es)])]
  }

  /** One group is added: these entries, cut into full blocks. */
  ghost predicate Spills(gs: seq<Group>, es: seq<Entry>, gs': seq<Group>, size: nat) {
    && |gs'| == |gs| + 1 && gs'[..|gs|] == gs && gs'[|gs|].entries == es
    && Concat(gs'[|gs|].blocks) == EncodeAll(es) && Cut(gs'[|gs|].blocks, size)
  }

  const MIN_BLOCK_SIZE: nat := 10

  class LogWriter {
    const compression: Compression
    const compressionType: nat
    const fileIdentifier: nat
    const file: File
    const blockBuf: Buffer
    const fileBuf: Buffer

    // header fields
    var dataEnd: nat
    var numPuts: nat
    var numDeletes: nat
    var putSize: nat
    var deleteSize: nat
    var maxKeyLen: nat
    var maxValueLen: nat
    var maxEntriesPerBlock: nat

    var flushed: bool
    var entryCount: nat

    // what has been completed, and what is still in the block buffer
    ghost var groups: seq<Group>
    ghost var pending: seq<Entry>

    /** The state in which a writer starts: at the end of a complete log. */
    constructor (compression: Compression, file: File, h: LogHeader, ghost gs: seq<Group>)
      requires Describes(h, Log(compression, file.contents, h.maxEntriesPerBlock), gs)
      ensures Valid() && this.compression == compression && this.file == file
      ensures groups == gs && pending == [] && HeaderNow() == h
      ensures fresh(Repr() - {file})
    {
      hide Image, EncodeAll, AreGroups, Entries, Puts, PutBytes, LargestKey, LargestValue, BlocksHold, AllFit;
      this.compression, this.file := compression, file;
      compressionType, fileIdentifier := h.compressionType, h.fileIdentifier;
      blockBuf := new Buffer(if compression.Packed? then compression.blockSize else 0);
      fileBuf := new Buffer(0x10_0000);
      dataEnd, numPuts, numDeletes := h.dataEnd, h.numPuts, h.numDeletes;
      putSize, deleteSize := h.putSize, h.deleteSize;
      maxKeyLen, maxValueLen, maxEntriesPerBlock := h.maxKeyLen, h.maxValueLen, h.maxEntriesPerBlock;
      flushed, entryCount := false, 0;
      groups, pending := gs, [];
      new;
      EncodeNone();
      NoneFit();
      assert file.contents + [] == file.contents;
      assert Entries(gs) + [] == Entries(gs);
    }

    function HeaderNow(): LogHeader
      reads this
    {
      LogHeader(fileIdentifier, numPuts, numDeletes, dataEnd, maxKeyLen, maxValueLen, deleteSize, compressionType,
                if compression.Packed? then compression.blockSize else 0, putSize, maxEntriesPerBlock)
    }

    ghost function Repr(): set<object> {
      {this, file, blockBuf, blockBuf.start, fileBuf, fileBuf.start}
    }

    ghost predicate Apart()
      reads blockBuf, fileBuf
    {
      && blockBuf != fileBuf && blockBuf.start != fileBuf.start
      && blockBuf.Valid() && fileBuf.Valid() && fileBuf.start.Length > 0
      && (compression.Packed? ==> blockBuf.start.Length == compression.blockSize >= MIN_BLOCK_SIZE)
      && (compressionType == 0 <==> compression.Plain?) && compressionType <= MAX_TYPE
      && (compression.Plain? ==> blockBuf.start.Length == 0)
    }

    /** What has left the block buffer: the file and the bytes waiting to be written to it. */
    ghost function Stream(): Bytes
      reads file, fileBuf, fileBuf.start
      requires fileBuf.Valid()
    {
      file.contents + fileBuf.Used()
    }

    /** Everything that has been put and deleted. */
    ghost function Written(): seq<Entry>
      reads `groups, `pending
    {
      Entries(groups) + pending
    }

    /** The header counters describe what has been written. */
    ghost predicate Counted()
      reads this
    {
      && numPuts == Puts(Written()) && numPuts + numDeletes == |Written()|
      && putSize == PutBytes(Written()) && putSize + deleteSize == |EncodeAll(Written())|
      && maxKeyLen == LargestKey(Written()) && maxValueLen == LargestValue(Written())
    }

    /** The complete groups have left the block buffer, the pending entries are in it. */
    ghost predicate Laid()
      reads `groups, `pending, `maxEntriesPerBlock, `entryCount, file, blockBuf, blockBuf.start, fileBuf, fileBuf.start
    {
      && Apart() && Sound(compression)
      && |file.contents| >= LOG_HEADER_SIZE
      && Stream()[LOG_HEADER_SIZE..] == Image(compression, groups)
      && AreGroups(compression, groups)
      && (if compression.Packed? then IsMost(groups, maxEntriesPerBlock) else maxEntriesPerBlock == 0)
      && blockBuf.Used() == EncodeAll(pending) && AllFit(pending)
      && (compression.Packed? ==> entryCount == |pending|)
    }

    ghost predicate Valid()
      reads this, file, blockBuf, blockBuf.start, fileBuf, fileBuf.start
    {
      Laid() && Counted()
    }

    /** Ends a block: its compressed size and its compressed bytes go to the file buffer. */
    method FlushCompressed()
      requires Apart() && compression.Packed? && Sound(compression)
      modifies this`flushed, this`maxEntriesPerBlock, this`entryCount
      modifies file, blockBuf`cur, fileBuf, fileBuf.start
      ensures Apart() && blockBuf.Used() == [] && flushed && entryCount == 0
      ensures maxEntriesPerBlock == Larger(old(entryCount), old(maxEntriesPerBlock))
      ensures Stream() == old(Stream()) + Framed(compression, old(blockBuf.Used()))
      ensures old(file.contents) <= file.contents
    {
      flushed := true;
      if entryCount > maxEntriesPerBlock {
        maxEntriesPerBlock := entryCount;
      }
      entryCount := 0;
      var block := blockBuf.Used();
      var compressed := compression.compress(block);
      var buf1 := new byte[10];
      var written1 := Vlq.Write(buf1, |compressed|);
      fileBuf.Add(file, buf1[..written1]);
      fileBuf.Add(file, compressed);
      blockBuf.Clear();
      Regroup(old(Stream()), Encode(|compressed|), compressed);
    }

    /** Fills up the block and ends it. */
    method FillBlock(piece: Bytes)
      requires Apart() && compression.Packed? && Sound(compression) && |piece| == blockBuf.Remaining()
      modifies this`flushed, this`maxEntriesPerBlock, this`entryCount
      modifies file, blockBuf, blockBuf.start, fileBuf, fileBuf.start
      ensures Apart() && blockBuf.Used() == [] && flushed && entryCount == 0
      ensures maxEntriesPerBlock == Larger(old(entryCount), old(maxEntriesPerBlock))
      ensures Stream() == old(Stream()) + Framed(compression, old(blockBuf.Used()) + piece)
      ensures old(file.contents) <= file.contents
    {
      hide Framed, Sound;
      blockBuf.Copy(piece);
      FlushCompressed();
    }

    /** Adds to the block buffer; every block that fills up on the way is ended. */
    method CompressedAdd(data: Bytes) returns (ghost blocks: seq<Bytes>)
      requires Apart() && compression.Packed? && Sound(compression)
      modifies this`flushed, this`maxEntriesPerBlock, this`entryCount
      modifies file, blockBuf, blockBuf.start, fileBuf, fileBuf.start
      ensures Apart() && AllFull(blocks, compression.blockSize)
      ensures Stream() == old(Stream()) + FramedAll(compression, blocks)
      ensures Concat(blocks) + blockBuf.Used() == old(blockBuf.Used()) + data
      ensures old(file.contents) <= file.contents
      ensures |data| <= old(blockBuf.Remaining()) <==> blocks == []
      ensures blocks == [] ==> unchanged(this) && unchanged(file) && unchanged(fileBuf) && unchanged(fileBuf.start)
      ensures blocks == [] ==> blockBuf.Used() == old(blockBuf.Used()) + data
      ensures blocks != [] ==>
        flushed && entryCount == 0 && blockBuf.Used() != [] && |blocks[0]| >= |old(blockBuf.Used())|
        && maxEntriesPerBlock == Larger(old(entryCount), old(maxEntriesPerBlock))
    {
      hide FramedAll, Framed, Concat, Sound;
      blocks := [];
      var rest := data;
      NoBlocks(compression, old(Stream()), old(blockBuf.Used()) + data);
      while true
        invariant Apart() && AllFull(blocks, compression.blockSize) && Sound(compression)
        invariant Stream() == old(Stream()) + FramedAll(compression, blocks)
        invariant Concat(blocks) + (blockBuf.Used() + rest) == old(blockBuf.Used()) + data
        invariant old(file.contents) <= file.contents
        invariant blocks == [] ==> rest == data && blockBuf.Used() == old(blockBuf.Used())
        invariant blocks == [] ==> unchanged(this) && unchanged(file) && unchanged(fileBuf) && unchanged(fileBuf.start)
        invariant blocks != [] ==>
          flushed && entryCount == 0 && blockBuf.Used() == [] && |blocks[0]| >= |old(blockBuf.Used())|
          && maxEntriesPerBlock == Larger(old(entryCount), old(maxEntriesPerBlock))
          && rest != [] && |data| > old(blockBuf.Remaining())
        decreases blockBuf.cur + |rest|, |rest|
      {
        var remaining := blockBuf.Remaining();
        if remaining >= |rest| {
          blockBuf.Copy(rest);
          return;
        }
        assert rest == rest[..remaining] + rest[remaining..];
        ghost var block := blockBuf.Used() + rest[..remaining];
        AppendBlock(compression, old(Stream()), blocks, block, rest[remaining..]);
        Regroup(blockBuf.Used(), rest[..remaining], rest[remaining..]);
        FillBlock(rest[..remaining]);
        blocks := blocks + [block];
        rest := rest[remaining..];
        assert blockBuf.Used() + rest == rest;
      }
    }

    /** The block buffer is ended and its entries become a group. */
    method EndBlock()
      requires Laid() && compression.Packed? && pending != []
      modifies this`flushed, this`maxEntriesPerBlock, this`entryCount, this`groups, this`pending
      modifies file, blockBuf`cur, fileBuf, fileBuf.start
      ensures Laid() && pending == [] && Written() == old(Written())
      ensures groups == old(groups) + [Group(old(pending), [old(blockBuf.Used())])]
      ensures maxEntriesPerBlock >= old(maxEntriesPerBlock) && old(file.contents) <= file.contents
    {
      hide Image, EncodeAll, Framed, FramedAll, IsGroup, AreGroups, Sound, Entries, IsMost;
      ghost var gr := Group(pending, [blockBuf.Used()]);
      BlockGroup(compression, pending);
      GroupDone(compression, groups, gr);
      MostNext(groups, maxEntriesPerBlock, gr);
      ghost var stream := Stream();
      FlushCompressed();
      DropPlus(stream, Framed(compression, gr.blocks[0]), LOG_HEADER_SIZE);
      groups, pending := groups + [gr], [];
      assert old(Entries(groups)) + gr.entries + [] == old(Written());
      EncodeNone();
    }

    /** Room for the header is made before an entry is added, and for the whole entry if a block can hold it. */
    method MakeRoom(headerLen: nat, len: nat)
      requires Laid() && compression.Packed? && headerLen <= len && headerLen <= compression.blockSize
      modifies this`flushed, this`maxEntriesPerBlock, this`entryCount, this`groups, this`pending
      modifies file, blockBuf`cur, fileBuf, fileBuf.start
      ensures Laid() && Written() == old(Written())
      ensures headerLen <= blockBuf.Remaining()
      ensures len <= compression.blockSize ==> len <= blockBuf.Remaining()
      ensures if headerLen <= old(blockBuf.Remaining()) && (len <= old(blockBuf.Remaining()) || len > compression.blockSize)
        then unchanged(this) && unchanged(file) && unchanged(blockBuf) && unchanged(fileBuf) && unchanged(fileBuf.start)
        else groups == old(groups) + [Group(old(pending), [old(blockBuf.Used())])] && pending == []
      ensures maxEntriesPerBlock >= old(maxEntriesPerBlock) && old(file.contents) <= file.contents
    {
      hide Image, EncodeAll, Framed, FramedAll, IsGroup, AreGroups, Sound, Entries;
      var remaining := blockBuf.Remaining();
      var fitsInOne := len <= blockBuf.start.Length;
      var doesntFitThis := len > remaining;
      if remaining < headerLen || (fitsInOne && doesntFitThis) {
        EncodeNone();
        EndBlock();
        EncodeNone();
      }
    }

    method AddHeader(buf1: Bytes, buf2: Bytes)
      requires Apart() && compression.Packed? && Sound(compression) && |buf1 + buf2| <= blockBuf.Remaining()
      modifies this`flushed, this`maxEntriesPerBlock, this`entryCount
      modifies file, blockBuf, blockBuf.start, fileBuf, fileBuf.start
      ensures Apart() && blockBuf.Used() == old(blockBuf.Used()) + (buf1 + buf2)
      ensures unchanged(this) && unchanged(file) && unchanged(fileBuf) && unchanged(fileBuf.start)
    {
      hide Framed, FramedAll, Sound, Concat;
      Regroup(blockBuf.Used(), buf1, buf2);
      ghost var none := CompressedAdd(buf1);
      none := CompressedAdd(buf2);
    }

    /** Key and value; if they spilled over, the last block is ended too. */
    method AddBody(data1: Bytes, data2: Bytes) returns (ghost blocks: seq<Bytes>)
      requires Apart() && compression.Packed? && Sound(compression) && !flushed
      modifies this`flushed, this`maxEntriesPerBlock, this`entryCount
      modifies file, blockBuf, blockBuf.start, fileBuf, fileBuf.start
      ensures Apart() && old(file.contents) <= file.contents
      ensures |data1 + data2| <= old(blockBuf.Remaining()) <==> blocks == []
      ensures blocks == [] ==> unchanged(this) && unchanged(file) && unchanged(fileBuf) && unchanged(fileBuf.start)
      ensures blocks == [] ==> blockBuf.Used() == old(blockBuf.Used()) + (data1 + data2)
      ensures blocks != [] ==>
        && blockBuf.Used() == [] && Concat(blocks) == old(blockBuf.Used()) + (data1 + data2)
        && Stream() == old(Stream()) + FramedAll(compression, blocks)
        && Cut(blocks, compression.blockSize) && |blocks[0]| >= |old(blockBuf.Used())|
        && entryCount == 0 && maxEntriesPerBlock == Larger(old(entryCount), old(maxEntriesPerBlock))
    {
      hide Framed, FramedAll, Sound, Concat;
      ghost var stream0, used2 := Stream(), blockBuf.Used();
      ghost var blocks3 := CompressedAdd(data1);
      ghost var used3 := blockBuf.Used();
      ghost var blocks4 := CompressedAdd(data2);
      ghost var used4 := blockBuf.Used();
      EntryBlocks(compression, used2, data1, data2, blocks3, used3, blocks4, used4);
      NoBlocks(compression, [], used3);
      if flushed && blockBuf.cur > 0 {
        FlushCompressed();
        FlushOrder(compression, stream0, blocks3, blocks4, used4);
        blocks := blocks3 + blocks4 + [used4];
      } else {
        blocks := [];
      }
    }

    /** The entry goes to the block buffer, with or without spilling over. */
    method AddPacked(buf1: Bytes, buf2: Bytes, data1: Bytes, data2: Bytes, ghost e: Entry)
      requires Laid() && compression.Packed? && Fits(e) && |Header(e)| <= blockBuf.Remaining()
      requires Header(e) == buf1 + buf2 && e.key + ValueOf(e) == data1 + data2
      requires |Encoded(e)| <= compression.blockSize ==> |Encoded(e)| <= blockBuf.Remaining()
      modifies this`flushed, this`maxEntriesPerBlock, this`entryCount, this`groups, this`pending
      modifies file, blockBuf, blockBuf.start, fileBuf, fileBuf.start
      ensures Laid() && Written() == old(Written()) + [e]
      ensures if |Encoded(e)| <= old(blockBuf.Remaining())
        then groups == old(groups) && pending == old(pending) + [e]
             && unchanged(file) && unchanged(fileBuf) && unchanged(fileBuf.start)
        else Spills(old(groups), old(pending) + [e], groups, compression.blockSize) && pending == []
      ensures maxEntriesPerBlock >= old(maxEntriesPerBlock) && old(file.contents) <= file.contents
    {
      hide Image, EncodeAll, Framed, FramedAll, IsGroup, AreGroups, Sound, Entries, Concat, Header, ValueOf, IsMost;
      entryCount := entryCount + 1;
      flushed := false;
      ghost var es, used0, stream0 := pending, blockBuf.Used(), Stream();
      ghost var maxEntriesBefore := maxEntriesPerBlock;
      AddHeader(buf1, buf2);
      ghost var blocks := AddBody(data1, data2);
      StartOf(es, e, blocks);
      EncodedIs(e);
      Regroup(used0, Header(e), data1 + data2);
      if blocks == [] {
        pending := pending + [e];
      } else {
        SpilledGroup(compression, es, e, blocks);
        GroupDone(compression, groups, Group(es + [e], blocks));
        MostNext(groups, maxEntriesBefore, Group(es + [e], blocks));
        DropPlus(stream0, FramedAll(compression, blocks), LOG_HEADER_SIZE);
        groups, pending := groups + [Group(es + [e], blocks)], [];
        EncodeNone();
      }
      assert old(Entries(groups)) + (es + [e]) == old(Written()) + [e];
    }

    /** Without compression the entry goes straight to the file buffer. */
    method AddPlain(buf1: Bytes, buf2: Bytes, data1: Bytes, data2: Bytes, ghost e: Entry)
      requires Laid() && compression.Plain? && Fits(e)
      requires Header(e) == buf1 + buf2 && e.key + ValueOf(e) == data1 + data2
      modifies this`groups, file, fileBuf, fileBuf.start
      ensures Laid() && Written() == old(Written()) + [e]
      ensures groups == old(groups) + [Group([e], [Encoded(e)])]
      ensures old(file.contents) <= file.contents
    {
      hide Image, EncodeAll, Framed, FramedAll, IsGroup, AreGroups, Sound, Entries, Concat, Header, ValueOf, Encode;
      ghost var stream0 := Stream();
      fileBuf.Add(file, buf1);
      fileBuf.Add(file, buf2);
      fileBuf.Add(file, data1);
      fileBuf.Add(file, data2);
      EncodedIs(e);
      FourPieces(stream0, buf1, buf2, data1, data2);
      DropPlus(stream0, Encoded(e), LOG_HEADER_SIZE);
      PlainGroup(compression, e);
      GroupDone(compression, groups, Group([e], [Encoded(e)]));
      groups := groups + [Group([e], [Encoded(e)])];
      NothingEncoded(pending);
      assert pending == [];
      assert old(Entries(groups)) + [e] + [] == old(Entries(groups)) + [] + [e];
    }

    method LogAdd(num1: nat, num2: nat, data1: Bytes, data2: Bytes, ghost e: Entry) returns (datasize: nat)
      requires Laid() && Fits(e) && num1 < TWO_64 && num2 < TWO_64
      requires Header(e) == Encode(num1) + Encode(num2) && e.key + ValueOf(e) == data1 + data2
      requires compression.Packed? ==> |Header(e)| <= compression.blockSize
      modifies this`flushed, this`maxEntriesPerBlock, this`entryCount, this`groups, this`pending
      modifies file, blockBuf, blockBuf.start, fileBuf, fileBuf.start
      ensures Laid() && Written() == old(Written()) + [e]
      ensures Lays(compression, old(groups), old(pending), e, groups, pending)
      ensures compression.Packed? && |Encoded(e)| <= old(blockBuf.Remaining()) ==> unchanged(file)
      ensures datasize == |Encoded(e)|
      ensures maxEntriesPerBlock >= old(maxEntriesPerBlock) && old(file.contents) <= file.contents
    {
      hide Image, EncodeAll, Framed, FramedAll, IsGroup, AreGroups, Sound, Entries, Concat, Header, ValueOf, Encode;
      var buf1, buf2 := new byte[10], new byte[10];
      var written1 := Vlq.Write(buf1, num1);
      var written2 := Vlq.Write(buf2, num2);
      EncodedIs(e);
      datasize := written1 + written2 + |data1| + |data2|;
      if compression.Packed? {
        ghost var gs, es := groups, pending;
        MakeRoom(written1 + written2, datasize);
        ghost var gs1, es1 := groups, pending;
        AddPacked(buf1[..written1], buf2[..written2], data1, data2, e);
        RoomThenAdded(compression, gs, es, e, gs1, es1, groups, pending);
      } else {
        AddPlain(buf1[..written1], buf2[..written2], data1, data2, e);
      }
    }

    /** One more part of an entry; `blocks` are those sent out for it so far, `done` the bytes before this part. */
    method AddPart(data: Bytes, ghost stream: Bytes, ghost blocks: seq<Bytes>, ghost done: Bytes)
      returns (ghost more: seq<Bytes>)
      requires Apart() && compression.Packed? && Sound(compression) && AllFull(blocks, compression.blockSize)
      requires Stream() == stream + FramedAll(compression, blocks) && Concat(blocks) + blockBuf.Used() == done
      requires blocks != [] ==> flushed && blockBuf.Used() != []
      modifies this`flushed, this`maxEntriesPerBlock, this`entryCount
      modifies file, blockBuf, blockBuf.start, fileBuf, fileBuf.start
      ensures Apart() && AllFull(more, compression.blockSize)
      ensures Stream() == stream + FramedAll(compression, more) && Concat(more) + blockBuf.Used() == done + data
      ensures if more == [] then flushed == old(flushed) else flushed && blockBuf.Used() != []
    {
      hide FramedAll, Framed, Concat, Sound;
      ghost var used := blockBuf.Used();
      ghost var added := CompressedAdd(data);
      more := blocks + added;
      MoreBlocks(compression, stream, blocks, added, used, blockBuf.Used(), data);
    }

    /** The four parts of an entry that is longer than a block, and what remains in the block buffer. */
    method AddLongParts(buf1: Bytes, buf2: Bytes, data1: Bytes, data2: Bytes, ghost all: Bytes)
      returns (ghost blocks: seq<Bytes>)
      requires Apart() && compression.Packed? && Sound(compression) && blockBuf.Used() == []
      requires all == (buf1 + buf2) + (data1 + data2) && |all| > compression.blockSize
      modifies this`flushed, this`maxEntriesPerBlock, this`entryCount
      modifies file, blockBuf, blockBuf.start, fileBuf, fileBuf.start
      ensures Apart() && blockBuf.Used() == [] && Concat(blocks) == all
      ensures Stream() == old(Stream()) + FramedAll(compression, blocks)
      ensures Cut(blocks, compression.blockSize) && |blocks| > 1
    {
      hide Framed, FramedAll, Sound, Concat;
      ghost var stream := Stream();
      NoBlocks(compression, stream, []);
      flushed := false;
      blocks := AddPart(buf1, stream, [], []);
      blocks := AddPart(buf2, stream, blocks, [] + buf1);
      blocks := AddPart(data1, stream, blocks, [] + buf1 + buf2);
      blocks := AddPart(data2, stream, blocks, [] + buf1 + buf2 + data1);
      FourParts(buf1, buf2, data1, data2);
      NoBlocks(compression, stream, blockBuf.Used());
      if flushed && blockBuf.cur > 0 {
        ghost var used := blockBuf.Used();
        FlushCompressed();
        LastBlock(compression, stream, blocks, used);
        blocks := blocks + [used];
      }
    }

    /** An entry whose header is longer than a block is added all the same: the buffer is sent out even if it is
        empty, and the header is split over blocks. */
    method LogAddLong(num1: nat, num2: nat, data1: Bytes, data2: Bytes, ghost e: Entry)
      returns (datasize: nat, ghost blocks: seq<Bytes>)
      requires Laid() && compression.Packed? && num1 < TWO_64 && num2 < TWO_64
      requires Header(e) == Encode(num1) + Encode(num2) && e.key + ValueOf(e) == data1 + data2
      requires |Header(e)| > compression.blockSize
      modifies this`flushed, this`maxEntriesPerBlock, this`entryCount
      modifies file, blockBuf, blockBuf.start, fileBuf, fileBuf.start
      ensures Apart() && datasize == |Encoded(e)| && blockBuf.Used() == []
      ensures Stream() == old(Stream()) + Framed(compression, old(blockBuf.Used())) + FramedAll(compression, blocks)
      ensures Concat(blocks) == Encoded(e) && Cut(blocks, compression.blockSize)
      ensures |blocks| > 1 && |blocks[0]| < |Header(e)|
    {
      hide Image, EncodeAll, Framed, FramedAll, IsGroup, AreGroups, Sound, Entries, Concat, Header, ValueOf, Encode, Laid,
           AllFit;
      StaysApart();
      var buf1, buf2 := new byte[10], new byte[10];
      var written1 := Vlq.Write(buf1, num1);
      var written2 := Vlq.Write(buf2, num2);
      EncodedIs(e);
      datasize := written1 + written2 + |data1| + |data2|;
      FlushCompressed();
      entryCount := entryCount + 1;
      blocks := AddLongParts(buf1[..written1], buf2[..written2], data1, data2, Encoded(e));
    }

    lemma StaysApart()
      requires Laid()
      ensures Apart() && Sound(compression)
    {
    }

    method Put(key: Bytes, value: Bytes)
      requires Valid() && Fits(LogFormat.Put(key, value))
      requires compression.Packed? ==> |Header(LogFormat.Put(key, value))| <= compression.blockSize
      modifies Repr()
      ensures Valid() && Written() == old(Written()) + [LogFormat.Put(key, value)]
      ensures Lays(compression, old(groups), old(pending), LogFormat.Put(key, value), groups, pending)
      ensures old(file.contents) <= file.contents
    {
      hide Image, EncodeAll, Framed, FramedAll, IsGroup, AreGroups, Sound, Entries, Concat, Encode, Puts, Laid,
           Encoded, PutBytes, LargestKey, LargestValue, Lays;
      ghost var e := LogFormat.Put(key, value);
      ghost var written := Written();
      var datasize := LogAdd(|key| + 1, |value|, key, value, e);
      numPuts := numPuts + 1;
      putSize := putSize + datasize;
      if |key| > maxKeyLen {
        maxKeyLen := |key|;
      }
      if |value| > maxValueLen {
        maxValueLen := |value|;
      }
      CountsAfter(written, e);
    }

    method Delete(key: Bytes)
      requires Valid() && Fits(LogFormat.Delete(key))
      requires compression.Packed? ==> |Header(LogFormat.Delete(key))| <= compression.blockSize
      modifies Repr()
      ensures Valid() && Written() == old(Written()) + [LogFormat.Delete(key)]
      ensures Lays(compression, old(groups), old(pending), LogFormat.Delete(key), groups, pending)
      ensures old(file.contents) <= file.contents
    {
      hide Image, EncodeAll, Framed, FramedAll, IsGroup, AreGroups, Sound, Entries, Concat, Encode, Puts, Laid,
           Encoded, PutBytes, LargestKey, LargestValue, Lays;
      ghost var e := LogFormat.Delete(key);
      ghost var written := Written();
      assert e.key + ValueOf(e) == [] + key;
      var datasize := LogAdd(0, |key|, [], key, e);
      numDeletes := numDeletes + 1;
      deleteSize := deleteSize + datasize;
      CountsAfter(written, e);
    }

    /** Everything written reaches the file. */
    method FlushBuffers()
      requires Valid()
      modifies this`flushed, this`maxEntriesPerBlock, this`entryCount, this`groups, this`pending
      modifies file, blockBuf`cur, fileBuf, fileBuf.start
      ensures Valid() && Written() == old(Written())
      ensures Ends(old(groups), old(pending), groups, pending)
      ensures fileBuf.cur == 0 && old(file.contents) <= file.contents
    {
      hide PutBytes, LargestKey, LargestValue, Image, EncodeAll, Framed, FramedAll, IsGroup, AreGroups, Sound,
           Entries, Concat, Puts;
      NothingEncoded(pending);
      if blockBuf.cur > 0 {
        EndBlock();
      }
      if fileBuf.cur > 0 {
        fileBuf.FlushFile(file);
        assert Stream() == file.contents + [];
      }
    }

    /** The header at the start of the file is rewritten. */
    method WriteHeader()
      requires Laid()
      modifies file
      ensures Laid() && |file.contents| == |old(file.contents)|
      ensures file.contents == WriteLogHeader(HeaderNow()) + old(file.contents)[LOG_HEADER_SIZE..]
    {
      hide Image, EncodeAll, AreGroups, Sound, Entries, BlocksHold, AllFit, WriteLogHeader;
      ghost var data := file.contents;
      file.WriteAtStart(WriteLogHeader(HeaderNow()));
      DropPlus(data, fileBuf.Used(), LOG_HEADER_SIZE);
      DropPlus(file.contents, fileBuf.Used(), LOG_HEADER_SIZE);
      assert file.contents[LOG_HEADER_SIZE..] == data[LOG_HEADER_SIZE..];
    }

    /** Once everything has reached the file, the header describes it. */
    lemma Complete()
      requires Valid() && pending == [] && fileBuf.cur == 0 && dataEnd == |file.contents|
      ensures Describes(HeaderNow(), Log(compression, file.contents, maxEntriesPerBlock), groups)
    {
      hide PutBytes, LargestKey, LargestValue, Image, EncodeAll, AreGroups, Sound, BlocksHold, AllFit, Puts;
      assert Stream() == file.contents + [] == file.contents;
      assert Written() == Entries(groups) + [] == Entries(groups);
    }

    /** Makes everything written readable. */
    method Flush()
      requires Valid()
      modifies Repr()
      ensures Valid() && Written() == old(Written())
      ensures Ends(old(groups), old(pending), groups, pending)
      ensures Describes(HeaderNow(), Log(compression, file.contents, maxEntriesPerBlock), groups)
      ensures file.contents[..LOG_HEADER_SIZE] == WriteLogHeader(HeaderNow())
      ensures old(file.contents)[LOG_HEADER_SIZE..] <= file.contents[LOG_HEADER_SIZE..]
    {
      hide PutBytes, LargestKey, LargestValue, Image, EncodeAll, IsGroup, AreGroups, Sound, Entries, Puts, BlocksHold,
           Fits, Describes, WriteLogHeader;
      FlushBuffers();
      dataEnd := |file.contents|;
      ghost var data := file.contents;
      WriteHeader();
      Complete();
    }
  }

  /** Every block size that is accepted has room for the header of a delete, and for that of a put of
      less than 32 GB each of key and value. */
  lemma HeaderFitsAnyBlock(e: Entry)
    requires Fits(e) && (e.Put? ==> |e.key| + 1 < 0x8_0000_0000 && |e.value| < 0x8_0000_0000)
    ensures |Header(e)| <= MIN_BLOCK_SIZE
  {
    SizeIsLength(if e.Put? then |e.key| + 1 else 0);
    SizeIsLength(if e.Put? then |e.value| else |e.key|);
  }

  lemma FourPieces(s: Bytes, a: Bytes, b: Bytes, c: Bytes, d: Bytes)
    ensures s + a + b + c + d == s + ((a + b) + (c + d))
  {
  }

  lemma NothingEncoded(es: seq<Entry>)
    ensures EncodeAll(es) == [] <==> es == []
  {
  }

  /** The counters after one more entry. */
  lemma CountsAfter(es: seq<Entry>, e: Entry)
    ensures Puts(es + [e]) == Puts(es) + if e.Put? then 1 else 0
    ensures |EncodeAll(es + [e])| == |EncodeAll(es)| + |Encoded(e)|
    ensures PutBytes(es + [e]) == PutBytes(es) + if e.Put? then |Encoded(e)| else 0
    ensures LargestKey(es + [e]) == Larger(LargestKey(es), if e.Put? then |e.key| else 0)
    ensures LargestValue(es + [e]) == Larger(LargestValue(es), |ValueOf(e)|)
  {
    StatsAppend(es, e);
    PutsAppend(es, e);
    EncodeAllAppend(es, [e]);
    EncodeOne(e);
  }

  lemma EncodedIs(e: Entry)
    ensures Encoded(e) == Header(e) + (e.key + ValueOf(e))
  {
  }

  /** The blocks an entry fills up, and what it leaves in the buffer, are the buffer before and the entry. */
  lemma EntryBlocks(c: Compression, used2: Bytes, data1: Bytes, data2: Bytes,
                    blocks3: seq<Bytes>, used3: Bytes, blocks4: seq<Bytes>, used4: Bytes)
    requires Concat(blocks3) + used3 == used2 + data1
    requires Concat(blocks4) + used4 == used3 + data2
    ensures Concat(blocks3 + blocks4 + [used4]) == used2 + (data1 + data2)
    ensures blocks3 == [] && blocks4 == [] ==> used4 == used2 + (data1 + data2)
  {
    ConcatAppend(blocks3 + blocks4, [used4]);
    ConcatAppend(blocks3, blocks4);
    OneBlock(c, used4);
    hide Concat;
    Regroup(Concat(blocks3), Concat(blocks4), used4);
    Regroup(Concat(blocks3), used3, data2);
    Regroup(used2, data1, data2);
    if blocks3 == [] && blocks4 == [] {
      assert blocks3 + blocks4 + [used4] == [used4];
    }
  }

  lemma MoreBlocks(c: Compression, stream: Bytes, blocks: seq<Bytes>, added: seq<Bytes>, used: Bytes, left: Bytes, data: Bytes)
    requires Concat(added) + left == used + data
    ensures stream + FramedAll(c, blocks) + FramedAll(c, added) == stream + FramedAll(c, blocks + added)
    ensures Concat(blocks + added) + left == Concat(blocks) + used + data
  {
    FramedAppend(c, blocks, added);
    ConcatAppend(blocks, added);
    hide FramedAll, Concat;
    Regroup(stream, FramedAll(c, blocks), FramedAll(c, added));
    Regroup(Concat(blocks), Concat(added), left);
    Regroup(Concat(blocks), used, data);
  }

  lemma FourParts(a: Bytes, b: Bytes, c: Bytes, d: Bytes)
    ensures [] + a + b + c + d == (a + b) + (c + d)
  {
  }

  lemma LastBlock(c: Compression, stream: Bytes, blocks: seq<Bytes>, used: Bytes)
    ensures stream + FramedAll(c, blocks) + Framed(c, used) == stream + FramedAll(c, blocks + [used])
    ensures Concat(blocks + [used]) == Concat(blocks) + used
  {
    FramedAppend(c, blocks, [used]);
    ConcatAppend(blocks, [used]);
    OneBlock(c, used);
    hide FramedAll, Framed, Concat;
    Regroup(stream, FramedAll(c, blocks), Framed(c, used));
  }

  lemma FlushOrder(c: Compression, stream: Bytes, blocks3: seq<Bytes>, blocks4: seq<Bytes>, used4: Bytes)
    ensures stream + FramedAll(c, blocks3) + FramedAll(c, blocks4) + Framed(c, used4)
         == stream + FramedAll(c, blocks3 + blocks4 + [used4])
  {
    FramedAppend(c, blocks3 + blocks4, [used4]);
    FramedAppend(c, blocks3, blocks4);
    OneBlock(c, used4);
    hide FramedAll, Framed;
    Regroup(stream, FramedAll(c, blocks3), FramedAll(c, blocks4));
    Regroup(stream, FramedAll(c, blocks3 + blocks4), Framed(c, used4));
  }

  lemma DropPlus(a: Bytes, b: Bytes, n: nat)
    requires n <= |a|
    ensures (a + b)[n..] == a[n..] + b
  {
  }

  lemma NoneFit()
    ensures AllFit([])
  {
  }

  lemma EncodeNone()
    ensures EncodeAll([]) == []
  {
  }

  lemma NoBlocks(c: Compression, stream: Bytes, data: Bytes)
    ensures stream + FramedAll(c, []) == stream && Concat([]) + data == data
  {
  }

  lemma AppendBlock(c: Compression, stream: Bytes, blocks: seq<Bytes>, block: Bytes, rest: Bytes)
    ensures stream + FramedAll(c, blocks + [block]) == stream + FramedAll(c, blocks) + Framed(c, block)
    ensures Concat(blocks + [block]) + rest == Concat(blocks) + (block + rest)
  {
    hide FramedAll, Framed, Concat;
    FramedAppend(c, blocks, [block]);
    ConcatAppend(blocks, [block]);
    OneBlock(c, block);
    Regroup(stream, FramedAll(c, blocks), Framed(c, block));
    Regroup(Concat(blocks), block, rest);
  }

  lemma OneBlock(c: Compression, block: Bytes)
    ensures FramedAll(c, [block]) == Framed(c, block) && Concat([block]) == block
  {
    assert FramedAll(c, [block]) == Framed(c, block) + FramedAll(c, []);
    assert Concat([block]) == block + Concat([]);
  }

  // ---- Groups ----

  lemma GroupDone(c: Compression, groups: seq<Group>, gr: Group)
    requires AreGroups(c, groups) && IsGroup(c, gr)
    ensures AreGroups(c, groups + [gr])
    ensures Image(c, groups + [gr]) == Image(c, groups) + FramedAll(c, gr.blocks)
    ensures Entries(groups + [gr]) == Entries(groups) + gr.entries
  {
    hide IsGroup, FramedAll;
    ImageAppend(c, groups, [gr]);
    EntriesAppend(groups, [gr]);
    assert Image(c, [gr]) == FramedAll(c, gr.blocks) + Image(c, []);
    assert Entries([gr]) == gr.entries + Entries([]);
    forall g | 0 <= g < |groups + [gr]| ensures IsGroup(c, (groups + [gr])[g]) {
      if g < |groups| { assert IsGroup(c, groups[g]); }
    }
  }

  lemma MostNext(groups: seq<Group>, n: nat, gr: Group)
    requires IsMost(groups, n)
    ensures IsMost(groups + [gr], Larger(|gr.entries|, n))
  {
    var after := groups + [gr];
    if |gr.entries| > n || groups == [] {
      assert after[|groups|] == gr;
    } else {
      var g :| 0 <= g < |groups| && |groups[g].entries| == n;
      assert after[g] == groups[g];
    }
  }

  /** A plain entry is a group. */
  lemma PlainGroup(c: Compression, e: Entry)
    requires c.Plain? && Fits(e)
    ensures IsGroup(c, Group([e], [Encoded(e)])) && FramedAll(c, [Encoded(e)]) == Encoded(e)
  {
    hide Header, Encoded;
    OneBlock(c, Encoded(e));
    EncodeOne(e);
    StartOf([], e, [Encoded(e)]);
  }

  /** The last entry of a group starts behind all others. */
  lemma StartOf(es: seq<Entry>, e: Entry, blocks: seq<Bytes>)
    ensures Start(Group(es + [e], blocks), |es|) == |EncodeAll(es)|
    ensures EncodeAll(es + [e]) == EncodeAll(es) + Encoded(e)
  {
    hide EncodeAll, Encoded;
    assert (es + [e])[..|es|] == es;
    EncodeAllAppend(es, [e]);
    EncodeOne(e);
  }

  /** A block of whole entries is a group. */
  lemma BlockGroup(c: Compression, es: seq<Entry>)
    requires c.Packed? && es != [] && AllFit(es) && |EncodeAll(es)| <= c.blockSize
    ensures IsGroup(c, Group(es, [EncodeAll(es)])) && FramedAll(c, [EncodeAll(es)]) == Framed(c, EncodeAll(es))
  {
    hide EncodeAll, Encoded, Framed;
    var n := |es| - 1;
    assert es == es[..n] + [es[n]];
    StartOf(es[..n], es[n], [EncodeAll(es)]);
    OneBlock(c, EncodeAll(es));
  }

  /** Entries whose last one spills over the first block are a group. */
  lemma SpilledGroup(c: Compression, es: seq<Entry>, e: Entry, blocks: seq<Bytes>)
    requires c.Packed? && AllFit(es) && Fits(e) && blocks != [] && Cut(blocks, c.blockSize)
    requires Concat(blocks) == EncodeAll(es) + Encoded(e)
    requires |EncodeAll(es)| + |Header(e)| <= |blocks[0]| && |Encoded(e)| > c.blockSize
    ensures IsGroup(c, Group(es + [e], blocks))
  {
    hide EncodeAll, Encoded, Concat, Header;
    StartOf(es, e, blocks);
  }
}
