/** The log iterator: a cursor over blocks. */
module LogReader {
  import opened Vlq
  import opened LogFormat

  datatype IterState = New | Active | Closed | Invalid

  datatype EntryType = PutEntry | DeleteEntry

  datatype ReturnCode = Success | IteratorInactive

  function Min(a: nat, b: nat): nat {
    if a < b then a else b
  }

  /** The length of a group in uncompressed bytes. */
  function GroupLen(gs: seq<Group>, g: nat): nat
    requires g < |gs|
  {
    |EncodeAll(gs[g].entries)|
  }

  /** What a block holds for the iterator: without compression it reaches to the end of the file. */
  function BlockBytes(log: Log, gs: seq<Group>, g: nat, j: nat): Bytes
    requires g < |gs| && j < |gs[g].blocks| && Pos(log.compression, gs, g) <= |log.data|
  {
    if log.compression.Plain? then log.data[Pos(log.compression, gs, g)..] else gs[g].blocks[j]
  }

  function NextPos(log: Log, gs: seq<Group>, g: nat, j: nat): nat
    requires g < |gs| && j < |gs[g].blocks|
  {
    if log.compression.Plain? then |log.data| else BlockPos(log.compression, gs, g, j + 1)
  }

  /** What the iterator needs to know about a block, without looking into groups. */
  lemma BlockFacts(log: Log, gs: seq<Group>, g: nat, j: nat)
    requires IsLog(log, gs) && g < |gs| && j < |gs[g].blocks|
    ensures Sound(log.compression) && AreGroups(log.compression, gs)
    ensures LOG_HEADER_SIZE <= Pos(log.compression, gs, g) < |log.data|
    ensures LOG_HEADER_SIZE <= BlockPos(log.compression, gs, g, j)
    ensures gs[g].blocks[j] != [] && |gs[g].entries| > 0
    ensures log.compression.Plain? ==>
      j == 0 && |gs[g].blocks| == |gs[g].entries| == 1 && BlockPos(log.compression, gs, g, 0) == Pos(log.compression, gs, g)
    ensures log.compression.Packed? ==> |gs[g].blocks[j]| <= log.compression.blockSize
    ensures Before(gs[g], |gs[g].blocks|) == GroupLen(gs, g)
    ensures Before(gs[g], j + 1) == Before(gs[g], j) + |gs[g].blocks[j]| <= GroupLen(gs, g)
  {
    hide Image, FramedAll, EncodeAll, Concat, Start, Framed, Header;
    assert IsGroup(log.compression, gs[g]);
    PosBounds(log, gs, g);
    FirstBlock(log.compression, gs, g);
    BeforeNext(gs[g], j);
    assert gs[g].blocks[..|gs[g].blocks|] == gs[g].blocks;
  }

  lemma GroupHasBlock(log: Log, gs: seq<Group>, g: nat)
    requires IsLog(log, gs) && g < |gs|
    ensures |gs[g].blocks| > 0
  {
    assert IsGroup(log.compression, gs[g]);
  }

  lemma GroupIs(log: Log, gs: seq<Group>, g: nat)
    requires IsLog(log, gs) && g < |gs|
    ensures IsGroup(log.compression, gs[g])
  {
  }

  lemma EntryFits(log: Log, gs: seq<Group>, g: nat, i: nat)
    requires IsLog(log, gs) && g < |gs| && i < |gs[g].entries|
    ensures Fits(gs[g].entries[i])
  {
    assert IsGroup(log.compression, gs[g]);
  }

  lemma FramedNonempty(log: Log, gs: seq<Group>, g: nat, j: nat)
    requires IsLog(log, gs) && g < |gs| && j < |gs[g].blocks|
    ensures Framed(log.compression, gs[g].blocks[j]) != []
  {
    assert IsGroup(log.compression, gs[g]);
  }

  lemma SliceOfSlice(s: Bytes, a: nat, b: nat, x: nat, y: nat)
    requires a <= x <= y <= b <= |s|
    ensures s[a..b][x - a..y - a] == s[x..y]
  {
    var t := s[a..b];
    forall k | 0 <= k < y - x ensures t[x - a..y - a][k] == s[x..y][k] {
      assert t[x - a + k] == s[x + k];
    }
  }

  /** A stretch of a group that lies in one block can be read from that block. */
  lemma GroupSlice(log: Log, gs: seq<Group>, g: nat, j: nat, x: nat, y: nat)
    requires IsLog(log, gs) && g < |gs| && j < |gs[g].blocks|
    requires Pos(log.compression, gs, g) <= |log.data|
    requires Before(gs[g], j) <= x <= y <= GroupLen(gs, g)
    requires y <= Before(gs[g], j) + |BlockBytes(log, gs, g, j)|
    ensures BlockBytes(log, gs, g, j)[x - Before(gs[g], j)..y - Before(gs[g], j)]
         == EncodeAll(gs[g].entries)[x..y]
  {
    hide Image, FramedAll, Encoded, EncodeAll, Concat, IsLog, IsGroup, Pos, BlockPos, Before;
    BlockFacts(log, gs, g, j);
    var block, all, b := BlockBytes(log, gs, g, j), EncodeAll(gs[g].entries), Before(gs[g], j);
    if log.compression.Plain? {
      PlainBlock(log, gs, g);
      SliceOfSlice(block, 0, |all|, x, y);
    } else {
      BlockIsSlice(log, gs, g, j);
      SliceOfSlice(all, b, b + |block|, x, y);
    }
  }

  lemma BlockIsSlice(log: Log, gs: seq<Group>, g: nat, j: nat)
    requires IsLog(log, gs) && g < |gs| && j < |gs[g].blocks|
    ensures Before(gs[g], j) <= Before(gs[g], j + 1) <= GroupLen(gs, g)
    ensures gs[g].blocks[j] == EncodeAll(gs[g].entries)[Before(gs[g], j)..Before(gs[g], j + 1)]
  {
    assert IsGroup(log.compression, gs[g]);
    hide Image, FramedAll, EncodeAll, Concat, Pos;
    BeforeNext(gs[g], j);
  }

  /** Without compression a group is the encoded entry itself. */
  lemma PlainBlock(log: Log, gs: seq<Group>, g: nat)
    requires IsLog(log, gs) && g < |gs| && log.compression.Plain?
    ensures Before(gs[g], 0) == 0
    ensures Pos(log.compression, gs, g) + GroupLen(gs, g) == Pos(log.compression, gs, g + 1) <= |log.data|
    ensures log.data[Pos(log.compression, gs, g)..][..GroupLen(gs, g)] == EncodeAll(gs[g].entries)
  {
    assert IsGroup(log.compression, gs[g]);
    var all := EncodeAll(gs[g].entries);
    assert gs[g].blocks == [gs[g].blocks[0]];
    assert Concat(gs[g].blocks) == gs[g].blocks[0] + Concat([]);
    assert gs[g].blocks[0] == all;
    DataFrom(log, gs, g);
    DataFrom(log, gs, g + 1);
    assert gs[g..][1..] == gs[g + 1..];
    assert FramedAll(log.compression, gs[g].blocks) == all + FramedAll(log.compression, []);
    PosNext(log.compression, gs, g);
    assert log.data[Pos(log.compression, gs, g)..] == all + Image(log.compression, gs[g + 1..]);
  }

  lemma ThreeParts(s: Bytes, p: nat, a: Bytes, b: Bytes, c: Bytes)
    requires p + |a| + |b| + |c| <= |s| && s[p..p + |a| + |b| + |c|] == a + (b + c)
    ensures s[p..p + |a|] == a && s[p + |a|..p + |a| + |b|] == b
    ensures s[p + |a| + |b|..p + |a| + |b| + |c|] == c
  {
    var x := a + (b + c);
    assert x[..|a|] == a && x[|a|..|a| + |b|] == b && x[|a| + |b|..] == c;
    SliceOfSlice(s, p, p + |x|, p, p + |a|);
    SliceOfSlice(s, p, p + |x|, p + |a|, p + |a| + |b|);
    SliceOfSlice(s, p, p + |x|, p + |a| + |b|, p + |x|);
  }

  /** The bytes of an entry within its group. */
  lemma EntryBytes(gr: Group, i: nat)
    requires i < |gr.entries|
    ensures var e, all := gr.entries[i], EncodeAll(gr.entries); var b := Start(gr, i) + |Header(e)|;
            && b + |e.key| + |ValueOf(e)| == Start(gr, i + 1) <= |all|
            && all[Start(gr, i)..b] == Header(e)
            && all[b..b + |e.key|] == e.key
            && all[b + |e.key|..b + |e.key| + |ValueOf(e)|] == ValueOf(e)
  {
    hide EncodeAll, Header, Start;
    EntryHere(gr, i);
    var e := gr.entries[i];
    ThreeParts(EncodeAll(gr.entries), Start(gr, i), Header(e), e.key, ValueOf(e));
  }

  /** A framed block can be taken apart again. */
  lemma FramedReads(log: Log, position: nat, block: Bytes)
    requires Sound(log.compression) && log.compression.Packed? && |block| <= log.compression.blockSize
    requires var f := Framed(log.compression, block);
             position + |f| <= |log.data| && log.data[position..position + |f|] == f
    ensures Terminated(log.data[position..])
    ensures var (size, n) := Decode(log.data[position..]);
            && size < 0x1_0000_0000 && n + size == |Framed(log.compression, block)|
            && log.compression.decompress(log.data[position + n..position + n + size]) == block
  {
    var packed := log.compression.compress(block);
    var f := Encode(|packed|) + packed;
    assert log.data[position..] == f + log.data[position + |f|..];
    assert log.data[position..] == Encode(|packed|) + (packed + log.data[position + |f|..]);
    RoundTrip(|packed|, packed + log.data[position + |f|..]);
    SliceOfDrop(log.data, position, |Encode(|packed|)|, |f|);
    assert f[|Encode(|packed|)|..] == packed;
  }

  /** A compressed block is read from its place in the file. */
  lemma BlockReads(log: Log, gs: seq<Group>, g: nat, j: nat)
    requires IsLog(log, gs) && g < |gs| && j < |gs[g].blocks| && log.compression.Packed?
    ensures var p := BlockPos(log.compression, gs, g, j);
            && p <= |log.data| && Terminated(log.data[p..])
            && var (size, n) := Decode(log.data[p..]);
            && size < 0x1_0000_0000 && p + n + size == BlockPos(log.compression, gs, g, j + 1) <= |log.data|
            && log.compression.decompress(log.data[p + n..p + n + size]) == gs[g].blocks[j]
  {
    hide IsLog, IsGroup, AreGroups, Sound, Framed, BlockPos, Terminated, Decode;
    BlockFacts(log, gs, g, j);
    BlockHere(log, gs, g, j);
    FramedReads(log, BlockPos(log.compression, gs, g, j), gs[g].blocks[j]);
  }

  /** The two numbers of a header: zero and the key length, or key length plus one and value length. */
  predicate Describe(a: nat, b: nat, e: Entry) {
    && (a == 0 <==> e.Delete?)
    && (if a == 0 then b else a - 1) == |e.key| && (if a == 0 then 0 else b) == |ValueOf(e)|
  }

  /** The numbers of an entry header, one after the other. */
  method ReadNumbers(buf: Bytes, offset: nat, ghost e: Entry) returns (a: nat, b: nat, newOffset: nat)
    requires Fits(e) && offset + |Header(e)| <= |buf| && buf[offset..offset + |Header(e)|] == Header(e)
    ensures Describe(a, b, e)
    ensures newOffset == offset + |Header(e)|
  {
    hide Encode, Decode, Terminated;
    ghost var x, y := if e.Put? then |e.key| + 1 else 0, if e.Put? then |e.value| else |e.key|;
    ghost var rest := buf[offset + |Header(e)|..];
    assert buf[offset..] == Encode(x) + (Encode(y) + rest);
    RoundTrip(x, Encode(y) + rest);
    a, newOffset := Vlq.Read(buf, offset);
    assert buf[newOffset..] == Encode(y) + rest;
    RoundTrip(y, rest);
    b, newOffset := Vlq.Read(buf, newOffset);
  }

  /** Where the first block ends, every later block is behind. */
  lemma FirstBlockFirst(gr: Group, j: nat)
    requires j < |gr.blocks|
    ensures Before(gr, 0) == 0 && (j > 0 ==> Before(gr, j) >= |gr.blocks[0]|)
  {
    assert gr.blocks[..0] == [];
    if j > 0 {
      BeforeNext(gr, 0);
      assert gr.blocks[..j] == gr.blocks[..1] + gr.blocks[1..j];
      ConcatAppend(gr.blocks[..1], gr.blocks[1..j]);
    }
  }

  lemma BlockCovers(log: Log, gs: seq<Group>, g: nat)
    requires IsLog(log, gs) && g < |gs| && |gs[g].blocks| > 0
    requires Pos(log.compression, gs, g) <= |log.data|
    ensures |BlockBytes(log, gs, g, 0)| >= |gs[g].blocks[0]|
  {
    hide IsLog, IsGroup, AreGroups, Pos, BlockPos, EncodeAll, Concat, Before;
    if log.compression.Plain? {
      BlockFacts(log, gs, g, 0);
      PlainBlock(log, gs, g);
    }
  }

  lemma StartZero(gr: Group)
    ensures Start(gr, 0) == 0 && Start(gr, |gr.entries|) == |EncodeAll(gr.entries)|
  {
    assert gr.entries[..0] == [] && gr.entries[..|gr.entries|] == gr.entries;
  }

  lemma EntryEnds(gr: Group, i: nat)
    requires i < |gr.entries|
    ensures Start(gr, i) + |Header(gr.entries[i])| + |gr.entries[i].key| + |ValueOf(gr.entries[i])|
         == Start(gr, i + 1) <= |EncodeAll(gr.entries)|
  {
    hide EncodeAll, Header, Start, Encoded, ValueOf;
    EntryBytes(gr, i);
  }

  lemma {:induction false} StartsApart(gr: Group, a: nat, b: nat)
    requires a <= b <= |gr.entries|
    ensures Start(gr, a) + (b - a) <= Start(gr, b)
  {
    hide EncodeAll, Start, Encoded, Header;
    if a < b {
      StartsApart(gr, a, b - 1);
      EntryHere(gr, b - 1);
    }
  }

  /** What is read from the group at the right offset is the next part of the key. */
  lemma KeyTaken(gr: Group, i: nat, done: nat, o: nat, res: Bytes)
    requires i < |gr.entries| && done + |res| <= |gr.entries[i].key|
    requires o == Start(gr, i) + |Header(gr.entries[i])| + done && o + |res| <= |EncodeAll(gr.entries)|
    requires res == EncodeAll(gr.entries)[o..o + |res|]
    ensures gr.entries[i].key[done..] == res + gr.entries[i].key[done + |res|..]
  {
    hide EncodeAll, Header, Start, Encoded, ValueOf;
    EntryBytes(gr, i);
    var b, k := Start(gr, i) + |Header(gr.entries[i])|, gr.entries[i].key;
    SliceOfSlice(EncodeAll(gr.entries), b, b + |k|, o, o + |res|);
    assert res == k[done..done + |res|];
  }

  lemma ValueTaken(gr: Group, i: nat, done: nat, o: nat, res: Bytes)
    requires i < |gr.entries| && done + |res| <= |ValueOf(gr.entries[i])|
    requires o == Start(gr, i) + |Header(gr.entries[i])| + |gr.entries[i].key| + done
    requires o + |res| <= |EncodeAll(gr.entries)| && res == EncodeAll(gr.entries)[o..o + |res|]
    ensures ValueOf(gr.entries[i])[done..] == res + ValueOf(gr.entries[i])[done + |res|..]
  {
    hide EncodeAll, Header, Start, Encoded, ValueOf;
    EntryBytes(gr, i);
    var b, v := Start(gr, i) + |Header(gr.entries[i])| + |gr.entries[i].key|, ValueOf(gr.entries[i]);
    SliceOfSlice(EncodeAll(gr.entries), b, b + |v|, o, o + |res|);
    assert res == v[done..done + |res|];
  }

  /** memcpy into a buffer. */
  method CopyInto(out: array<byte>, start: nat, data: Bytes)
    requires start + |data| <= out.Length
    modifies out
    ensures out[..] == old(out[..start]) + data + old(out[start + |data|..])
  {
    forall k | 0 <= k < |data| {
      out[start + k] := data[k];
    }
  }

  /** A buffer filled from `start` with the first bytes of a text, one piece further. */
  function Filled(base: Bytes, start: nat, text: Bytes, len: nat): Bytes
    requires len <= |text| && start + len <= |base|
  {
    base[..start] + text[..len] + base[start + len..]
  }

  lemma FillNothing(base: Bytes, start: nat, text: Bytes)
    ensures text[0..] == text && (start <= |base| ==> Filled(base, start, text, 0) == base)
  {
  }

  lemma FillStep(base: Bytes, start: nat, text: Bytes, len: nat, piece: Bytes)
    requires len + |piece| <= |text| && start + len + |piece| <= |base|
    requires piece <= text[len..]
    ensures Filled(base, start, text, len)[..start + len] + piece
          + Filled(base, start, text, len)[start + len + |piece|..] == Filled(base, start, text, len + |piece|)
    ensures text[len..][|piece|..] == text[len + |piece|..]
  {
    var before := Filled(base, start, text, len);
    assert before[..start + len] == base[..start] + text[..len];
    assert text[..len + |piece|] == text[..len] + piece;
    assert before[start + len + |piece|..] == base[start + len + |piece|..];
  }

  class LogIter {
    const log: Log
    ghost const gs: seq<Group>

    // position in the log
    var blockPosition: nat
    var nextBlockPosition: nat
    var blockOffset: nat
    var blockLen: nat
    var entryCount: int

    // the bytes of the current block, decompressed
    var buf: Bytes

    // current entry
    var entryBlockPosition: nat
    var entryBlockOffset: nat
    var entryType: EntryType
    var state: IterState
    var keylen: nat
    var valuelen: nat
    var keyRemaining: nat
    var valueRemaining: nat

    // block j of group g is loaded, or group g is to be loaded next; entry i of group g is current
    ghost var g: nat
    ghost var i: nat
    ghost var j: nat

    ghost predicate Loaded()
      reads `blockPosition, `nextBlockPosition, `blockOffset, `blockLen, `buf, `g, `j
      requires IsLog(log, gs)
    {
      && g < |gs| && j < |gs[g].blocks|
      && blockPosition == BlockPos(log.compression, gs, g, j)
      && Pos(log.compression, gs, g) <= |log.data|
      && buf == BlockBytes(log, gs, g, j) && blockLen == |buf|
      && nextBlockPosition == NextPos(log, gs, g, j)
      && blockOffset <= blockLen
    }

    ghost predicate Unloaded()
      reads `blockPosition, `nextBlockPosition, `blockOffset, `blockLen, `buf, `g, `j
    {
      && blockPosition == 0 && blockOffset == 0 && blockLen == 0
      && g <= |gs| && nextBlockPosition == Pos(log.compression, gs, g)
    }

    ghost predicate Consistent()
      reads `blockPosition, `nextBlockPosition, `blockOffset, `blockLen, `buf, `g, `j
    {
      IsLog(log, gs) && if blockPosition == 0 then Unloaded() else Loaded()
    }

    /** The offset in the current group, in uncompressed bytes. */
    ghost function Offset(): nat
      reads `blockOffset, `g, `j
      requires g < |gs| && j < |gs[g].blocks|
    {
      Before(gs[g], j) + blockOffset
    }

    ghost predicate AtEntry()
      reads this
    {
      && blockPosition != 0 && g < |gs| && i < |gs[g].entries| && j < |gs[g].blocks|
      && var e := gs[g].entries[i]; var body := Start(gs[g], i) + |Header(e)|;
      && entryType == (if e.Put? then PutEntry else DeleteEntry)
      && keylen == |e.key| && valuelen == |ValueOf(e)|
      && keyRemaining <= keylen && valueRemaining <= valuelen
      && (keyRemaining > 0 ==> valueRemaining == valuelen)
      && Offset() == body + (keylen - keyRemaining) + (valuelen - valueRemaining)
      && entryBlockPosition == Pos(log.compression, gs, g) && entryBlockOffset == body
      && (i + 1 < |gs[g].entries| ==> entryCount == i)
    }

    ghost predicate Valid()
      reads this
    {
      && Consistent()
      && (state == New ==> blockPosition == 0 || (j == 0 && blockOffset == 0 && entryCount == -1))
      && (state == Active ==> AtEntry())
    }

    /** The place of the current entry. */
    ghost function Here(): Place
      reads this
    {
      Place(g, i)
    }

    ghost function Entry(): Entry
      reads this
      requires Valid() && state == Active
    {
      EntryAt(gs, Here())
    }

    /** The block offset is where the k-th entry of the loaded group starts, or where the group ends. */
    ghost predicate StartsAt(k: nat)
      reads `blockPosition, `blockOffset, `entryCount, `g, `j
      requires blockPosition != 0 ==> g < |gs| && j < |gs[g].blocks|
    {
      blockPosition != 0 ==>
        && k <= |gs[g].entries| && Offset() == Start(gs[g], k) && (k < |gs[g].entries| ==> entryCount == k - 1)
    }

    /** Whether an invalid iterator happens to be where an entry starts, or at the end. */
    ghost predicate Aligned()
      reads this
      requires Consistent()
    {
      exists k :: StartsAt(k)
    }

    ghost function StartIndex(): (k: nat)
      reads this
      requires Consistent() && Aligned()
      ensures StartsAt(k)
    {
      var k :| StartsAt(k);
      k
    }

    /** The entry `Next` moves to. */
    ghost function Upcoming(): Place
      reads this
      requires Valid()
    {
      match state
      case New => Place(g, 0)
      case Active => After(gs, Here())
      case Closed => End(gs)
      case Invalid =>
        if !Aligned() then End(gs)
        else if blockPosition == 0 || StartIndex() < |gs[g].entries| then
          Place(g, if blockPosition == 0 then 0 else StartIndex())
        else Place(g + 1, 0)
    }

    /** Nothing needs to be skipped, or it is known how much. */
    ghost predicate CanMove()
      reads this
      requires Valid()
    {
      state != Invalid || Aligned()
    }

    /** Nothing of the current entry has been consumed. */
    ghost predicate Clean()
      reads this
    {
      keyRemaining == keylen && valueRemaining == valuelen
    }

    constructor (log: Log, ghost gs: seq<Group>)
      requires IsLog(log, gs)
      ensures Valid() && this.log == log && this.gs == gs
      ensures state == New && Upcoming() == Place(0, 0)
    {
      this.log, this.gs := log, gs;
      blockPosition, nextBlockPosition, blockOffset, blockLen := 0, LOG_HEADER_SIZE, 0, 0;
      state := New;
      g := 0;
    }

    method SeekBlock(position: nat, ghost g1: nat, ghost j1: nat)
      requires Consistent() && g1 < |gs| && j1 < |gs[g1].blocks|
      requires position == BlockPos(log.compression, gs, g1, j1)
      modifies `blockPosition, `nextBlockPosition, `blockOffset, `blockLen, `buf, `g, `j
      ensures Consistent() && blockPosition == position && g == g1 && j == j1 && blockOffset == 0
    {
      hide IsLog, IsGroup, AreGroups, Sound, Pos, BlockPos, EncodeAll, Concat, Start, Header, Encoded, Framed, Before,
           Decode, Terminated, Encode;
      blockOffset := 0;
      BlockFacts(log, gs, g1, j1);
      if blockPosition == position {
        BlockPosInjective(log.compression, gs, g, j, g1, j1);
        return;
      }
      if log.compression.Packed? {
        BlockReads(log, gs, g1, j1);
        var compressedSize, pos := Vlq.Read(log.data, position);
        compressedSize := compressedSize % 0x1_0000_0000;
        var nextPos := pos + compressedSize;
        buf := log.compression.decompress(log.data[pos..nextPos]);
        blockPosition, nextBlockPosition, blockLen := position, nextPos, |buf|;
      } else {
        buf := log.data[position..];
        blockPosition, nextBlockPosition, blockLen := position, |log.data|, |log.data| - position;
      }
      g, j := g1, j1;
    }

    /** The block that follows the loaded one, or the one to be loaded first. */
    ghost function NextBlock(): (nat, nat)
      reads `blockPosition, `nextBlockPosition, `blockOffset, `blockLen, `buf, `g, `j
      requires Consistent()
    {
      if blockPosition == 0 then (g, 0)
      else if log.compression.Plain? then (|gs|, 0)
      else if j + 1 < |gs[g].blocks| then (g, j + 1)
      else (g + 1, 0)
    }

    method EnsureAvailable()
      requires Consistent()
      modifies `blockPosition, `nextBlockPosition, `blockOffset, `blockLen, `buf, `entryCount, `g, `j
      ensures Consistent()
      ensures old(blockOffset < blockLen) ==>
        unchanged(`blockPosition, `nextBlockPosition, `blockOffset, `blockLen, `buf, `entryCount, `g, `j)
      ensures !old(blockOffset < blockLen) ==>
        (g, if g < |gs| then j else 0) == old(NextBlock())
        && (g < |gs| ==> blockPosition != 0 && blockOffset == 0 < blockLen && entryCount == -1)
        && (g == |gs| ==> blockPosition == 0)
      ensures old(blockPosition != 0 && Offset() < GroupLen(gs, g)) ==>
        && blockPosition != 0 && g == old(g) && j >= old(j) && blockOffset < blockLen
        && Offset() == old(Offset()) && (j == old(j) ==> entryCount == old(entryCount))
    {
      hide IsLog, IsGroup, AreGroups, Sound, Pos, BlockPos, EncodeAll, Concat, Start, Before;
      if blockOffset < blockLen {
        return;
      }
      ghost var next := NextBlock();
      if blockPosition != 0 && Offset() < GroupLen(gs, g) {
        MoreInGroup();
      }
      NextBlockPosition();
      if nextBlockPosition >= |log.data| {
        blockPosition, blockOffset, blockLen := 0, 0, 0;
        g := |gs|;
        PosBounds(log, gs, |gs|);
        return;
      }
      SeekBlock(nextBlockPosition, next.0, next.1);
      entryCount := -1;
      BlockFacts(log, gs, g, j);
    }

    lemma NextBlockPosition()
      requires Consistent() && blockOffset == blockLen
      ensures var (h, k) := NextBlock();
              if h < |gs|
              then k < |gs[h].blocks| && nextBlockPosition == BlockPos(log.compression, gs, h, k) < |log.data|
              else h == |gs| && nextBlockPosition == |log.data|
    {
      hide IsLog, IsGroup, AreGroups, Sound, Pos, BlockPos, EncodeAll, Concat, Start, Header, Encoded, BlockBytes,
           Framed, Before, Decode, Terminated, Encode;
      var (h, k) := NextBlock();
      PosBounds(log, gs, |gs|);
      if blockPosition != 0 {
        BlockFacts(log, gs, g, j);
        PosNext(log.compression, gs, g);
      }
      if h < |gs| {
        GroupHasBlock(log, gs, h);
        BlockHere(log, gs, h, k);
        FirstBlock(log.compression, gs, h);
        FramedNonempty(log, gs, h, k);
      }
    }

    /** While the group is not exhausted, the next block belongs to it. */
    lemma MoreInGroup()
      requires Consistent() && blockPosition != 0 && Offset() < GroupLen(gs, g)
      ensures blockOffset == blockLen ==>
        log.compression.Packed? && j + 1 < |gs[g].blocks| && Offset() == Before(gs[g], j + 1)
    {
      hide IsLog, IsGroup, AreGroups, Sound, Framed, Pos, BlockPos, Before;
      BlockFacts(log, gs, g, j);
      if log.compression.Plain? {
        PlainBlock(log, gs, g);
      }
    }

    method Skip(len: nat)
      requires Consistent()
      requires len > 0 ==> blockPosition != 0 && Offset() + len <= GroupLen(gs, g)
      modifies `blockPosition, `nextBlockPosition, `blockOffset, `blockLen, `buf, `entryCount, `g, `j
      ensures Consistent() && g == old(g) && (blockPosition == 0 <==> old(blockPosition == 0))
      ensures blockPosition != 0 ==> Offset() == old(Offset()) + len
      ensures j >= old(j) && (j == old(j) ==> entryCount == old(entryCount))
    {
      hide IsLog, IsGroup, AreGroups, Sound, Pos, BlockPos, EncodeAll, Concat, Start, Header, Encoded, BlockBytes,
           NextPos, Framed, Before, Decode, Terminated, Encode;
      var rest := len;
      while rest > 0
        invariant Consistent() && g == old(g) && (blockPosition == 0 <==> old(blockPosition == 0))
        invariant 0 <= rest <= len && (blockPosition != 0 ==> Offset() + rest == old(Offset()) + len)
        invariant j >= old(j) && (j == old(j) ==> entryCount == old(entryCount))
      {
        EnsureAvailable();
        var m := Min(rest, blockLen - blockOffset);
        rest := rest - m;
        blockOffset := blockOffset + m;
      }
    }

    // ---- Next ----

    /** Where an entry starts, its whole header is at hand in the block. */
    lemma EntryStartsHere(k: nat)
      requires Consistent() && blockPosition != 0
      requires k < |gs[g].entries| && Offset() == Start(gs[g], k)
      ensures j == 0 && blockOffset == Start(gs[g], k)
      ensures blockOffset + |Header(gs[g].entries[k])| <= blockLen && blockOffset < blockLen
      ensures buf[blockOffset..blockOffset + |Header(gs[g].entries[k])|] == Header(gs[g].entries[k])
    {
      hide IsLog, Pos, BlockPos, EncodeAll, Concat, Header, Encoded, Framed, FramedAll, Start, Before, BlockBytes;
      BlockFacts(log, gs, g, j);
      var gr, h := gs[g], |Header(gs[g].entries[k])|;
      HeaderInFirstBlock(log.compression, gr, k) by { assert IsGroup(log.compression, gr); }
      EntryBytes(gr, k);
      FirstBlockFirst(gr, j);
      BlockCovers(log, gs, g);
      assert j == 0;
      GroupSlice(log, gs, g, 0, Start(gr, k), Start(gr, k) + h);
    }

    /** Where a group ends: its last block is used up, or without compression the next entry follows. */
    lemma GroupEndsHere()
      requires Consistent() && blockPosition != 0 && Offset() == GroupLen(gs, g)
      ensures log.compression.Packed? ==> blockOffset == blockLen && j + 1 == |gs[g].blocks|
      ensures log.compression.Plain? ==> blockPosition + blockOffset == Pos(log.compression, gs, g + 1)
      ensures log.compression.Plain? ==> (blockOffset < blockLen <==> g + 1 < |gs|)
    {
      hide IsLog, IsGroup, AreGroups, Pos, BlockPos, EncodeAll, Concat, Before;
      BlockFacts(log, gs, g, j);
      if log.compression.Plain? {
        PlainBlock(log, gs, g);
        PosBounds(log, gs, g + 1);
      } else if j + 1 < |gs[g].blocks| {
        BlockFacts(log, gs, g, j + 1);
      }
    }

    /** `p` is the entry after the k-th of the loaded group, or the first to be loaded, and
        `left` bytes are still to be skipped before it. */
    ghost predicate Leads(left: nat, k: nat, p: Place)
      reads this
      requires Consistent()
    {
      if blockPosition == 0 then left == 0 && p == Place(g, 0)
      else
        && k <= |gs[g].entries| && Offset() + left == Start(gs[g], k)
        && (if k < |gs[g].entries| then p == Place(g, k) && entryCount == k - 1 else p == Place(g + 1, 0))
    }

    /** The first part of `Next`: past what is left of the current entry. */
    method SkipEntry(keyLeft: nat, valueLeft: nat, ghost k: nat, ghost p: Place)
      requires Consistent() && Leads(keyLeft + valueLeft, k, p)
      modifies `blockPosition, `nextBlockPosition, `blockOffset, `blockLen, `buf, `entryCount, `g, `j
      ensures Consistent() && (blockOffset < blockLen <==> p.group < |gs|)
      ensures p.group < |gs| ==> if log.compression.Plain?
        then blockPosition + blockOffset == Pos(log.compression, gs, p.group) && p.index == 0
        else g == p.group && j == 0 && blockOffset == Start(gs[g], p.index) && entryCount == p.index - 1
      ensures p.group < |gs| ==> blockPosition != 0 && p.index < |gs[p.group].entries|
    {
      hide IsLog, IsGroup, AreGroups, Sound, Pos, BlockPos, EncodeAll, Concat, Start, Header, Encoded, BlockBytes,
           Framed, Before, Decode, Terminated, Encode;
      if blockPosition != 0 {
        StartZero(gs[g]);
        StartGrows(gs[g], k, |gs[g].entries|);
        BlockFacts(log, gs, g, j);
      }
      Skip(keyLeft);
      Skip(valueLeft);
      if blockPosition != 0 {
        if k < |gs[g].entries| {
          EntryStartsHere(k);
        } else {
          GroupEndsHere();
        }
      }
      EnsureAvailable();
      if p.group < |gs| {
        GroupHasBlock(log, gs, p.group);
        BlockFacts(log, gs, p.group, 0);
        StartZero(gs[p.group]);
      }
    }

    /** The second part: without compression the block is moved up to start with the entry. */
    method MoveBlock(ghost p: Place)
      requires Consistent() && log.compression.Plain? && p.group < |gs| && blockPosition != 0
      requires blockPosition + blockOffset == Pos(log.compression, gs, p.group)
      modifies `blockPosition, `blockOffset, `blockLen, `buf, `entryCount, `g, `j
      ensures Consistent() && blockPosition != 0 && g == p.group && j == 0 && blockOffset == 0 && entryCount == -1
    {
      hide IsLog, IsGroup, AreGroups, Sound, Pos, BlockPos, EncodeAll, Concat, Start, Header, Encoded, Framed, Before,
           Decode, Terminated, Encode;
      GroupHasBlock(log, gs, p.group);
      BlockFacts(log, gs, p.group, 0);
      BlockFacts(log, gs, g, j);
      blockPosition := blockPosition + blockOffset;
      blockLen := blockLen - blockOffset;
      blockOffset := 0;
      buf := log.data[blockPosition..];
      entryCount := -1;
      g, j := p.group, 0;
    }

    lemma FreshEntry(a: nat, b: nat)
      requires g < |gs| && i < |gs[g].entries| && j < |gs[g].blocks| && Describe(a, b, gs[g].entries[i])
      requires blockPosition == entryBlockPosition == Pos(log.compression, gs, g) != 0 && entryCount == i
      requires keyRemaining == keylen == (if a == 0 then b else a - 1)
      requires valueRemaining == valuelen == (if a == 0 then 0 else b)
      requires entryType == if a == 0 then DeleteEntry else PutEntry
      requires entryBlockOffset == Offset() == Start(gs[g], i) + |Header(gs[g].entries[i])|
      ensures AtEntry()
    {
    }

    method SetLengths(a: nat, b: nat)
      modifies `keylen, `valuelen, `keyRemaining, `valueRemaining, `entryType
      ensures keyRemaining == keylen == (if a == 0 then b else a - 1)
      ensures valueRemaining == valuelen == (if a == 0 then 0 else b)
      ensures entryType == if a == 0 then DeleteEntry else PutEntry
    {
      keylen, valuelen := if a == 0 then b else a - 1, if a == 0 then 0 else b;
      keyRemaining, valueRemaining := keylen, valuelen;
      entryType := if a == 0 then DeleteEntry else PutEntry;
    }

    /** The entry whose header has been read becomes current. */
    method SetEntry(a: nat, b: nat, ghost k: nat)
      requires Consistent() && g < |gs| && blockPosition == Pos(log.compression, gs, g) != 0
      requires j < |gs[g].blocks| && k < |gs[g].entries| && entryCount == k
      requires Describe(a, b, gs[g].entries[k])
      requires Offset() == blockOffset == Start(gs[g], k) + |Header(gs[g].entries[k])|
      modifies `keylen, `valuelen, `keyRemaining, `valueRemaining, `entryType, `entryBlockPosition, `entryBlockOffset,
               `state, `i
      ensures Valid() && state == Active && i == k && Clean()
    {
      hide Pos, Start, Header, Before, ValueOf, Consistent, AtEntry, Describe;
      SetLengths(a, b);
      entryBlockPosition, entryBlockOffset := blockPosition, blockOffset;
      state, i := Active, k;
      FreshEntry(a, b);
    }

    /** The third part: the two numbers of the header are read. */
    method ReadHeader(ghost k: nat)
      requires Consistent() && blockPosition != 0 && j == 0
      requires k < |gs[g].entries| && blockOffset == Start(gs[g], k) && entryCount == k - 1
      modifies this
      ensures Valid() && state == Active && i == k && Clean() && entryCount == k && g == old(g)
      ensures blockPosition == Pos(log.compression, gs, g)
    {
      hide IsLog, IsGroup, AreGroups, Sound, Pos, BlockPos, EncodeAll, Concat, Start, Header, Encoded, BlockBytes,
           NextPos, Framed, Before, Decode, Terminated, Encode, ValueOf;
      FirstBlockFirst(gs[g], j);
      EntryStartsHere(k);
      EntryFits(log, gs, g, k);
      FirstBlock(log.compression, gs, g);
      entryCount := entryCount + 1;
      var a, b, offset := ReadNumbers(buf, blockOffset, gs[g].entries[k]);
      blockOffset := offset;
      SetEntry(a, b, k);
    }

    ghost function BytesLeft(): nat
      reads this
    {
      if state == Active then keyRemaining + valueRemaining else 0
    }

    /** What is left of the current entry leads to the upcoming one. */
    lemma LeadsToUpcoming()
      requires Valid() && state != Closed && CanMove()
      ensures Leads(BytesLeft(), if state == Active then i + 1 else if state == Invalid then StartIndex() else 0, Upcoming())
    {
      hide IsLog, IsGroup, AreGroups, Sound, Pos, BlockPos, EncodeAll, Concat, Header, Encoded, BlockBytes, NextPos,
           Framed, Before, Decode, Terminated, Encode;
      if state == Active {
        EntryBytes(gs[g], i);
      } else if state == New && blockPosition != 0 {
        StartZero(gs[g]);
        FirstBlockFirst(gs[g], 0);
        BlockFacts(log, gs, g, 0);
      }
    }

    method Next()
      requires Valid() && CanMove()
      modifies this
      ensures Valid()
      ensures InLog(gs, old(Upcoming())) ==>
        state == Active && Here() == old(Upcoming()) && Clean() && entryCount == i
        && blockPosition == Pos(log.compression, gs, g)
      ensures !InLog(gs, old(Upcoming())) ==> state == Closed && (old(state) == Closed || keyRemaining == 0)
    {
      hide IsLog, IsGroup, AreGroups, Sound, Pos, BlockPos, EncodeAll, Concat, Start, Header, Encoded, BlockBytes,
           NextPos, Framed, Before, Decode, Terminated, Encode, ValueOf;
      if state == Closed {
        return;
      }
      ghost var p, k := Upcoming(), if state == Active then i + 1 else if state == Invalid then StartIndex() else 0;
      LeadsToUpcoming();
      var keyLeft, valueLeft := 0, 0;
      if state == Active {
        keyLeft, valueLeft := keyRemaining, valueRemaining;
      }
      state := Invalid;
      keyRemaining, valueRemaining, keylen, valuelen := 0, 0, 0, 0;
      SkipEntry(keyLeft, valueLeft, k, p);
      if blockLen - blockOffset == 0 {
        state := Closed;
        return;
      }
      if log.compression.Plain? {
        MoveBlock(p);
        StartZero(gs[g]);
      }
      FirstBlock(log.compression, gs, g);
      ReadHeader(p.index);
    }

    /** Left invalid at an entry, as a missed lookup does, the iterator finds on exactly if key and value of that
        entry have been consumed, and then goes to the entry after it. */
    lemma AlignedIff()
      requires Valid() && state == Invalid && AtEntry()
      ensures Aligned() <==> keyRemaining == 0 && valueRemaining == 0
      ensures Aligned() ==> Upcoming() == After(gs, Here())
    {
      hide IsLog, IsGroup, AreGroups, Sound, Pos, BlockPos, EncodeAll, Concat, Start, Header, Encoded, BlockBytes, NextPos,
           Framed, Before, Decode, Terminated, Encode, ValueOf;
      EntryEnds(gs[g], i);
      if keyRemaining == 0 && valueRemaining == 0 {
        assert StartsAt(i + 1);
      }
      if Aligned() {
        var k := StartIndex();
        if k <= i {
          StartsApart(gs[g], k, i);
        } else if i + 1 < k {
          StartsApart(gs[g], i + 1, k);
        }
      }
    }

    /** An iterator that was about to read a block stays able to. */
    lemma NewIsAligned()
      requires Consistent() && (blockPosition == 0 || (j == 0 && blockOffset == 0 && entryCount == -1))
      ensures Aligned()
    {
      if blockPosition != 0 {
        StartZero(gs[g]);
        assert gs[g].blocks[..0] == [];
      }
      assert StartsAt(0);
    }

    /** Moves to the start of group g1, or to the end of the log. */
    method Seek(position: nat, ghost g1: nat)
      requires Consistent() && g1 <= |gs| && position == Pos(log.compression, gs, g1)
      modifies this
      ensures Valid() && state == (if g1 == |gs| then Closed else New) && Upcoming() == Place(g1, 0)
      ensures g1 == |gs| ==> unchanged(`blockPosition, `blockOffset)
    {
      hide IsLog, IsGroup, AreGroups, Pos, BlockPos, BlockBytes;
      PosBounds(log, gs, g1);
      if position == |log.data| {
        state := Closed;
        return;
      }
      GroupHasBlock(log, gs, g1);
      FirstBlock(log.compression, gs, g1);
      SeekBlock(position, g1, 0);
      entryCount := -1;
      state := New;
    }

    method SkipEntries(count: int)
      requires Valid() && CanMove()
      modifies this
      ensures Valid() && CanMove() && (state == Invalid ==> old(state) == Invalid)
      ensures Upcoming() == Forward(gs, old(Upcoming()), if count < 0 then 0 else count)
    {
      hide IsLog, Consistent, AtEntry, Aligned;
      var left := count;
      while left > 0
        invariant Valid() && CanMove() && (state == Invalid ==> old(state) == Invalid)
        invariant Forward(gs, Upcoming(), if left < 0 then 0 else left)
               == Forward(gs, old(Upcoming()), if count < 0 then 0 else count)
      {
        left := left - 1;
        Next();
      }
    }

    lemma ResetFacts()
      requires Valid() && state == Active
      ensures |gs[g].blocks| > 0 && 0 != entryBlockPosition == BlockPos(log.compression, gs, g, 0)
      ensures Before(gs[g], 0) == 0 && Pos(log.compression, gs, g) <= |log.data|
      ensures entryBlockOffset <= |BlockBytes(log, gs, g, 0)|
    {
      hide IsLog, IsGroup, AreGroups, Sound, Pos, BlockPos, EncodeAll, Concat, Start, Header, Encoded, BlockBytes,
           NextPos, Framed, Before, Decode, Terminated, Encode;
      FirstBlock(log.compression, gs, g);
      FirstBlockFirst(gs[g], 0);
      GroupIs(log, gs, g);
      HeaderInFirstBlock(log.compression, gs[g], i);
      BlockFacts(log, gs, g, 0);
      BlockCovers(log, gs, g);
    }

    /** Back to the start of the current entry. */
    method Reset() returns (rc: ReturnCode)
      requires Valid()
      modifies this
      ensures Valid() && state == old(state) && (rc == Success <==> state == Active)
      ensures rc == Success ==> Here() == old(Here()) && Clean()
      ensures rc != Success ==> unchanged(this)
    {
      hide IsLog, IsGroup, AreGroups, Sound, Pos, BlockPos, EncodeAll, Concat, Start, Header, Encoded, BlockBytes,
           NextPos, Framed, Before, Decode, Terminated, Encode, ValueOf;
      if state != Active {
        return IteratorInactive;
      }
      ResetFacts();
      SeekBlock(entryBlockPosition, g, 0);
      keyRemaining, valueRemaining := keylen, valuelen;
      blockOffset := entryBlockOffset;
      return Success;
    }

    // ---- Reading keys and values ----

    /** What is left to be read of the key and of the value. */
    ghost function KeyRest(): (r: Bytes)
      reads this
      requires Valid() && state == Active
      ensures |r| == keyRemaining
    {
      Entry().key[keylen - keyRemaining..]
    }

    ghost function ValueRest(): (r: Bytes)
      reads this
      requires Valid() && state == Active
      ensures |r| == valueRemaining
    {
      ValueOf(Entry())[valuelen - valueRemaining..]
    }

    /** An entry that is not the last of its group ends before its first block does. */
    lemma InFirstBlock(k: nat)
      requires Consistent() && blockPosition != 0
      requires k + 1 < |gs[g].entries| && Offset() <= Start(gs[g], k + 1)
      ensures j == 0
    {
      hide IsLog, AreGroups, EncodeAll, Concat, Start, Header, Encoded, Before, Pos, BlockPos;
      GroupIs(log, gs, g);
      HeaderInFirstBlock(log.compression, gs[g], k);
      FirstBlockFirst(gs[g], j);
    }

    lemma BlockAtHand()
      requires Consistent() && blockPosition != 0
      ensures g < |gs| && j < |gs[g].blocks|
    {
      hide IsLog, BlockPos, Pos, BlockBytes, NextPos;
    }

    /** Without compression an entry is not cut. */
    lemma WholeAtHand(remaining: nat)
      requires Consistent() && blockPosition != 0 && Offset() + remaining <= GroupLen(gs, g)
      ensures log.compression.Plain? ==> blockOffset + remaining <= blockLen
    {
      hide IsLog, IsGroup, AreGroups, Sound, Pos, BlockPos, EncodeAll, Concat, Before, NextPos;
      BlockFacts(log, gs, g, j);
      if log.compression.Plain? {
        PlainBlock(log, gs, g);
      }
    }

    /** At most `maxlen` of the `remaining` bytes that follow, as many as the block holds. */
    method Chunk(maxlen: nat, remaining: nat) returns (res: Bytes)
      requires Consistent()
      requires remaining > 0 ==> blockPosition != 0 && Offset() + remaining <= GroupLen(gs, g)
      modifies `blockPosition, `nextBlockPosition, `blockOffset, `blockLen, `buf, `entryCount, `g, `j
      ensures Consistent() && |res| <= maxlen && |res| <= remaining
      ensures remaining > 0 && maxlen > 0 ==> |res| > 0
      ensures |res| == Min(maxlen, remaining) || (log.compression.Packed? && blockOffset == blockLen)
      ensures remaining == 0 ==>
        unchanged(`blockPosition, `nextBlockPosition, `blockOffset, `blockLen, `buf, `entryCount, `g, `j)
      ensures remaining > 0 ==>
        && blockPosition != 0 && g == old(g) && j >= old(j) && (j == old(j) ==> entryCount == old(entryCount))
        && Offset() == old(Offset()) + |res| <= GroupLen(gs, g)
        && res == EncodeAll(gs[g].entries)[old(Offset())..old(Offset()) + |res|]
    {
      hide IsLog, IsGroup, AreGroups, Sound, Pos, BlockPos, EncodeAll, Concat, Start, Header, Encoded, BlockBytes,
           NextPos, Before, NextBlock;
      if remaining == 0 {
        return [];
      }
      EnsureAvailable();
      WholeAtHand(remaining);
      var m := Min(maxlen, Min(remaining, blockLen - blockOffset));
      res := buf[blockOffset..blockOffset + m];
      GroupSlice(log, gs, g, j, Offset(), Offset() + m);
      blockOffset := blockOffset + m;
    }

    /** `KeyChunk` for a current entry. */
    method KeyPart(maxlen: nat) returns (res: Bytes)
      requires Valid() && state == Active
      modifies this
      ensures Valid() && state == Active && Here() == old(Here())
      ensures old(KeyRest()) == res + KeyRest()
      ensures keyRemaining == old(keyRemaining) - |res| && valueRemaining == old(valueRemaining)
      ensures keylen == old(keylen)
      ensures |res| <= maxlen && (res == [] <==> maxlen == 0 || old(keyRemaining) == 0)
      ensures |res| == Min(maxlen, old(keyRemaining)) || (log.compression.Packed? && blockOffset == blockLen)
    {
      hide IsLog, IsGroup, AreGroups, Sound, Pos, BlockPos, EncodeAll, Concat, Start, Header, Encoded, BlockBytes,
           NextPos, Before, NextBlock, ValueOf, Consistent;
      ghost var done, o := keylen - keyRemaining, Offset();
      EntryEnds(gs[g], i);
      res := Chunk(maxlen, keyRemaining);
      BlockAtHand();
      if keyRemaining > 0 {
        KeyTaken(gs[g], i, done, o, res);
      }
      keyRemaining := keyRemaining - |res|;
      if i + 1 < |gs[g].entries| {
        InFirstBlock(i);
      }
    }

    method KeyChunk(maxlen: nat) returns (rc: ReturnCode, res: Bytes)
      requires Valid()
      modifies this
      ensures Valid() && state == old(state) && (rc == Success <==> state == Active)
      ensures rc != Success ==> unchanged(this)
      ensures rc == Success ==>
        && Here() == old(Here()) && old(KeyRest()) == res + KeyRest()
        && keyRemaining == old(keyRemaining) - |res| && valueRemaining == old(valueRemaining)
        && keylen == old(keylen) && |res| <= maxlen && (res == [] <==> maxlen == 0 || old(keyRemaining) == 0)
        && (|res| == Min(maxlen, old(keyRemaining)) || (log.compression.Packed? && blockOffset == blockLen))
    {
      hide Consistent, AtEntry;
      if state != Active {
        return IteratorInactive, [];
      }
      res := KeyPart(maxlen);
      rc := Success;
    }

    /** The iterator stands at an entry, though it may have become inactive since. */
    ghost predicate Standing()
      reads this
    {
      Valid() && state != New && AtEntry()
    }

    /** The rest of the key is skipped. */
    method DropKey()
      requires Standing()
      modifies this
      ensures Standing() && state == old(state) && Here() == old(Here())
      ensures keyRemaining == 0 && valueRemaining == old(valueRemaining)
    {
      hide IsLog, IsGroup, AreGroups, Sound, Pos, BlockPos, EncodeAll, Concat, Start, Header, Encoded,
           BlockBytes, NextPos, Before, NextBlock, ValueOf;
      EntryEnds(gs[g], i);
      Skip(keyRemaining);
      keyRemaining := 0;
      if i + 1 < |gs[g].entries| {
        InFirstBlock(i);
      }
    }

    method ValuePart(maxlen: nat) returns (res: Bytes)
      requires Valid() && state == Active && keyRemaining == 0
      modifies this
      ensures Valid() && state == Active && Here() == old(Here())
      ensures keyRemaining == 0 && old(ValueRest()) == res + ValueRest()
      ensures valueRemaining == old(valueRemaining) - |res|
      ensures |res| <= maxlen && (res == [] <==> maxlen == 0 || old(valueRemaining) == 0)
      ensures |res| == Min(maxlen, old(valueRemaining)) || (log.compression.Packed? && blockOffset == blockLen)
    {
      hide IsLog, IsGroup, AreGroups, Sound, Pos, BlockPos, EncodeAll, Concat, Start, Header, Encoded, BlockBytes,
           NextPos, Before, NextBlock, ValueOf, Consistent;
      EntryEnds(gs[g], i);
      ghost var done, o := valuelen - valueRemaining, Offset();
      res := Chunk(maxlen, valueRemaining);
      BlockAtHand();
      if valueRemaining > 0 {
        ValueTaken(gs[g], i, done, o, res);
      }
      valueRemaining := valueRemaining - |res|;
      if i + 1 < |gs[g].entries| {
        InFirstBlock(i);
      }
    }

    /** What is left of the key is skipped first, even if the iterator is inactive. */
    method ValueChunk(maxlen: nat) returns (rc: ReturnCode, res: Bytes)
      requires Valid() && (Standing() || (state != Active && keyRemaining == 0))
      modifies this
      ensures Valid() && state == old(state) && (rc == Success <==> state == Active)
      ensures rc != Success ==> res == [] && keyRemaining == 0 && (old(keyRemaining) == 0 ==> unchanged(this))
      ensures old(Standing()) ==> Standing() && Here() == old(Here())
      ensures rc != Success ==> valueRemaining == old(valueRemaining)
      ensures rc == Success ==>
        && keyRemaining == 0 && old(ValueRest()) == res + ValueRest()
        && valueRemaining == old(valueRemaining) - |res|
        && |res| <= maxlen && (res == [] <==> maxlen == 0 || old(valueRemaining) == 0)
        && (|res| == Min(maxlen, old(valueRemaining)) || (log.compression.Packed? && blockOffset == blockLen))
    {
      hide IsLog, IsGroup, Pos, BlockPos, EncodeAll, Start, Header, Encoded, BlockBytes, NextPos, Before;
      if keyRemaining > 0 {
        DropKey();
      }
      if state != Active {
        return IteratorInactive, [];
      }
      res := ValuePart(maxlen);
      rc := Success;
    }

    /** Copies what is left of the key, up to `maxlen` bytes, into the caller's buffer. */
    method FillKey(maxlen: nat, out: array<byte>, start: nat) returns (rc: ReturnCode, len: nat)
      requires Valid()
      requires state == Active ==> start + Min(maxlen, keyRemaining) <= out.Length
      modifies this, out
      ensures Valid() && state == old(state)
      ensures rc == Success <==> state == Active || maxlen == 0
      ensures state != Active ==> len == 0 && unchanged(this) && unchanged(out)
      ensures state == Active ==>
        && Here() == old(Here()) && len == Min(maxlen, old(keyRemaining)) && start + len <= out.Length
        && keyRemaining == old(keyRemaining) - len && valueRemaining == old(valueRemaining)
        && keylen == old(keylen)
        && out[..] == Filled(old(out[..]), start, old(KeyRest()), len)
    {
      hide Valid, Consistent, AtEntry, KeyRest, Filled, Entry, Here;
      rc, len := Success, 0;
      var left: int := maxlen;
      ghost var base, text := out[..], if state == Active then KeyRest() else [];
      FillNothing(base, start, text);
      while left > 0
        invariant Valid() && state == old(state) && rc == Success
        invariant state != Active ==> left == maxlen && len == 0 && unchanged(this) && unchanged(out)
        invariant 0 <= left == maxlen - len
        invariant state == Active ==>
          && Here() == old(Here()) && len <= old(keyRemaining) && start + len <= out.Length
          && keyRemaining == old(keyRemaining) - len && valueRemaining == old(valueRemaining)
          && keylen == old(keylen) && text[len..] == KeyRest()
          && out[..] == Filled(base, start, text, len)
      {
        var piece;
        rc, piece := KeyChunk(left);
        if rc != Success || piece == [] {
          return;
        }
        FillStep(base, start, text, len, piece);
        CopyInto(out, start + len, piece);
        len := len + |piece|;
        left := left - |piece|;
      }
    }

    /** Likewise for the value. */
    method FillValue(maxlen: nat, out: array<byte>, start: nat) returns (rc: ReturnCode, len: nat)
      requires Valid() && (Standing() || (state != Active && keyRemaining == 0))
      requires state == Active ==> start + Min(maxlen, valueRemaining) <= out.Length
      modifies this, out
      ensures Valid() && state == old(state)
      ensures rc == Success <==> state == Active || maxlen == 0
      ensures state != Active ==> len == 0 && unchanged(out) && (old(keyRemaining) == 0 || maxlen == 0 ==> unchanged(this))
      ensures old(Standing()) ==> Standing() && Here() == old(Here())
      ensures state != Active ==> valueRemaining == old(valueRemaining)
      ensures state == Active ==>
        && len == Min(maxlen, old(valueRemaining)) && start + len <= out.Length
        && valueRemaining == old(valueRemaining) - len
        && out[..] == Filled(old(out[..]), start, old(ValueRest()), len)
    {
      hide Consistent, AtEntry, KeyRest, ValueRest, Filled, Entry, Here;
      rc, len := Success, 0;
      var left: int := maxlen;
      ghost var base, text := out[..], if state == Active then ValueRest() else [];
      FillNothing(base, start, text);
      while left > 0
        invariant Valid() && state == old(state) && rc == Success
        invariant state != Active ==> left == maxlen && len == 0 && unchanged(this) && unchanged(out)
        invariant 0 <= left == maxlen - len
        invariant state == Active ==>
          && Here() == old(Here()) && len <= old(valueRemaining) && start + len <= out.Length
          && valueRemaining == old(valueRemaining) - len && text[len..] == ValueRest()
          && out[..] == Filled(base, start, text, len)
      {
        var piece;
        rc, piece := ValueChunk(left);
        if rc != Success || piece == [] {
          return;
        }
        FillStep(base, start, text, len, piece);
        CopyInto(out, start + len, piece);
        len := len + |piece|;
        left := left - |piece|;
      }
    }
  }
}
