/** The log as a value: entries, how they are encoded, how blocks of encoded entries are laid out
    in the file, and where each entry can be found again. */
module LogFormat {
  import opened Vlq

  type Bytes = seq<byte>

  const LOG_HEADER_SIZE: nat := 84

  // ---- Entries ----

  datatype Entry = Put(key: Bytes, value: Bytes) | Delete(key: Bytes)

  /** Two numbers: zero and the key length for a delete, else key length plus one and value length. */
  function Header(e: Entry): (s: Bytes)
    ensures |s| > 0
  {
    match e
    case Put(key, value) => Encode(|key| + 1) + Encode(|value|)
    case Delete(key) => Encode(0) + Encode(|key|)
  }

  function ValueOf(e: Entry): Bytes {
    if e.Put? then e.value else []
  }

  function Encoded(e: Entry): (s: Bytes)
    ensures |s| == |Header(e)| + |e.key| + |ValueOf(e)|
  {
    Header(e) + (e.key + ValueOf(e))
  }

  function EncodeAll(es: seq<Entry>): Bytes {
    if es == [] then [] else Encoded(es[0]) + EncodeAll(es[1..])
  }

  /** Keys and values are shorter than 2^63 bytes. */
  predicate Fits(e: Entry) {
    |e.key| < TWO_63 && |ValueOf(e)| < TWO_63
  }

  predicate AllFit(es: seq<Entry>) {
    forall i :: 0 <= i < |es| ==> Fits(es[i])
  }

  function Concat(bs: seq<Bytes>): Bytes {
    if bs == [] then [] else bs[0] + Concat(bs[1..])
  }

  lemma {:induction false} EncodeAllAppend(a: seq<Entry>, b: seq<Entry>)
    ensures EncodeAll(a + b) == EncodeAll(a) + EncodeAll(b)
  {
    if a == [] {
      assert a + b == b;
    } else {
      assert (a + b)[1..] == a[1..] + b;
      EncodeAllAppend(a[1..], b);
    }
  }

  lemma {:induction false} ConcatAppend(a: seq<Bytes>, b: seq<Bytes>)
    ensures Concat(a + b) == Concat(a) + Concat(b)
  {
    if a == [] {
      assert a + b == b;
    } else {
      assert (a + b)[1..] == a[1..] + b;
      ConcatAppend(a[1..], b);
    }
  }

  /** The number of puts. */
  function Puts(es: seq<Entry>): nat {
    if es == [] then 0 else (if es[0].Put? then 1 else 0) + Puts(es[1..])
  }

  lemma {:induction false} PutsAppend(es: seq<Entry>, e: Entry)
    ensures Puts(es + [e]) == Puts(es) + if e.Put? then 1 else 0
  {
    if es == [] {
      assert es + [e] == [e];
    } else {
      assert (es + [e])[1..] == es[1..] + [e];
      PutsAppend(es[1..], e);
    }
  }

  /** The bytes of the encoded puts. */
  function PutBytes(es: seq<Entry>): nat {
    if es == [] then 0
    else PutBytes(es[..|es| - 1]) + if es[|es| - 1].Put? then |Encoded(es[|es| - 1])| else 0
  }

  function Larger(a: nat, b: nat): nat {
    if a > b then a else b
  }

  /** The length of the longest key, and of the longest value, that was put. */
  function LargestKey(es: seq<Entry>): nat {
    if es == [] then 0
    else Larger(LargestKey(es[..|es| - 1]), if es[|es| - 1].Put? then |es[|es| - 1].key| else 0)
  }

  function LargestValue(es: seq<Entry>): nat {
    if es == [] then 0
    else Larger(LargestValue(es[..|es| - 1]), |ValueOf(es[|es| - 1])|)
  }

  lemma StatsAppend(es: seq<Entry>, e: Entry)
    ensures PutBytes(es + [e]) == PutBytes(es) + if e.Put? then |Encoded(e)| else 0
    ensures LargestKey(es + [e]) == Larger(LargestKey(es), if e.Put? then |e.key| else 0)
    ensures LargestValue(es + [e]) == Larger(LargestValue(es), |ValueOf(e)|)
  {
    assert (es + [e])[..|es|] == es;
  }

  /** Every put is within the largest lengths, and they are reached unless they are 0. */
  lemma {:induction false} LargestAre(es: seq<Entry>)
    ensures forall i :: 0 <= i < |es| && es[i].Put? ==> |es[i].key| <= LargestKey(es) && |es[i].value| <= LargestValue(es)
    ensures LargestKey(es) > 0 ==> exists i :: 0 <= i < |es| && es[i].Put? && |es[i].key| == LargestKey(es)
    ensures LargestValue(es) > 0 ==> exists i :: 0 <= i < |es| && es[i].Put? && |es[i].value| == LargestValue(es)
  {
    if es != [] {
      var front := es[..|es| - 1];
      LargestAre(front);
      assert forall i :: 0 <= i < |front| ==> front[i] == es[i];
    }
  }

  // ---- Blocks and groups ----

  /** The compressor is a foreign library, known by a compress and a decompress function. */
  datatype Compression = Plain | Packed(compress: Bytes -> Bytes, decompress: Bytes -> Bytes, blockSize: nat)

  /** What is assumed of the library: blocks come back, and compressed sizes are 32 bit. */
  ghost predicate Sound(c: Compression) {
    c.Packed? ==> forall b: Bytes :: |b| <= c.blockSize ==>
      c.decompress(c.compress(b)) == b && |c.compress(b)| < 0x1_0000_0000
  }

  /** Entries that start in one block, and the blocks they fill.  Only the last entry may spill into
      further blocks, which it then has for itself, and only if no block could hold it.  Without
      compression each entry is a group. */
  datatype Group = Group(entries: seq<Entry>, blocks: seq<Bytes>)

  /** Where entry i of a group starts, counted in uncompressed bytes. */
  function Start(gr: Group, i: nat): nat
    requires i <= |gr.entries|
  {
    |EncodeAll(gr.entries[..i])|
  }

  predicate IsGroup(c: Compression, gr: Group) {
    && |gr.entries| > 0 && |gr.blocks| > 0
    && (forall j :: 0 <= j < |gr.blocks| ==> gr.blocks[j] != [])
    && AllFit(gr.entries)
    && Concat(gr.blocks) == EncodeAll(gr.entries)
    && (var n := |gr.entries| - 1; Start(gr, n) + |Header(gr.entries[n])| <= |gr.blocks[0]|)
    && match c
       case Plain => |gr.entries| == |gr.blocks| == 1
       case Packed(_, _, blockSize) =>
         && (forall j :: 0 <= j < |gr.blocks| ==> |gr.blocks[j]| <= blockSize)
         && (|gr.blocks| > 1 ==> |Encoded(gr.entries[|gr.entries| - 1])| > blockSize)
  }

  predicate AreGroups(c: Compression, gs: seq<Group>) {
    forall g {:trigger IsGroup(c, gs[g])} :: 0 <= g < |gs| ==> IsGroup(c, gs[g])
  }

  /** A compressed block is preceded by its compressed size. */
  function Framed(c: Compression, b: Bytes): Bytes {
    match c
    case Plain => b
    case Packed(compress, _, _) => Encode(|compress(b)|) + compress(b)
  }

  function FramedAll(c: Compression, bs: seq<Bytes>): Bytes {
    if bs == [] then [] else Framed(c, bs[0]) + FramedAll(c, bs[1..])
  }

  /** What follows the header in the log file. */
  function Image(c: Compression, gs: seq<Group>): Bytes {
    if gs == [] then [] else FramedAll(c, gs[0].blocks) + Image(c, gs[1..])
  }

  lemma {:induction false} FramedAppend(c: Compression, a: seq<Bytes>, b: seq<Bytes>)
    ensures FramedAll(c, a + b) == FramedAll(c, a) + FramedAll(c, b)
  {
    if a == [] {
      assert a + b == b;
    } else {
      assert (a + b)[1..] == a[1..] + b;
      FramedAppend(c, a[1..], b);
    }
  }

  lemma {:induction false} ImageAppend(c: Compression, a: seq<Group>, b: seq<Group>)
    ensures Image(c, a + b) == Image(c, a) + Image(c, b)
  {
    if a == [] {
      assert a + b == b;
    } else {
      assert (a + b)[1..] == a[1..] + b;
      ImageAppend(c, a[1..], b);
    }
  }

  /** The entries of a log in the order they were written. */
  function Entries(gs: seq<Group>): seq<Entry> {
    if gs == [] then [] else gs[0].entries + Entries(gs[1..])
  }

  lemma {:induction false} EntriesAppend(a: seq<Group>, b: seq<Group>)
    ensures Entries(a + b) == Entries(a) + Entries(b)
  {
    if a == [] {
      assert a + b == b;
    } else {
      assert (a + b)[1..] == a[1..] + b;
      EntriesAppend(a[1..], b);
    }
  }

  // ---- Files ----

  /** An opened log: the file up to its recorded data end, and what its header tells. */
  datatype Log = Log(compression: Compression, data: Bytes, maxEntriesPerBlock: nat)

  predicate BlocksHold(gs: seq<Group>, n: nat) {
    forall g :: 0 <= g < |gs| ==> |gs[g].entries| <= n
  }

  /** The largest number of entries that start in one block; 0 without blocks. */
  predicate IsMost(gs: seq<Group>, n: nat) {
    BlocksHold(gs, n) && if gs == [] then n == 0 else exists g :: 0 <= g < |gs| && |gs[g].entries| == n
  }

  ghost predicate IsLog(log: Log, gs: seq<Group>) {
    && Sound(log.compression)
    && |log.data| >= LOG_HEADER_SIZE
    && log.data[LOG_HEADER_SIZE..] == Image(log.compression, gs)
    && AreGroups(log.compression, gs)
    && (log.compression.Packed? ==> BlocksHold(gs, log.maxEntriesPerBlock))
  }

  /** File position of group g. */
  function Pos(c: Compression, gs: seq<Group>, g: nat): nat
    requires g <= |gs|
  {
    LOG_HEADER_SIZE + |Image(c, gs[..g])|
  }

  /** File position of block j of group g. */
  function BlockPos(c: Compression, gs: seq<Group>, g: nat, j: nat): nat
    requires g < |gs| && j <= |gs[g].blocks|
  {
    Pos(c, gs, g) + |FramedAll(c, gs[g].blocks[..j])|
  }

  lemma PosNext(c: Compression, gs: seq<Group>, g: nat)
    requires g < |gs|
    ensures Pos(c, gs, g + 1) == BlockPos(c, gs, g, |gs[g].blocks|)
    ensures Image(c, gs[..g + 1]) == Image(c, gs[..g]) + FramedAll(c, gs[g].blocks)
  {
    assert gs[..g + 1] == gs[..g] + [gs[g]];
    ImageAppend(c, gs[..g], [gs[g]]);
    assert Image(c, [gs[g]]) == FramedAll(c, gs[g].blocks) + Image(c, []);
    assert gs[g].blocks[..|gs[g].blocks|] == gs[g].blocks;
  }

  lemma FirstBlock(c: Compression, gs: seq<Group>, g: nat)
    requires g < |gs|
    ensures BlockPos(c, gs, g, 0) == Pos(c, gs, g)
  {
    assert gs[g].blocks[..0] == [];
  }

  lemma BlockPosNext(c: Compression, gs: seq<Group>, g: nat, j: nat)
    requires g < |gs| && j < |gs[g].blocks|
    ensures BlockPos(c, gs, g, j + 1) == BlockPos(c, gs, g, j) + |Framed(c, gs[g].blocks[j])|
  {
    var bs := gs[g].blocks;
    assert bs[..j + 1] == bs[..j] + [bs[j]];
    FramedAppend(c, bs[..j], [bs[j]]);
    assert FramedAll(c, [bs[j]]) == Framed(c, bs[j]) + FramedAll(c, []);
  }

  lemma {:induction false} BlockPosGrows(c: Compression, gs: seq<Group>, g: nat, j: nat, j': nat)
    requires g < |gs| && IsGroup(c, gs[g]) && j <= j' <= |gs[g].blocks|
    ensures BlockPos(c, gs, g, j) + (j' - j) <= BlockPos(c, gs, g, j')
  {
    hide Image, FramedAll, EncodeAll, Concat, Start, Header, Encode, BlockPos;
    if j < j' {
      BlockPosGrows(c, gs, g, j, j' - 1);
      BlockPosNext(c, gs, g, j' - 1);
    }
  }

  lemma GroupGrows(c: Compression, gs: seq<Group>, g: nat)
    requires g < |gs| && IsGroup(c, gs[g])
    ensures Pos(c, gs, g) < Pos(c, gs, g + 1)
  {
    PosNext(c, gs, g);
    BlockPosGrows(c, gs, g, 0, |gs[g].blocks|);
  }

  lemma {:induction false} PosGrows(c: Compression, gs: seq<Group>, g: nat, h: nat)
    requires g <= h <= |gs| && AreGroups(c, gs)
    ensures Pos(c, gs, g) + (h - g) <= Pos(c, gs, h)
  {
    hide IsGroup, Pos;
    if g < h {
      PosGrows(c, gs, g, h - 1);
      assert IsGroup(c, gs[h - 1]);
      GroupGrows(c, gs, h - 1);
    }
  }

  /** Different blocks have different positions. */
  lemma BlockPosInjective(c: Compression, gs: seq<Group>, g: nat, j: nat, h: nat, k: nat)
    requires AreGroups(c, gs)
    requires g < |gs| && j < |gs[g].blocks| && h < |gs| && k < |gs[h].blocks|
    requires BlockPos(c, gs, g, j) == BlockPos(c, gs, h, k)
    ensures g == h && j == k
  {
    if g < h || (g == h && j < k) {
      BlockBefore(c, gs, g, j, h, k);
    } else if h < g || k < j {
      BlockBefore(c, gs, h, k, g, j);
    }
  }

  lemma BlockBefore(c: Compression, gs: seq<Group>, g: nat, j: nat, h: nat, k: nat)
    requires AreGroups(c, gs)
    requires g < |gs| && j < |gs[g].blocks| && h < |gs| && k < |gs[h].blocks|
    requires g < h || (g == h && j < k)
    ensures BlockPos(c, gs, g, j) < BlockPos(c, gs, h, k)
  {
    if g < h {
      BlockPosGrows(c, gs, g, j, |gs[g].blocks|);
      PosNext(c, gs, g);
      PosGrows(c, gs, g + 1, h);
    } else {
      BlockPosGrows(c, gs, g, j, k);
    }
  }

  lemma PosBounds(log: Log, gs: seq<Group>, g: nat)
    requires IsLog(log, gs) && g <= |gs|
    ensures LOG_HEADER_SIZE <= Pos(log.compression, gs, g) <= |log.data|
    ensures Pos(log.compression, gs, |gs|) == |log.data|
    ensures g < |gs| ==> Pos(log.compression, gs, g) < |log.data|
  {
    assert gs[..|gs|] == gs;
    PosGrows(log.compression, gs, g, |gs|);
  }

  /** The file from group g on. */
  lemma DataFrom(log: Log, gs: seq<Group>, g: nat)
    requires IsLog(log, gs) && g <= |gs|
    ensures Pos(log.compression, gs, g) <= |log.data|
    ensures log.data[Pos(log.compression, gs, g)..] == Image(log.compression, gs[g..])
  {
    var c := log.compression;
    assert gs == gs[..g] + gs[g..];
    ImageAppend(c, gs[..g], gs[g..]);
    var x := log.data[LOG_HEADER_SIZE..];
    assert log.data[Pos(c, gs, g)..] == x[|Image(c, gs[..g])|..];
  }

  /** The framed blocks of a group around block j. */
  lemma FramedAround(c: Compression, bs: seq<Bytes>, j: nat)
    requires j < |bs|
    ensures FramedAll(c, bs) == FramedAll(c, bs[..j]) + Framed(c, bs[j]) + FramedAll(c, bs[j + 1..])
  {
    assert bs == bs[..j] + bs[j..];
    FramedAppend(c, bs[..j], bs[j..]);
    assert bs[j..][1..] == bs[j + 1..];
  }

  lemma Middle(s: Bytes, a: Bytes, b: Bytes, rest: Bytes)
    requires s == a + b + rest
    ensures s[|a|..|a| + |b|] == b
  {
  }

  lemma SliceOfDrop(s: Bytes, p: nat, i: nat, j: nat)
    requires p <= |s| && i <= j <= |s| - p
    ensures s[p..][i..j] == s[p + i..p + j]
  {
  }

  /** What the file holds from group g on, around block j of that group. */
  lemma FileAround(log: Log, gs: seq<Group>, g: nat, j: nat)
    requires IsLog(log, gs) && g < |gs| && j < |gs[g].blocks|
    ensures var c, bs := log.compression, gs[g].blocks;
            Image(c, gs[g..]) == FramedAll(c, bs[..j]) + Framed(c, bs[j])
                                 + (FramedAll(c, bs[j + 1..]) + Image(c, gs[g + 1..]))
  {
    assert gs[g..][1..] == gs[g + 1..];
    FramedAround(log.compression, gs[g].blocks, j);
  }

  /** The file from block j of group g on starts with that block, framed. */
  lemma BlockHere(log: Log, gs: seq<Group>, g: nat, j: nat)
    requires IsLog(log, gs) && g < |gs| && j < |gs[g].blocks|
    ensures var c := log.compression; var f := Framed(c, gs[g].blocks[j]);
            var p := BlockPos(c, gs, g, j);
            p + |f| == BlockPos(c, gs, g, j + 1) <= |log.data| && log.data[p..p + |f|] == f
  {
    hide EncodeAll;
    var c, bs := log.compression, gs[g].blocks;
    BlockPosNext(c, gs, g, j);
    DataFrom(log, gs, g);
    FileAround(log, gs, g, j);
    var a, f := FramedAll(c, bs[..j]), Framed(c, bs[j]);
    Middle(Image(c, gs[g..]), a, f, FramedAll(c, bs[j + 1..]) + Image(c, gs[g + 1..]));
    SliceOfDrop(log.data, Pos(c, gs, g), |a|, |a| + |f|);
  }

  // ---- The uncompressed bytes of a group ----

  function Before(gr: Group, j: nat): nat
    requires j <= |gr.blocks|
  {
    |Concat(gr.blocks[..j])|
  }

  lemma BeforeNext(gr: Group, j: nat)
    requires j < |gr.blocks|
    ensures Before(gr, j + 1) == Before(gr, j) + |gr.blocks[j]|
    ensures Before(gr, j + 1) <= |Concat(gr.blocks)|
    ensures Concat(gr.blocks)[Before(gr, j)..Before(gr, j + 1)] == gr.blocks[j]
  {
    var bs := gr.blocks;
    assert bs[..j + 1] == bs[..j] + [bs[j]];
    ConcatAppend(bs[..j], [bs[j]]);
    assert Concat([bs[j]]) == bs[j] + Concat([]);
    assert bs == bs[..j + 1] + bs[j + 1..];
    ConcatAppend(bs[..j + 1], bs[j + 1..]);
  }

  lemma EncodeOne(e: Entry)
    ensures EncodeAll([e]) == Encoded(e)
  {
    assert EncodeAll([e]) == Encoded(e) + EncodeAll([]);
  }

  lemma EntryHere(gr: Group, i: nat)
    requires i < |gr.entries|
    ensures Start(gr, i + 1) == Start(gr, i) + |Encoded(gr.entries[i])| <= |EncodeAll(gr.entries)|
    ensures EncodeAll(gr.entries)[Start(gr, i)..Start(gr, i + 1)] == Encoded(gr.entries[i])
  {
    hide EncodeAll, Encoded;
    var es := gr.entries;
    var a, b, rest := EncodeAll(es[..i]), Encoded(es[i]), EncodeAll(es[i + 1..]);
    EncodeOne(es[i]);
    assert EncodeAll(es[..i + 1]) == a + b by {
      assert es[..i + 1] == es[..i] + [es[i]];
      EncodeAllAppend(es[..i], [es[i]]);
    }
    assert EncodeAll(es) == a + b + rest by {
      assert es == es[..i + 1] + es[i + 1..];
      EncodeAllAppend(es[..i + 1], es[i + 1..]);
    }
    Middle(EncodeAll(es), a, b, rest);
  }

  lemma {:induction false} StartGrows(gr: Group, i: nat, k: nat)
    requires i <= k <= |gr.entries|
    ensures Start(gr, i) <= Start(gr, k) <= |EncodeAll(gr.entries)|
  {
    hide EncodeAll, Encoded;
    assert gr.entries[..|gr.entries|] == gr.entries;
    if i < k {
      StartGrows(gr, i, k - 1);
      EntryHere(gr, k - 1);
    } else if k < |gr.entries| {
      EntryHere(gr, k);
    }
  }

  /** The header of every entry of a group lies in the first block. */
  lemma HeaderInFirstBlock(c: Compression, gr: Group, i: nat)
    requires IsGroup(c, gr) && i < |gr.entries|
    ensures Start(gr, i) + |Header(gr.entries[i])| <= |gr.blocks[0]|
    ensures i + 1 < |gr.entries| ==> Start(gr, i + 1) < |gr.blocks[0]|
  {
    hide EncodeAll, Concat, Start, Header, Encoded;
    var n := |gr.entries| - 1;
    if i < n {
      EntryHere(gr, i);
      StartGrows(gr, i + 1, n);
    }
  }

  // ---- Places ----

  /** An entry is found by its group and its index in the group; (|gs|, 0) is the end. */
  datatype Place = Place(group: nat, index: nat)

  predicate InLog(gs: seq<Group>, p: Place) {
    p.group < |gs| && p.index < |gs[p.group].entries|
  }

  function EntryAt(gs: seq<Group>, p: Place): Entry
    requires InLog(gs, p)
  {
    gs[p.group].entries[p.index]
  }

  function End(gs: seq<Group>): Place {
    Place(|gs|, 0)
  }

  function After(gs: seq<Group>, p: Place): Place {
    if !InLog(gs, p) then End(gs)
    else if p.index + 1 < |gs[p.group].entries| then Place(p.group, p.index + 1)
    else Place(p.group + 1, 0)
  }

  function Forward(gs: seq<Group>, p: Place, n: nat): Place
    decreases n
  {
    if n == 0 then p else Forward(gs, After(gs, p), n - 1)
  }

  predicate Precedes(p: Place, q: Place) {
    p.group < q.group || (p.group == q.group && p.index < q.index)
  }

  lemma {:induction false} ForwardInGroup(gs: seq<Group>, p: Place, n: nat)
    requires p.group < |gs| && p.index + n < |gs[p.group].entries|
    ensures Forward(gs, p, n) == Place(p.group, p.index + n)
    decreases n
  {
    if n > 0 {
      ForwardInGroup(gs, After(gs, p), n - 1);
    }
  }
}
