/** How large a table, its hashes and its addresses are made. */
module Sizing {
  import opened Vlq
  import opened LittleEndian
  import opened LogFormat
  import opened LogReader
  import opened Liveness
  import opened HashTables
  import opened Index

  /** Thirteen slots for ten entries, made odd. */
  function HashCapacity(n: nat): (c: nat)
    ensures n <= c && 0 < c && c % 2 == 1
    ensures 13 * n - 10 < 10 * c <= 13 * n + 10
  {
    var cap := n * 13 / 10;
    if cap % 2 == 0 then cap + 1 else cap
  }

  lemma {:induction false} Pow2Grows(a: nat, b: nat)
    requires a <= b
    ensures Pow2(a) <= Pow2(b)
    decreases b
  {
    if a < b {
      Pow2Grows(a, b - 1);
    }
  }

  lemma {:induction false} Pow2Sum(a: nat, b: nat)
    ensures Pow2(a + b) == Pow2(a) * Pow2(b)
    decreases a
  {
    if a > 0 {
      Pow2Sum(a - 1, b);
      Pow2Next(a);
      Pow2Next(a + b);
      hide Pow2;
      assert a - 1 + b == a + b - 1;
      DoubleFirst(Pow2(a - 1), Pow2(b));
    }
  }

  lemma Pow2Next(a: nat)
    requires a > 0
    ensures Pow2(a) == 2 * Pow2(a - 1)
  {
  }

  lemma DoubleFirst(x: nat, y: nat)
    ensures (2 * x) * y == 2 * (x * y)
  {
  }

  lemma Pow2Values()
    ensures Pow2(31) == 0x8000_0000 && Pow2(32) == 0x1_0000_0000
  {
    assert Pow2(8) == 0x100 by {
      assert Pow2(4) == 0x10;
      Pow2Sum(4, 4);
    }
    Pow2Sum(8, 8);
    Pow2Sum(16, 16);
    assert Pow2(32) == 2 * Pow2(31);
  }

  /** Bits for the entry index: enough for every index in a block, and less than 32. */
  lemma BitsAreFew(x: nat, bits: nat)
    requires x < 0x8000_0000 && (bits > 0 ==> Pow2(bits - 1) <= x)
    ensures bits <= 31
  {
    Pow2Values();
    if bits > 31 {
      Pow2Grows(31, bits - 1);
    }
  }

  function AddressSize(dataEnd: nat, bits: nat): nat
  {
    if bits <= 32 && dataEnd < Pow2(32 - bits) then 4 else 8
  }

  /** Four bytes are taken exactly if no packed address needs more. */
  lemma AddressSizeIff(dataEnd: nat, bits: nat)
    requires bits <= 31
    ensures AddressSize(dataEnd, bits) == if dataEnd * Pow2(bits) < 0x1_0000_0000 then 4 else 8
  {
    hide Pow2;
    Pow2Values();
    Pow2Sum(32 - bits, bits);
    BelowQuotient(dataEnd, Pow2(32 - bits), Pow2(bits));
  }

  lemma BelowQuotient(x: nat, q: nat, m: nat)
    requires m > 0
    ensures x < q <==> x * m < q * m
  {
    if x < q {
      Multiples(x, q, m);
    } else {
      SameOrMore(q, x, m);
    }
  }

  /** Every packed address fits the address size, if its position loses no bit in 64 bits. */
  lemma AddressFits(dataEnd: nat, bits: nat, position: nat, index: nat)
    requires bits <= 31 && position < dataEnd && index < Pow2(bits) && position < Pow2(64 - bits)
    ensures Pack(position, index, bits) < Pow256(AddressSize(dataEnd, bits))
  {
    hide Pow2;
    Widths();
    Pow2Values();
    Wide(bits);
    Multiples(position, Pow2(64 - bits), Pow2(bits));
    if dataEnd < Pow2(32 - bits) {
      Pow2Sum(32 - bits, bits);
      Multiples(position, Pow2(32 - bits), Pow2(bits));
    }
  }

  lemma Wide(bits: nat)
    requires bits <= 31
    ensures Pow2(64 - bits) * Pow2(bits) == TWO_64
  {
    hide Pow2;
    Pow2Values();
    Pow2Sum(32, 32);
    Pow2Sum(64 - bits, bits);
  }

  /** In 64 bits a shifted position can be shifted back exactly if it loses no bit. */
  lemma ShiftBackIff(position: nat, bits: nat)
    requires bits <= 31
    ensures position * Pow2(bits) % TWO_64 / Pow2(bits) == position <==> position < Pow2(64 - bits)
  {
    hide Pow2;
    Wide(bits);
    var m, x := Pow2(bits), position * Pow2(bits) % TWO_64;
    if position < Pow2(64 - bits) {
      Multiples(position, Pow2(64 - bits), m);
      DivisionIsUnique(0, position * m, TWO_64);
      DivisionIsUnique(position, 0, m);
    } else if x / m >= Pow2(64 - bits) {
      DivisionBound(x, m);
      SameOrMore(Pow2(64 - bits), x / m, m);
    }
  }

  lemma DivisionBound(x: nat, m: nat)
    requires m > 0
    ensures x / m * m <= x
  {
  }

  lemma SameOrMore(a: nat, b: nat, m: nat)
    requires a <= b
    ensures a * m <= b * m
  {
  }

  /** The last block in which entries start has a position that can be shifted without loss. */
  ghost predicate PositionsFit(c: Compression, gs: seq<Group>, bits: nat) {
    bits <= 64 && (gs == [] || Pos(c, gs, |gs| - 1) < Pow2(64 - bits))
  }

  lemma AllPositionsFit(log: Log, gs: seq<Group>, bits: nat, g: nat)
    requires IsLog(log, gs) && g < |gs| && PositionsFit(log.compression, gs, bits)
    ensures Pos(log.compression, gs, g) < Pow2(64 - bits)
  {
    hide Pos, Pow2;
    PosGrows(log.compression, gs, g, |gs| - 1);
  }

  /** The positions of all blocks in which entries start survive the shift exactly if that of the last one does. */
  lemma BlocksSurviveIff(log: Log, gs: seq<Group>, bits: nat)
    requires IsLog(log, gs) && bits <= 31
    ensures (forall g :: 0 <= g < |gs| ==>
               Pos(log.compression, gs, g) * Pow2(bits) % TWO_64 / Pow2(bits) == Pos(log.compression, gs, g))
       <==> PositionsFit(log.compression, gs, bits)
  {
    hide Pow2, Pos, IsLog;
    forall g | 0 <= g < |gs|
      ensures Pos(log.compression, gs, g) * Pow2(bits) % TWO_64 / Pow2(bits) == Pos(log.compression, gs, g)
         <==> Pos(log.compression, gs, g) < Pow2(64 - bits)
    {
      ShiftBackIff(Pos(log.compression, gs, g), bits);
    }
    if PositionsFit(log.compression, gs, bits) {
      forall g | 0 <= g < |gs| ensures Pos(log.compression, gs, g) < Pow2(64 - bits) {
        AllPositionsFit(log, gs, bits, g);
      }
    }
  }

  lemma IndexFits(log: Log, gs: seq<Group>, p: Place, bits: nat)
    requires IsLog(log, gs) && InLog(gs, p) && log.maxEntriesPerBlock < Pow2(bits)
    ensures p.index < Pow2(bits)
  {
    hide Pow2, Image;
    GroupIs(log, gs, p.group);
  }

  /** Every put of the log can be stored in a table with these sizes. */
  lemma PutIsStorable(t: HashTable, log: Log, gs: seq<Group>, p: Place)
    requires IsLog(log, gs) && InLog(gs, p) && log.maxEntriesPerBlock < Pow2(t.entryBlockBits)
    requires t.entryBlockBits <= 31 && t.slots.addressSize == AddressSize(|log.data|, t.entryBlockBits)
    requires PositionsFit(log.compression, gs, t.entryBlockBits)
    requires t.hash(EntryAt(gs, p).key) < Pow256(t.slots.hashSize)
    ensures t.Storable(CellOf(t.hash, log.compression, gs, p))
  {
    hide Pow256, Pow2, Pos, IsLog, Pack, PositionsFit, AddressSize;
    PosBounds(log, gs, p.group);
    IndexFits(log, gs, p, t.entryBlockBits);
    AllPositionsFit(log, gs, t.entryBlockBits, p.group);
    AddressFits(|log.data|, t.entryBlockBits, Pos(log.compression, gs, p.group), p.index);
  }

  // ---- A log whose positions do not fit ----

  /** A compressor that leaves blocks as they are. */
  const AS_IS: Compression := Packed((b: Bytes) => b, (b: Bytes) => b, 10)

  /** A block of one empty put. */
  const SMALL: Group := Group([LogFormat.Put([], [])], [[1, 0]])

  function ManySmall(n: nat): seq<Group> {
    seq(n, _ => SMALL)
  }

  lemma SmallIsGroup()
    ensures IsGroup(AS_IS, SMALL) && FramedAll(AS_IS, SMALL.blocks) == [2, 1, 0]
  {
    var e := LogFormat.Put([], []);
    assert Encode(1) == [1] && Encode(0) == [0] && Encode(2) == [2];
    EncodeOne(e);
    assert Encoded(e) == [1, 0];
    assert Concat([[1, 0]]) == [1, 0] + Concat([]);
    assert SMALL.entries[..0] == [];
    assert FramedAll(AS_IS, [[1, 0]]) == Framed(AS_IS, [1, 0]) + FramedAll(AS_IS, []);
  }

  lemma {:induction false} ManyImage(n: nat)
    ensures |Image(AS_IS, ManySmall(n))| == 3 * n
  {
    if n > 0 {
      ManyImage(n - 1);
      SmallIsGroup();
      assert ManySmall(n)[1..] == ManySmall(n - 1);
    }
  }

  lemma ManyAre(n: nat)
    ensures AreGroups(AS_IS, ManySmall(n)) && BlocksHold(ManySmall(n), 1) && |ManySmall(n)| == n
    ensures forall k: nat :: k <= n ==> ManySmall(n)[..k] == ManySmall(k)
  {
    hide IsGroup;
    SmallIsGroup();
  }

  /** Small blocks up to a length beyond 2^63: the position of the last one loses its highest bit, although
      each block holds only one entry. */
  lemma PositionLost() returns (log: Log, gs: seq<Group>)
    ensures IsLog(log, gs) && log.maxEntriesPerBlock == 1 && |log.data| < TWO_64 && gs != []
    ensures var p := Pos(log.compression, gs, |gs| - 1); p * Pow2(Bits(1)) % TWO_64 / Pow2(Bits(1)) != p
  {
    var n := 0x4000_0000_0000_0001;
    hide Image, IsGroup, FramedAll, ManySmall;
    gs := ManySmall(n);
    log := Log(AS_IS, seq(LOG_HEADER_SIZE, _ => 0) + Image(AS_IS, gs), 1);
    ManyImage(n);
    ManyAre(n);
    assert log.data[LOG_HEADER_SIZE..] == Image(AS_IS, gs);
    ManyImage(n - 1);
    assert Bits(1) == 1 && Pow2(1) == 2;
  }

  lemma NonEmpty(log: Log, gs: seq<Group>)
    requires IsLog(log, gs)
    ensures NoEmptyGroups(gs)
  {
    forall g | 0 <= g < |gs| ensures |gs[g].entries| > 0 {
      assert IsGroup(log.compression, gs[g]);
    }
  }
}
