/** The index: a Robin Hood hash table over the puts of a log. */
module HashTables {
  import opened Vlq
  import opened LittleEndian
  import opened SlotArrays
  import opened LogFormat
  import opened RobinHood
  import opened LogReader
  import opened KeyCompare

  // ---- Cells: what a slot stands for ----

  /** A used slot refers to a put: its hash, its key, its place in the log and the file position of
      the block it starts in. */
  datatype Cell = Free | Used(hash: nat, key: Bytes, place: Place, position: nat)

  function WantIn(c: nat): Cell -> int
    requires c > 0
  {
    (x: Cell) => if x.Free? then FREE else x.hash % c
  }

  function Wants(cells: seq<Cell>): (l: Layout)
    requires |cells| > 0
    ensures IsLayout(l) && |l| == |cells|
    ensures forall i :: 0 <= i < |l| ==> l[i] == if cells[i].Free? then FREE else cells[i].hash % |cells|
  {
    Map(WantIn(|cells|), cells)
  }

  lemma WantsUpdate(cells: seq<Cell>, i: nat, x: Cell)
    requires i < |cells|
    ensures Wants(cells[i := x]) == Wants(cells)[i := if x.Free? then FREE else x.hash % |cells|]
  {
  }

  lemma SameWants(a: seq<Cell>, b: seq<Cell>)
    requires |a| == |b| > 0 && multiset(a) == multiset(b)
    ensures multiset(Wants(a)) == multiset(Wants(b))
  {
    MapKeepsMultiset(WantIn(|a|), a, b);
  }

  // ---- Addresses ----

  function Pow2(bits: nat): (p: nat)
    ensures p > 0
  {
    if bits == 0 then 1 else 2 * Pow2(bits - 1)
  }

  /** Position and index in one number, for an index that fits below the shift. */
  function Pack(position: nat, index: nat, bits: nat): nat {
    position * Pow2(bits) + index
  }

  /** Bitwise or. */
  function BitOr(a: nat, b: nat): (r: nat)
    ensures a <= r
    decreases a + b
  {
    if a == 0 && b == 0 then 0
    else 2 * BitOr(a / 2, b / 2) + if a % 2 == 1 || b % 2 == 1 then 1 else 0
  }

  /** The address of an entry as it is computed. */
  function Address(position: nat, index: nat, bits: nat): nat {
    BitOr(position * Pow2(bits), index)
  }

  lemma {:induction false} OrZero(a: nat)
    ensures BitOr(a, 0) == a
  {
    if a > 0 {
      OrZero(a / 2);
    }
  }

  lemma OrDouble(a: nat, b: nat)
    ensures BitOr(2 * a, b) == 2 * BitOr(a, b / 2) + b % 2
  {
    assert (2 * a) / 2 == a && (2 * a) % 2 == 0;
  }

  lemma DoubleProduct(a: nat, b: nat)
    ensures a * (2 * b) == 2 * (a * b)
  {
  }

  lemma {:induction false} AddressIsPack(position: nat, index: nat, bits: nat)
    requires index < Pow2(bits)
    ensures Address(position, index, bits) == Pack(position, index, bits)
  {
    hide BitOr;
    if bits == 0 {
      OrZero(position);
    } else {
      AddressIsPack(position, index / 2, bits - 1);
      DoubleProduct(position, Pow2(bits - 1));
      OrDouble(position * Pow2(bits - 1), index);
    }
  }

  /** `addr >> bits` and `addr & mask` take a packed address apart. */
  lemma PackRoundTrip(position: nat, index: nat, bits: nat)
    requires index < Pow2(bits)
    ensures Pack(position, index, bits) / Pow2(bits) == position
    ensures Pack(position, index, bits) % Pow2(bits) == index
    ensures position > 0 ==> Pack(position, index, bits) > 0
  {
    hide Pow2;
    DivisionIsUnique(position, index, Pow2(bits));
    if position > 0 {
      Multiples(0, position, Pow2(bits));
    }
  }

  lemma OneMore(x: int, m: nat)
    ensures (x + 1) * m == x * m + m
  {
  }

  lemma {:induction false} Multiples(a: int, b: int, m: nat)
    requires a < b
    ensures a * m + m <= b * m
    decreases b - a
  {
    OneMore(b - 1, m);
    if a < b - 1 {
      Multiples(a, b - 1, m);
    }
  }

  lemma DivisionIsUnique(q: int, r: nat, m: nat)
    requires r < m
    ensures (q * m + r) / m == q && (q * m + r) % m == r
  {
    var a := q * m + r;
    assert a == (a / m) * m + a % m;
    if q < a / m {
      Multiples(q, a / m, m);
    } else if a / m < q {
      Multiples(a / m, q, m);
    }
  }

  lemma PackInjective(position: nat, index: nat, position': nat, index': nat, bits: nat)
    requires index < Pow2(bits) && index' < Pow2(bits) && Pack(position, index, bits) == Pack(position', index', bits)
    ensures position == position' && index == index'
  {
    PackRoundTrip(position, index, bits);
    PackRoundTrip(position', index', bits);
  }

  function SlotOf(x: Cell, bits: nat): Slot {
    match x
    case Free => EMPTY
    case Used(hash, _, place, position) => Slot(hash, Pack(position, place.index, bits))
  }

  function Bits(x: nat): nat {
    if x == 0 then 0 else 1 + Bits(x / 2)
  }

  lemma BitsHalved(x: nat)
    requires x > 0
    ensures Bits(x) == 1 + Bits(x / 2) && Pow2(Bits(x)) == 2 * Pow2(Bits(x / 2))
    ensures Pow2(Bits(x) - 1) == Pow2(Bits(x / 2))
  {
  }

  /** x < 2^bits, and no fewer bits do. */
  lemma {:induction false} BitsBound(x: nat)
    ensures x < Pow2(Bits(x)) && (Bits(x) > 0 ==> Pow2(Bits(x) - 1) <= x)
  {
    if x > 0 {
      BitsBound(x / 2);
      BitsHalved(x);
      hide Bits, Pow2;
      if x / 2 > 0 {
        BitsHalved(x / 2);
      } else {
        BitsOfOne(x);
      }
    }
  }

  lemma BitsOfOne(x: nat)
    requires x == 1
    ensures Bits(x) == 1 && Pow2(1) == 2 && Pow2(0) == 1
  {
  }

  /** The number of bits of x: x < 2^bits, and no fewer bits do. */
  method IntLog2(x: nat) returns (count: nat)
    ensures count == Bits(x)
    ensures x < Pow2(count) && (count > 0 ==> Pow2(count - 1) <= x)
  {
    hide Pow2;
    count := 0;
    var rest := x;
    while rest > 0
      invariant count + Bits(rest) == Bits(x)
    {
      rest := rest / 2;
      count := count + 1;
    }
    BitsBound(x);
  }

  // ---- Displacement ----

  /** On 64 bit unsigned numbers, as the subtraction may wrap. */
  function GetDisplacement(capacity: nat, slot: nat, hash: nat): nat
    requires 0 < capacity
  {
    var wantedSlot := hash % capacity;
    ((capacity + (slot - wantedSlot) % TWO_64) % TWO_64) % capacity
  }

  lemma DisplacementIsDist(capacity: nat, slot: nat, hash: nat)
    requires 0 < capacity < TWO_63 && slot < capacity
    ensures GetDisplacement(capacity, slot, hash) == Dist(capacity, hash % capacity, slot)
  {
    var w := hash % capacity;
    var wrapped := (slot - w) % TWO_64;
    if w <= slot {
      DivisionIsUnique(0, slot - w, TWO_64);
      DivisionIsUnique(0, capacity + (slot - w), TWO_64);
      DivisionIsUnique(1, slot - w, capacity);
    } else {
      DivisionIsUnique(-1, TWO_64 + slot - w, TWO_64);
      DivisionIsUnique(1, capacity + slot - w, TWO_64);
      DivisionIsUnique(0, capacity + slot - w, capacity);
    }
  }

  // ---- Cells and the log ----

  predicate HasKey(cells: seq<Cell>, key: Bytes) {
    exists i :: 0 <= i < |cells| && IsKey(cells[i], key)
  }

  predicate IsKey(x: Cell, key: Bytes) {
    x.Used? && x.key == key
  }

  /** A used cell refers to a put of its key. */
  predicate RefersTo(x: Cell, c: Compression, gs: seq<Group>) {
    x.Used? ==> InLog(gs, x.place) && EntryAt(gs, x.place).Put? && EntryAt(gs, x.place).key == x.key
                && x.position == Pos(c, gs, x.place.group)
  }

  predicate AllRefer(cells: seq<Cell>, c: Compression, gs: seq<Group>) {
    forall i {:trigger cells[i]} :: 0 <= i < |cells| ==> RefersTo(cells[i], c, gs)
  }

  ghost predicate Companions(iter: LogIter, raIter: LogIter)
    reads iter, raIter
  {
    && iter != raIter && iter.log == raIter.log && iter.gs == raIter.gs
    && iter.Valid() && iter.state == Active && raIter.Consistent()
  }

  /** The put found at an address of the table, compared with the key of the current entry. */
  method SameKey(position: nat, index: nat, iter: LogIter, raIter: LogIter, ghost x: Cell)
    returns (same: bool, keylen2: nat, valuelen2: nat)
    requires Companions(iter, raIter)
    requires x.Used? && RefersTo(x, iter.log.compression, iter.gs) && position == x.position && index == x.place.index
    modifies iter, raIter
    ensures Companions(iter, raIter) && iter.Here() == old(iter.Here())
    ensures same <==> x.key == iter.Entry().key
    ensures keylen2 == |x.key| && valuelen2 == |ValueOf(EntryAt(iter.gs, x.place))|
  {
    hide LogIter.Loaded, IsLog, Pos;
    raIter.Seek(position, x.place.group);
    ForwardInGroup(raIter.gs, Place(x.place.group, 0), index);
    raIter.SkipEntries(index);
    raIter.Next();
    keylen2, valuelen2 := raIter.keylen, raIter.valuelen;
    assert raIter.Entry() == EntryAt(iter.gs, x.place);
    same := false;
    if iter.keylen == keylen2 {
      var rc := iter.Reset();
      var cmp;
      assert iter.KeyRest() == iter.Entry().key && raIter.KeyRest() == x.key;
      rc, cmp := KeyCmp(iter, raIter);
      CompareIsLex(iter.Entry().key, x.key);
      same := cmp == 0;
    }
  }

  // ---- The table ----

  lemma {:induction false} AllFree(n: nat)
    ensures multiset(seq(n, _ => Free))[Free] == n
  {
    if n > 0 {
      AllFree(n - 1);
      var s: seq<Cell> := seq(n, _ => Free);
      assert s == seq(n - 1, _ => Free) + [Free];
    }
  }

  /** A table has the key or a free cell: then a put can be made. */
  predicate HasRoom(cells: seq<Cell>, key: Bytes) {
    HasKey(cells, key) || Free in cells
  }

  // ---- Probing for a key ----

  /** The first d steps from slot w have been probed in vain for the key, the next slot is `slot`. */
  ghost predicate Probed(cells: seq<Cell>, key: Bytes, w: nat, d: nat, slot: nat) {
    && |cells| > 0 && Reached(Wants(cells), w, d, slot)
    && forall i :: 0 <= i < |cells| && IsKey(cells[i], key) ==> cells[i].hash % |cells| == w && d <= Dist(|cells|, w, i)
  }

  function DispOf(cells: seq<Cell>, i: nat): nat
    requires i < |cells| && cells[i].Used?
  {
    Dist(|cells|, cells[i].hash % |cells|, i)
  }

  /** Nobody has the key once probing may give up. */
  lemma GiveUp(cells: seq<Cell>, key: Bytes, w: nat, d: nat, slot: nat)
    requires Probed(cells, key, w, d, slot) && (cells[slot].Used? ==> d > DispOf(cells, slot))
    ensures !HasKey(cells, key)
  {
    GivingUpIsSafe(Wants(cells), w, d, slot);
  }

  /** One slot further, when the resident here has another key and is no better placed. */
  lemma ProbeNext(cells: seq<Cell>, key: Bytes, w: nat, d: nat, slot: nat)
    requires Probed(cells, key, w, d, slot) && cells[slot].Used? && !IsKey(cells[slot], key)
    requires d <= DispOf(cells, slot)
    ensures d < |cells| && Probed(cells, key, w, d + 1, Next(|cells|, slot))
  {
    ReachNext(Wants(cells), w, d, slot);
  }

  /** The byte position of the following slot. */
  function FollowingPos(pos: nat, slot: nat, capacity: nat, size: nat): (p: nat)
    requires slot < capacity && pos == SlotPos(slot, size)
    ensures p == SlotPos(Next(capacity, slot), size)
  {
    if slot + 1 >= capacity then 0 else pos + size
  }

  lemma ProbeBounds(cells: seq<Cell>, key: Bytes, w: nat, d: nat, slot: nat)
    requires Probed(cells, key, w, d, slot)
    ensures slot < |cells| && d <= |cells|
  {
  }

  /** One free cell for one used cell. */
  lemma FreeCount(before: multiset<Cell>, after: multiset<Cell>, x: Cell)
    requires x.Used? && after + multiset{Free} == before + multiset{x}
    ensures after[Free] + 1 == before[Free]
  {
    assert (after + multiset{Free})[Free] == (before + multiset{x})[Free];
  }

  /** Two exchanges in a row. */
  lemma Exchange<T(!new)>(a: multiset<T>, b: multiset<T>, c: multiset<T>, x: T, y: T, z: T)
    requires b + multiset{x} == a + multiset{y} && c + multiset{y} == b + multiset{z}
    ensures c + multiset{x} == a + multiset{z}
  {
    forall v ensures (c + multiset{x})[v] == (a + multiset{z})[v] {
      assert (b + multiset{x})[v] == (a + multiset{y})[v] && (c + multiset{y})[v] == (b + multiset{z})[v];
    }
  }

  lemma SomeUsed(cells: seq<Cell>, i: nat)
    requires i < |cells| && cells[i].Used?
    ensures multiset(cells)[Free] < |cells|
  {
    WithoutOne(cells, i);
    CountAtMostLength(Without(cells, i), Free);
  }

  function NextSlot(i: nat, c: nat): (n: nat)
    requires i < c
    ensures n == Next(c, i)
  {
    DivisionIsUnique(if i + 1 == c then 1 else 0, if i + 1 == c then 0 else i + 1, c);
    (i + 1) % c
  }

  function SizeOfPut(keylen: nat, valuelen: nat): nat {
    keylen + valuelen + Vlq.Size(keylen + 1) + Vlq.Size(valuelen)
  }

  datatype Outcome = Match | Stop | Continue

  class HashTable {
    const slots: SlotArray
    const hash: Bytes -> nat
    const entryBlockBits: nat

    // header fields
    var numEntries: nat
    var garbageSize: nat
    var maxDisplacement: nat
    var totalDisplacement: nat
    var hashCollisions: nat
    var dataEnd: nat
    var numPuts: nat
    var maxKeyLen: nat
    var maxValueLen: nat
    const hashSeed: nat
    const fileIdentifier: nat

    ghost var cells: seq<Cell>

    /** An empty table. */
    constructor (capacity: nat, hashSize: nat, addressSize: nat, entryBlockBits: nat, hash: Bytes -> nat,
                 garbageSize: nat, hashSeed: nat, fileIdentifier: nat)
      requires 0 < capacity < TWO_63
      ensures Valid() && numEntries == 0 && this.garbageSize == garbageSize
      ensures cells == seq(capacity, _ => Free) && Capacity() == capacity
      ensures slots.hashSize == hashSize && slots.addressSize == addressSize
      ensures this.entryBlockBits == entryBlockBits && this.hash == hash
      ensures this.hashSeed == hashSeed && this.fileIdentifier == fileIdentifier
      ensures fresh(slots) && fresh(slots.bytes)
    {
      slots := new SlotArray(capacity, hashSize, addressSize);
      this.hash, this.entryBlockBits := hash, entryBlockBits;
      this.hashSeed, this.fileIdentifier := hashSeed, fileIdentifier;
      numEntries, this.garbageSize := 0, garbageSize;
      maxDisplacement, totalDisplacement, hashCollisions := 0, 0, 0;
      dataEnd, numPuts, maxKeyLen, maxValueLen := 0, 0, 0, 0;
      cells := seq(capacity, _ => Free);
      new;
      AllFree(capacity);
      assert forall i :: 0 <= i < capacity ==> OkAt(Wants(cells), i);
      assert Settled(Wants(cells), 0);
    }

    function Capacity(): nat {
      slots.capacity
    }

    /** The cell can be stored: hash and address fit their widths, and the address is not 0. */
    predicate Storable(x: Cell) {
      x.Used? ==>
        && x.hash == hash(x.key) && x.hash < Pow256(slots.hashSize)
        && x.position > 0 && x.place.index < Pow2(entryBlockBits)
        && Pack(x.position, x.place.index, entryBlockBits) < Pow256(slots.addressSize)
    }

    /** The bytes of the table stand for the cells. */
    ghost predicate Stored()
      reads this`cells, slots, slots.bytes
    {
      && slots.Valid() && |cells| == Capacity() && 0 < Capacity() < TWO_63
      && (forall i {:trigger cells[i]} :: 0 <= i < |cells| ==> slots.slots[i] == SlotOf(cells[i], entryBlockBits))
      && (forall i {:trigger cells[i]} :: 0 <= i < |cells| ==> Storable(cells[i]))
    }

    ghost predicate Valid()
      reads this`cells, this`numEntries, slots, slots.bytes
    {
      && Stored() && RobinHood.Valid(Wants(cells))
      && numEntries + multiset(cells)[Free] == Capacity()
    }

    lemma CapacityFacts()
      requires Stored()
      ensures |cells| == Capacity() && 0 < Capacity() < TWO_63
    {
    }

    /** Writes one slot. */
    method WriteCell(pos: nat, hash: nat, addr: nat, ghost i: nat, ghost x: Cell)
      requires Stored() && i < |cells| && pos == SlotPos(i, slots.SlotSize()) && Storable(x)
      requires Slot(hash, addr) == SlotOf(x, entryBlockBits)
      modifies this`cells, slots`slots, slots.bytes
      ensures Stored() && cells == old(cells)[i := x]
    {
      hide Pow256, Pow2, AllHold, Pack;
      slots.Write(pos, hash, addr, i);
      cells := cells[i := x];
    }

    /** What `HashPut` keeps while it carries cell x past slot `slot` towards slot e. */
    ghost predicate Probing(slot: nat, x: Cell, e: nat)
      reads this`cells, slots, slots.bytes
    {
      && Stored() && x.Used? && Storable(x) && slot < |cells| && e < |cells|
      && Carrying(Wants(cells), slot, x.hash % |cells|, e)
    }

    method ReadCell(pos: nat, ghost i: nat) returns (hash: nat, addr: nat)
      requires Stored() && i < |cells| && pos == SlotPos(i, slots.SlotSize())
      ensures Slot(hash, addr) == SlotOf(cells[i], entryBlockBits)
      ensures addr == 0 <==> cells[i].Free?
      ensures Storable(cells[i]) && 0 < |cells| == Capacity() < TWO_63
    {
      hash := slots.ReadHash(pos, i);
      addr := slots.ReadAddr(pos, i);
      if cells[i].Used? {
        PackRoundTrip(cells[i].position, cells[i].place.index, entryBlockBits);
      }
    }

    /** Carried past a resident that is no worse placed. */
    lemma PassBy(slot: nat, x: Cell, e: nat)
      requires Probing(slot, x, e) && slot != e && cells[slot].Used?
      requires Dist(|cells|, x.hash % |cells|, slot) <= Dist(|cells|, cells[slot].hash % |cells|, slot)
      ensures Probing(Next(|cells|, slot), x, e)
      ensures var n := Next(|cells|, slot);
              Dist(|cells|, x.hash % |cells|, n) == Dist(|cells|, x.hash % |cells|, slot) + 1
              && Dist(|cells|, n, e) < Dist(|cells|, slot, e)
    {
      CarryPast(Wants(cells), slot, x.hash % |cells|, e);
    }

    /** The carried cell takes the slot of a better placed one, which is carried on. */
    method Steal(pos: nat, hash: nat, position: nat, ghost slot: nat, ghost x: Cell, ghost e: nat)
      requires Probing(slot, x, e) && cells[slot].Used? && cells[e].Free? && pos == SlotPos(slot, slots.SlotSize())
      requires Slot(hash, position) == SlotOf(x, entryBlockBits)
      requires Dist(|cells|, x.hash % |cells|, slot) > Dist(|cells|, cells[slot].hash % |cells|, slot)
      modifies this`cells, slots`slots, slots.bytes
      ensures cells == old(cells)[slot := x] && cells[e].Free?
      ensures Probing(Next(|cells|, slot), old(cells[slot]), e)
      ensures var n, w := Next(|cells|, slot), old(cells[slot]).hash % |cells|;
              Dist(|cells|, w, n) == Dist(|cells|, w, slot) + 1 && Dist(|cells|, n, e) < Dist(|cells|, slot, e)
    {
      hide Carrying;
      CarrySteal(Wants(cells), slot, x.hash % |cells|, e);
      WantsUpdate(cells, slot, x);
      WriteCell(pos, hash, position, slot, x);
    }

    /** The carried cell ends in a free slot. */
    method Settle(pos: nat, hash: nat, position: nat, ghost slot: nat, ghost x: Cell, ghost e: nat)
      requires Probing(slot, x, e) && cells[slot].Free? && pos == SlotPos(slot, slots.SlotSize())
      requires Slot(hash, position) == SlotOf(x, entryBlockBits)
      modifies this`cells, slots`slots, slots.bytes
      ensures Stored() && RobinHood.Valid(Wants(cells))
      ensures multiset(cells) + multiset{Free} == multiset(old(cells)) + multiset{x}
    {
      CarryEnd(Wants(cells), slot, x.hash % |cells|, e);
      WantsUpdate(cells, slot, x);
      WriteCell(pos, hash, position, slot, x);
    }

    /** A put of the key is there already: the cell takes its slot. */
    method Replace(pos: nat, hash: nat, position: nat, ghost slot: nat, ghost x: Cell)
      requires Valid() && slot < |cells| && x.Used? && Storable(x) && IsKey(cells[slot], x.key)
      requires pos == SlotPos(slot, slots.SlotSize()) && Slot(hash, position) == SlotOf(x, entryBlockBits)
      modifies this`cells, slots`slots, slots.bytes
      ensures Valid() && cells == old(cells)[slot := x]
    {
      WantsUpdate(cells, slot, x);
      assert Storable(cells[slot]);
      assert Wants(cells)[slot := x.hash % |cells|] == Wants(cells);
      WriteCell(pos, hash, position, slot, x);
    }

    /** One probe: is this the slot of the key of iter's entry, or may probing give up here? */
    method ProbeSlot(pos: nat, slot: nat, displacement: nat, hash0: nat, iter: LogIter, raIter: LogIter)
      returns (outcome: Outcome, keylen2: nat, valuelen2: nat)
      requires Stored() && Companions(iter, raIter) && AllRefer(cells, iter.log.compression, iter.gs)
      requires hash0 == hash(iter.Entry().key) && slot < |cells| && pos == SlotPos(slot, slots.SlotSize())
      modifies iter, raIter
      ensures Companions(iter, raIter) && iter.Here() == old(iter.Here())
      ensures outcome == Match ==> IsKey(cells[slot], iter.Entry().key) && InLog(iter.gs, cells[slot].place)
      ensures outcome == Match ==>
        SizeOfPut(keylen2, valuelen2) == |Encoded(EntryAt(iter.gs, cells[slot].place))|
      ensures outcome == Stop ==> (cells[slot].Used? ==> displacement > DispOf(cells, slot))
      ensures outcome == Continue ==>
        cells[slot].Used? && !IsKey(cells[slot], iter.Entry().key) && displacement <= DispOf(cells, slot)
    {
      hide Pow256, Pow2, Pack, LogIter.Consistent, LogIter.AtEntry, SlotPos, GetDisplacement, Stored, SizeOfPut,
           Encoded;
      keylen2, valuelen2 := 0, 0;
      var hash2, position2 := ReadCell(pos, slot);
      if position2 == 0 {
        return Stop, 0, 0;
      }
      var entryIndex2, position3 := Unpack(position2, cells[slot]);
      PointerInRange(iter, cells[slot]);
      if position3 < LOG_HEADER_SIZE || position3 >= |iter.log.data| {
        // the source, when it deletes, reports an internal error here
        assert false;
      }
      if hash0 == hash2 {
        var same;
        same, keylen2, valuelen2 := SameKey(position3, entryIndex2, iter, raIter, cells[slot]);
        if same {
          PutSize(iter, cells[slot]);
          return Match, keylen2, valuelen2;
        }
      }
      DisplacementIsDist(Capacity(), slot, hash2);
      outcome := if displacement > GetDisplacement(Capacity(), slot, hash2) then Stop else Continue;
    }

    /** What a slot points to lies in the log. */
    lemma PointerInRange(iter: LogIter, x: Cell)
      requires iter.Valid() && x.Used? && RefersTo(x, iter.log.compression, iter.gs)
      ensures LOG_HEADER_SIZE <= x.position < |iter.log.data|
    {
      PosBounds(iter.log, iter.gs, x.place.group);
    }

    /** Probes for the key of iter's entry, as `HashPut` and `HashDelete` both start out.  It ends at the
        slot of the key, or where probing gives up. */
    method Find(wantedSlot: nat, hash0: nat, iter: LogIter, raIter: LogIter)
      returns (found: bool, slot: nat, pos: nat, displacement: nat, keylen2: nat, valuelen2: nat)
      requires Valid() && Companions(iter, raIter) && AllRefer(cells, iter.log.compression, iter.gs)
      requires hash0 == hash(iter.Entry().key) && wantedSlot == hash0 % Capacity()
      modifies iter, raIter
      ensures Companions(iter, raIter) && iter.Here() == old(iter.Here())
      ensures slot < |cells| && pos == SlotPos(slot, slots.SlotSize())
      ensures found ==> IsKey(cells[slot], iter.Entry().key) && InLog(iter.gs, cells[slot].place)
      ensures found ==> SizeOfPut(keylen2, valuelen2) == |Encoded(EntryAt(iter.gs, cells[slot].place))|
      ensures !found ==> !HasKey(cells, iter.Entry().key) && Reached(Wants(cells), wantedSlot, displacement, slot)
    {
      hide Probed, LogIter.Consistent, LogIter.AtEntry, SlotPos, Stored, AllRefer, Reached;
      ghost var key, c := iter.Entry().key, |cells|;
      SlotPosIsProduct(wantedSlot, slots.SlotSize());
      StartProbing(wantedSlot, key);
      pos, displacement, slot := wantedSlot * slots.SlotSize(), 0, wantedSlot;
      while true
        invariant slot < c == Capacity() && displacement <= c && pos == SlotPos(slot, slots.SlotSize())
        invariant Probed(cells, key, wantedSlot, displacement, slot)
        invariant Companions(iter, raIter) && iter.Here() == old(iter.Here())
        decreases c - displacement
      {
        var outcome;
        outcome, keylen2, valuelen2 := ProbeSlot(pos, slot, displacement, hash0, iter, raIter);
        if outcome == Match {
          found := true;
          return;
        }
        if outcome == Stop {
          found := false;
          StoppedHere(key, wantedSlot, displacement, slot);
          return;
        }
        ProbeNext(cells, key, wantedSlot, displacement, slot);
        ProbeBounds(cells, key, wantedSlot, displacement + 1, Next(c, slot));
        pos, slot := FollowingPos(pos, slot, Capacity(), slots.SlotSize()), Next(Capacity(), slot);
        displacement := displacement + 1;
      }
    }

    lemma StoppedHere(key: Bytes, w: nat, d: nat, slot: nat)
      requires Probed(cells, key, w, d, slot) && (cells[slot].Used? ==> d > DispOf(cells, slot))
      ensures !HasKey(cells, key) && Reached(Wants(cells), w, d, slot)
    {
      GiveUp(cells, key, w, d, slot);
    }

    lemma StartProbing(w: nat, key: Bytes)
      requires Valid() && w == hash(key) % Capacity()
      ensures Probed(cells, key, w, 0, w) && w < |cells| == Capacity() && Stored()
      ensures Reached(Wants(cells), w, 0, w)
    {
    }

    /** Index and position of a packed address. */
    method Unpack(addr: nat, ghost x: Cell) returns (index: nat, position: nat)
      requires x.Used? && Storable(x) && addr == Pack(x.position, x.place.index, entryBlockBits)
      ensures index == x.place.index && position == x.position
    {
      PackRoundTrip(x.position, x.place.index, entryBlockBits);
      index := addr % Pow2(entryBlockBits);
      position := addr / Pow2(entryBlockBits);
    }

    /** The rest of `HashPut`, when keys need not be compared any more: cell x0 is carried on from slot
        `slot0`, stealing slots from better placed ones, until a free slot is met. */
    method PushDown(pos0: nat, slot0: nat, displacement0: nat, hash0: nat, position0: nat, ghost x0: Cell, ghost e: nat)
      requires Probing(slot0, x0, e) && cells[e].Free? && pos0 == SlotPos(slot0, slots.SlotSize())
      requires Slot(hash0, position0) == SlotOf(x0, entryBlockBits)
      requires displacement0 == Dist(|cells|, x0.hash % |cells|, slot0)
      modifies this`cells, slots`slots, slots.bytes
      ensures Stored() && RobinHood.Valid(Wants(cells))
      ensures multiset(cells) + multiset{Free} == multiset(old(cells)) + multiset{x0}
    {
      hide Carrying, Pow256, Pow2, Pack, AllHold, SlotPos, GetDisplacement;
      var pos, slot, displacement, hash, position := pos0, slot0, displacement0, hash0, position0;
      ghost var x, c := x0, |cells|;
      while true
        invariant Probing(slot, x, e) && cells[e].Free? && pos == SlotPos(slot, slots.SlotSize())
        invariant Slot(hash, position) == SlotOf(x, entryBlockBits)
        invariant c == |cells| == Capacity() && displacement == Dist(c, x.hash % c, slot)
        invariant multiset(cells) + multiset{x} == multiset(old(cells)) + multiset{x0}
        decreases Dist(c, slot, e)
      {
        var hash2, position2 := ReadCell(pos, slot);
        if position2 == 0 {
          Settle(pos, hash, position, slot, x, e);
          return;
        }
        var otherDisplacement := GetDisplacement(Capacity(), slot, hash2);
        DisplacementIsDist(Capacity(), slot, hash2);
        if displacement > otherDisplacement {
          ghost var y := cells[slot];
          Steal(pos, hash, position, slot, x, e);
          hash, position, displacement, x := hash2, position2, otherDisplacement, y;
        } else {
          PassBy(slot, x, e);
        }
        pos, slot := FollowingPos(pos, slot, Capacity(), slots.SlotSize()), Next(Capacity(), slot);
        displacement := displacement + 1;
      }
    }

    /** A new entry, from where probing for its key stopped. */
    method Insert(pos: nat, slot: nat, displacement: nat, hash0: nat, position: nat, ghost cell: Cell)
      requires Valid() && cell.Used? && Storable(cell) && Free in cells && slot < |cells|
      requires Slot(hash0, position) == SlotOf(cell, entryBlockBits) && pos == SlotPos(slot, slots.SlotSize())
      requires Reached(Wants(cells), cell.hash % |cells|, displacement, slot)
      modifies this`cells, this`numEntries, slots`slots, slots.bytes
      ensures Valid() && numEntries == old(numEntries) + 1
      ensures multiset(cells) + multiset{Free} == multiset(old(cells)) + multiset{cell}
    {
      hide SlotPos, Stored, Pow2, Pow256, Pack, Carrying, Reached, RobinHood.Valid, SlotOf, Storable;
      CapacityFacts();
      ghost var e :| 0 <= e < |cells| && cells[e] == Free;
      ReachedCarries(Wants(cells), cell.hash % |cells|, displacement, slot, e);
      PushDown(pos, slot, displacement, hash0, position, cell, e);
      CapacityFacts();
      FreeCount(old(multiset(cells)), multiset(cells), cell);
      numEntries := numEntries + 1;
    }

    /** A new put for a key that is there. */
    method Update(pos: nat, slot: nat, hash0: nat, position: nat, keylen2: nat, valuelen2: nat, ghost cell: Cell)
      requires Valid() && slot < |cells| && cell.Used? && Storable(cell) && IsKey(cells[slot], cell.key)
      requires pos == SlotPos(slot, slots.SlotSize()) && Slot(hash0, position) == SlotOf(cell, entryBlockBits)
      modifies this`cells, this`garbageSize, slots`slots, slots.bytes
      ensures Valid() && cells == old(cells)[slot := cell]
      ensures garbageSize == old(garbageSize) + SizeOfPut(keylen2, valuelen2)
    {
      hide SlotPos, Stored, Pow2, Pow256, Pack, SizeOfPut;
      Replace(pos, hash0, position, slot, cell);
      garbageSize := garbageSize + SizeOfPut(keylen2, valuelen2);
    }

    /** `HashPut` without iterators: the keys are not compared. */
    method PutUnseen(wantedSlot: nat, hash0: nat, position: nat, ghost cell: Cell)
      requires Valid() && cell.Used? && Storable(cell) && Free in cells && !HasKey(cells, cell.key)
      requires Slot(hash0, position) == SlotOf(cell, entryBlockBits) && wantedSlot == hash0 % Capacity()
      modifies this`cells, this`numEntries, slots`slots, slots.bytes
      ensures Valid() && numEntries == old(numEntries) + 1
      ensures multiset(cells) + multiset{Free} == multiset(old(cells)) + multiset{cell}
    {
      hide SlotPos, Stored, Pow2, Pow256, Pack, Reached, RobinHood.Valid, Probed;
      SlotPosIsProduct(wantedSlot, slots.SlotSize());
      StartProbing(wantedSlot, cell.key);
      Insert(wantedSlot * slots.SlotSize(), wantedSlot, 0, hash0, position, cell);
    }

    /** `HashPut` with iterators: inserts a put, or replaces the one of the same key (in slot `at`). */
    method HashPut(wantedSlot: nat, hash0: nat, iter: LogIter, raIter: LogIter, position: nat, ghost cell: Cell)
      returns (ghost at: nat)
      requires Valid() && cell.Used? && Storable(cell) && HasRoom(cells, cell.key)
      requires Slot(hash0, position) == SlotOf(cell, entryBlockBits) && wantedSlot == hash0 % Capacity()
      requires Companions(iter, raIter) && iter.Entry().key == cell.key
      requires AllRefer(cells, iter.log.compression, iter.gs)
      modifies this`cells, this`numEntries, this`garbageSize, slots`slots, slots.bytes, iter, raIter
      ensures Valid() && Companions(iter, raIter) && iter.Here() == old(iter.Here())
      ensures !HasKey(old(cells), cell.key) ==>
        && multiset(cells) + multiset{Free} == multiset(old(cells)) + multiset{cell}
        && numEntries == old(numEntries) + 1 && garbageSize == old(garbageSize)
      ensures HasKey(old(cells), cell.key) ==>
        && at < |old(cells)| && IsKey(old(cells)[at], cell.key) && cells == old(cells)[at := cell]
        && InLog(iter.gs, old(cells)[at].place) && numEntries == old(numEntries)
        && garbageSize == old(garbageSize) + |Encoded(EntryAt(iter.gs, old(cells)[at].place))|
    {
      hide Probed, LogIter.Consistent, LogIter.AtEntry, SlotPos, Stored, Pow2, Pow256, Pack, Reached, Encoded,
           SizeOfPut, RobinHood.Valid, Wants, EntryAt, ValueOf;
      at := 0;
      var found, slot, pos, displacement, keylen2, valuelen2 := Find(wantedSlot, hash0, iter, raIter);
      if found {
        at := slot;
        Update(pos, slot, hash0, position, keylen2, valuelen2, cell);
      } else {
        CapacityFacts();
        Insert(pos, slot, displacement, hash0, position, cell);
      }
    }

    /** Closes the gap a removed entry leaves: the following ones that are not in their wanted slots
        move back by one. */
    method BackShift(slot0: nat)
      requires Stored() && RobinHood.Valid(Wants(cells)) && slot0 < |cells| && cells[slot0].Used?
      modifies this`cells, slots`slots, slots.bytes
      ensures Stored() && RobinHood.Valid(Wants(cells))
      ensures multiset(cells) + multiset{old(cells[slot0])} == multiset(old(cells)) + multiset{Free}
    {
      hide Pow256, Pow2, Pack, AllHold, SlotPos, Stored, Wants, Ordered;
      var slot: nat, slotSize: nat := slot0, slots.SlotSize();
      CapacityFacts();
      ghost var z: nat :| z < |cells| && Settled(Wants(cells), z);
      while true
        invariant Stored() && slot < |cells| == |old(cells)| == Capacity() && cells[slot].Used?
        invariant z < |cells| && Ordered(Wants(cells))
        invariant multiset(cells) + multiset{old(cells[slot0])} == multiset(old(cells)) + multiset{cells[slot]}
        invariant Settled(Wants(cells), z)
        decreases Dist(|cells|, Next(|cells|, slot), z)
      {
        var nextSlot := NextSlot(slot, Capacity());
        SlotPosIsProduct(nextSlot, slotSize);
        SlotPosIsProduct(slot, slotSize);
        var hash3, position3 := ReadCell(nextSlot * slotSize, nextSlot);
        if position3 == 0 {
          break;
        }
        if hash3 % Capacity() == nextSlot {
          break;
        }
        ghost var before, x := multiset(cells), cells[slot];
        MoveBack(slot * slotSize, hash3, position3, slot, z);
        slot := nextSlot;
        Exchange(old(multiset(cells)), before, multiset(cells), old(cells[slot0]), x, cells[slot]);
      }
      SlotPosIsProduct(slot, slotSize);
      ghost var before, x := multiset(cells), cells[slot];
      Vacate(slot * slotSize, slot);
      Exchange(old(multiset(cells)), before, multiset(cells), old(cells[slot0]), x, Free);
    }

    /** Moving on brings the settled slot z nearer. */
    lemma NearerToSettled(n: nat, z: nat)
      requires Stored() && n < |cells| && z < |cells| && cells[n].Used? && DispOf(cells, n) > 0 && Settled(Wants(cells), z)
      ensures Dist(|cells|, Next(|cells|, n), z) < Dist(|cells|, n, z)
    {
      assert n != z;
    }

    /** The resident of the next slot is copied to this one. */
    method MoveBack(pos: nat, hash3: nat, position3: nat, ghost slot: nat, ghost z: nat)
      requires Stored() && Ordered(Wants(cells)) && slot < |cells| && cells[slot].Used? && z < |cells|
      requires pos == SlotPos(slot, slots.SlotSize())
      requires var n := Next(|cells|, slot);
        cells[n].Used? && DispOf(cells, n) > 0 && Slot(hash3, position3) == SlotOf(cells[n], entryBlockBits)
      requires Settled(Wants(cells), z)
      modifies this`cells, slots`slots, slots.bytes
      ensures Stored() && Ordered(Wants(cells)) && cells == old(cells)[slot := old(cells)[Next(|cells|, slot)]]
      ensures Settled(Wants(cells), z)
      ensures var n := Next(|cells|, slot); cells[n].Used? && Dist(|cells|, Next(|cells|, n), z) < Dist(|cells|, n, z)
      ensures multiset(cells) + multiset{old(cells[slot])} == multiset(old(cells)) + multiset{cells[Next(|cells|, slot)]}
    {
      hide Pow256, Pow2, Pack, AllHold, SlotPos;
      NearerToSettled(Next(|cells|, slot), z);
      ShiftKeepsOrder(Wants(cells), slot);
      WantsUpdate(cells, slot, cells[Next(|cells|, slot)]);
      WriteCell(pos, hash3, position3, slot, cells[Next(|cells|, slot)]);
    }

    method Vacate(pos: nat, ghost slot: nat)
      requires Stored() && Ordered(Wants(cells)) && slot < |cells| && pos == SlotPos(slot, slots.SlotSize())
      requires var n := Next(|cells|, slot); cells[n].Used? ==> DispOf(cells, n) == 0
      modifies this`cells, slots`slots, slots.bytes
      ensures Stored() && RobinHood.Valid(Wants(cells)) && cells == old(cells)[slot := Free]
      ensures multiset(cells) + multiset{old(cells[slot])} == multiset(old(cells)) + multiset{Free}
    {
      hide Pow256, Pow2, Pack, AllHold, SlotPos;
      FreeKeepsOrder(Wants(cells), slot);
      WantsUpdate(cells, slot, Free);
      WriteCell(pos, 0, 0, slot, Free);
    }

    /** An entry is taken out of its slot. */
    method Remove(slot: nat, keylen2: nat, valuelen2: nat)
      requires Valid() && slot < |cells| && cells[slot].Used?
      modifies this`cells, this`numEntries, this`garbageSize, slots`slots, slots.bytes
      ensures Valid() && numEntries + 1 == old(numEntries)
      ensures garbageSize == old(garbageSize) + SizeOfPut(keylen2, valuelen2)
      ensures multiset(cells) + multiset{old(cells[slot])} == multiset(old(cells)) + multiset{Free}
    {
      hide Stored, RobinHood.Valid, Wants, SizeOfPut;
      SomeUsed(cells, slot);
      CapacityFacts();
      BackShift(slot);
      FreeCount(multiset(cells), old(multiset(cells)), old(cells[slot]));
      garbageSize := garbageSize + SizeOfPut(keylen2, valuelen2);
      numEntries := numEntries - 1;
    }

    /** Removes the entry of the key of iter's entry, if there is one (in slot `at`). */
    method HashDelete(wantedSlot: nat, hash0: nat, iter: LogIter, raIter: LogIter) returns (ghost at: nat)
      requires Valid() && Companions(iter, raIter) && AllRefer(cells, iter.log.compression, iter.gs)
      requires hash0 == hash(iter.Entry().key) && wantedSlot == hash0 % Capacity()
      modifies this`cells, this`numEntries, this`garbageSize, slots`slots, slots.bytes, iter, raIter
      ensures Valid() && Companions(iter, raIter) && iter.Here() == old(iter.Here())
      ensures !HasKey(old(cells), old(iter.Entry().key)) ==>
        cells == old(cells) && numEntries == old(numEntries) && garbageSize == old(garbageSize)
      ensures HasKey(old(cells), old(iter.Entry().key)) ==>
        && at < |old(cells)| && IsKey(old(cells)[at], old(iter.Entry().key))
        && multiset(cells) + multiset{old(cells)[at]} == multiset(old(cells)) + multiset{Free}
        && InLog(iter.gs, old(cells)[at].place) && numEntries + 1 == old(numEntries)
        && garbageSize == old(garbageSize) + |Encoded(EntryAt(iter.gs, old(cells)[at].place))|
    {
      hide Probed, LogIter.Consistent, LogIter.AtEntry, SlotPos, Stored, Pow2, Pow256, Pack, Reached, Encoded,
           SizeOfPut, RobinHood.Valid, Wants;
      at := 0;
      var found, slot, pos, displacement, keylen2, valuelen2 := Find(wantedSlot, hash0, iter, raIter);
      if found {
        at := slot;
        Remove(slot, keylen2, valuelen2);
      }
    }

    /** The computed size of a put is the number of bytes it takes in the log. */
    lemma PutSize(iter: LogIter, x: Cell)
      requires iter.Valid() && x.Used? && RefersTo(x, iter.log.compression, iter.gs)
      ensures var e := EntryAt(iter.gs, x.place); |Encoded(e)| == SizeOfPut(|x.key|, |ValueOf(e)|)
    {
      var e := EntryAt(iter.gs, x.place);
      EntryFits(iter.log, iter.gs, x.place.group, x.place.index);
      SizeIsLength(|e.key| + 1);
      SizeIsLength(|e.value|);
    }
  }
}
