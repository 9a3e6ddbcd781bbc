/** The hash table as bytes: slots of a hash and an address each. */
module SlotArrays {
  import opened Vlq
  import opened LittleEndian

  /** Address 0 marks an empty slot. */
  datatype Slot = Slot(hash: nat, addr: nat)

  const EMPTY := Slot(0, 0)

  /** Where slot i starts. */
  function SlotPos(i: nat, size: nat): nat {
    if i == 0 then 0 else SlotPos(i - 1, size) + size
  }

  lemma {:induction false} SlotPosIsProduct(i: nat, size: nat)
    ensures SlotPos(i, size) == i * size
  {
    if i > 0 {
      SlotPosIsProduct(i - 1, size);
      assert (i - 1) * size + size == i * size;
    }
  }

  lemma {:induction false} SlotsApart(i: nat, j: nat, size: nat)
    requires i < j
    ensures SlotPos(i, size) + size == SlotPos(i + 1, size) <= SlotPos(j, size)
    decreases j
  {
    if i + 1 < j {
      SlotsApart(i, j - 1, size);
    }
  }

  /** Slot i of a table stored in these bytes. */
  ghost predicate HoldsAt(bytes: seq<byte>, i: nat, s: Slot, hashSize: nat, addressSize: nat) {
    var p := SlotPos(i, hashSize + addressSize);
    && p + hashSize + addressSize <= |bytes|
    && FromBytes(bytes[p..p + hashSize]) == s.hash
    && FromBytes(bytes[p + hashSize..p + hashSize + addressSize]) == s.addr
  }

  ghost predicate AllHold(bytes: seq<byte>, slots: seq<Slot>, hashSize: nat, addressSize: nat) {
    forall i {:trigger HoldsAt(bytes, i, slots[i], hashSize, addressSize)} :: 0 <= i < |slots| ==>
      HoldsAt(bytes, i, slots[i], hashSize, addressSize)
  }

  lemma ZerosHold(bytes: seq<byte>, capacity: nat, hashSize: nat, addressSize: nat)
    requires |bytes| == SlotPos(capacity, hashSize + addressSize) && forall k :: 0 <= k < |bytes| ==> bytes[k] == 0
    ensures AllHold(bytes, seq(capacity, _ => EMPTY), hashSize, addressSize)
  {
    hide SlotPos, FromBytes;
    var slots := seq(capacity, _ => EMPTY);
    forall i | 0 <= i < capacity ensures HoldsAt(bytes, i, slots[i], hashSize, addressSize) {
      var p := SlotPos(i, hashSize + addressSize);
      SlotsApart(i, capacity, hashSize + addressSize);
      ZerosAreZero(bytes[p..p + hashSize]);
      ZerosAreZero(bytes[p + hashSize..p + hashSize + addressSize]);
    }
  }

  /** One slot overwritten. */
  lemma WriteHolds(bytes: seq<byte>, slots: seq<Slot>, i: nat, s: Slot, hashSize: nat, addressSize: nat)
    requires |bytes| == SlotPos(|slots|, hashSize + addressSize) && i < |slots|
    requires AllHold(bytes, slots, hashSize, addressSize)
    requires s.hash < Pow256(hashSize) && s.addr < Pow256(addressSize)
    requires SlotPos(i, hashSize + addressSize) + hashSize + addressSize <= |bytes|
    ensures var p := SlotPos(i, hashSize + addressSize);
            AllHold(bytes[..p] + (ToBytes(s.hash, hashSize) + ToBytes(s.addr, addressSize)) + bytes[p + hashSize + addressSize..],
                    slots[i := s], hashSize, addressSize)
  {
    hide SlotPos, FromBytes, ToBytes, Pow256;
    var size := hashSize + addressSize;
    var p := SlotPos(i, size);
    var a, b := ToBytes(s.hash, hashSize), ToBytes(s.addr, addressSize);
    var after := bytes[..p] + (a + b) + bytes[p + hashSize + addressSize..];
    LittleEndian.RoundTrip(s.hash, hashSize);
    LittleEndian.RoundTrip(s.addr, addressSize);
    assert after[p..p + hashSize] == a && after[p + hashSize..p + size] == b;
    var slots' := slots[i := s];
    forall j | 0 <= j < |slots| ensures HoldsAt(after, j, slots'[j], hashSize, addressSize) {
      if j != i {
        assert HoldsAt(bytes, j, slots[j], hashSize, addressSize);
        if j < i { SlotsApart(j, i, size); } else { SlotsApart(i, j, size); }
        SameElsewhere(bytes, p, a + b, SlotPos(j, size), SlotPos(j, size) + hashSize);
        SameElsewhere(bytes, p, a + b, SlotPos(j, size) + hashSize, SlotPos(j, size) + size);
      }
    }
  }

  lemma SameElsewhere(bytes: seq<byte>, p: nat, data: seq<byte>, x: nat, y: nat)
    requires p + |data| <= |bytes| && x <= y <= |bytes| && (y <= p || p + |data| <= x)
    ensures (bytes[..p] + data + bytes[p + |data|..])[x..y] == bytes[x..y]
  {
  }

  class SlotArray {
    const capacity: nat
    const hashSize: nat
    const addressSize: nat
    const bytes: array<byte>

    ghost var slots: seq<Slot>

    function SlotSize(): nat {
      hashSize + addressSize
    }

    predicate Sized() {
      bytes.Length == SlotPos(capacity, SlotSize())
    }

    ghost predicate Valid()
      reads this, bytes
    {
      && Sized() && |slots| == capacity
      && AllHold(bytes[..], slots, hashSize, addressSize)
    }

    /** A table of empty slots. */
    constructor (capacity: nat, hashSize: nat, addressSize: nat)
      ensures Valid() && fresh(bytes)
      ensures this.capacity == capacity && this.hashSize == hashSize && this.addressSize == addressSize
      ensures slots == seq(capacity, _ => EMPTY)
    {
      this.capacity, this.hashSize, this.addressSize := capacity, hashSize, addressSize;
      SlotPosIsProduct(capacity, hashSize + addressSize);
      var length := capacity * (hashSize + addressSize);
      bytes := new byte[length](_ => 0);
      slots := seq(capacity, _ => EMPTY);
      new;
      ZerosHold(bytes[..], capacity, hashSize, addressSize);
    }

    method ReadHash(pos: nat, ghost i: nat) returns (hash: nat)
      requires Valid() && i < capacity && pos == SlotPos(i, SlotSize())
      ensures hash == slots[i].hash
    {
      hide SlotPos, FromBytes;
      assert HoldsAt(bytes[..], i, slots[i], hashSize, addressSize);
      hash := FromBytes(bytes[pos..pos + hashSize]);
    }

    method ReadAddr(pos: nat, ghost i: nat) returns (addr: nat)
      requires Valid() && i < capacity && pos == SlotPos(i, SlotSize())
      ensures addr == slots[i].addr
    {
      hide SlotPos, FromBytes;
      assert HoldsAt(bytes[..], i, slots[i], hashSize, addressSize);
      addr := FromBytes(bytes[pos + hashSize..pos + hashSize + addressSize]);
    }

    /** Writes hash and address of slot i; every other slot keeps its content. */
    method Write(pos: nat, hash: nat, addr: nat, ghost i: nat)
      requires Valid() && i < capacity && pos == SlotPos(i, SlotSize())
      requires hash < Pow256(hashSize) && addr < Pow256(addressSize)
      modifies this`slots, bytes
      ensures Valid() && slots == old(slots)[i := Slot(hash, addr)]
    {
      hide SlotPos, FromBytes, ToBytes, Pow256, AllHold;
      SlotsApart(i, capacity, SlotSize());
      var data := ToBytes(hash, hashSize) + ToBytes(addr, addressSize);
      ghost var before := bytes[..];
      forall k | 0 <= k < |data| {
        bytes[pos + k] := data[k];
      }
      assert bytes[..] == before[..pos] + data + before[pos + |data|..];
      WriteHolds(before, slots, i, Slot(hash, addr), hashSize, addressSize);
      slots := slots[i := Slot(hash, addr)];
    }
  }
}
