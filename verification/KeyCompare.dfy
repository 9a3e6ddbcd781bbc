/** Comparing and hashing keys that may be split over blocks. */
module KeyCompare {
  import opened Vlq
  import opened LogFormat
  import opened LogReader

  /** Lexicographic comparison of byte strings: negative, zero or positive. */
  function Compare(a: Bytes, b: Bytes): int {
    if a == [] then (if b == [] then 0 else -1)
    else if b == [] then 1
    else if a[0] < b[0] then -1
    else if a[0] > b[0] then 1
    else Compare(a[1..], b[1..])
  }

  /** a is a proper prefix of b, or is smaller at the first position where they differ. */
  ghost predicate LexLess(a: Bytes, b: Bytes) {
    exists k: nat :: LessAt(a, b, k)
  }

  lemma {:induction false} CompareIsLex(a: Bytes, b: Bytes)
    ensures Compare(a, b) < 0 <==> LexLess(a, b)
    ensures Compare(a, b) == 0 <==> a == b
    ensures Compare(b, a) == -Compare(a, b)
  {
    if a == [] {
      if b != [] { assert LessAt(a, b, 0); }
    } else if b != [] {
      if a[0] < b[0] {
        assert LessAt(a, b, 0);
      } else if a[0] > b[0] {
        if k: nat :| LessAt(a, b, k) {
          assert k == 0 || a[..k][0] == b[..k][0];
        }
      } else {
        CompareIsLex(a[1..], b[1..]);
        LexTail(a, b);
        assert a == [a[0]] + a[1..] && b == [b[0]] + b[1..];
      }
    }
  }

  /** b is larger than a from position k on, where they first differ. */
  ghost predicate LessAt(a: Bytes, b: Bytes, k: nat) {
    k <= |a| && k <= |b| && a[..k] == b[..k] && if k < |a| then k < |b| && a[k] < b[k] else k < |b|
  }

  lemma LexTail(a: Bytes, b: Bytes)
    requires a != [] && b != [] && a[0] == b[0]
    ensures LexLess(a, b) <==> LexLess(a[1..], b[1..])
  {
    if k: nat :| LessAt(a, b, k) {
      assert a[1..][..k - 1] == a[..k][1..] && b[1..][..k - 1] == b[..k][1..];
      assert LessAt(a[1..], b[1..], k - 1);
    }
    if k: nat :| LessAt(a[1..], b[1..], k) {
      assert a[..k + 1] == [a[0]] + a[1..][..k] && b[..k + 1] == [b[0]] + b[1..][..k];
      assert LessAt(a, b, k + 1);
    }
  }

  /** Equally long beginnings can be compared on their own. */
  lemma {:induction false} CompareSplit(a: Bytes, b: Bytes, x: Bytes, y: Bytes)
    requires |a| == |b|
    ensures Compare(a + x, b + y) == if Compare(a, b) != 0 then Compare(a, b) else Compare(x, y)
    decreases |a|
  {
    if a == [] {
      assert a + x == x && b + y == y;
    } else {
      assert (a + x)[1..] == a[1..] + x && (b + y)[1..] == b[1..] + y;
      CompareSplit(a[1..], b[1..], x, y);
    }
  }

  const CHUNK: nat := 0x4000_0000

  /** Compares what is left of two keys; the C library's memcmp on equally long stretches is `Compare`. */
  method KeyCmp(iter1: LogIter, iter2: LogIter) returns (rc: ReturnCode, res: int)
    requires iter1 != iter2 && iter1.Valid() && iter2.Valid()
    modifies iter1, iter2
    ensures iter1.Valid() && iter1.state == old(iter1.state)
    ensures iter2.Valid() && iter2.state == old(iter2.state)
    ensures rc == Success <==> iter1.state == Active && iter2.state == Active
    ensures iter1.state == Active ==> iter1.Here() == old(iter1.Here()) && iter1.valueRemaining == old(iter1.valueRemaining)
    ensures iter2.state == Active ==> iter2.Here() == old(iter2.Here()) && iter2.valueRemaining == old(iter2.valueRemaining)
    ensures rc == Success ==> res == Compare(old(iter1.KeyRest()), old(iter2.KeyRest()))
    ensures rc == Success && res == 0 ==> iter1.keyRemaining == 0 && iter2.keyRemaining == 0
  {
    hide Compare, LogIter.Consistent, LogIter.AtEntry, LogIter.KeyRest;
    var first, second;
    res := 0;
    rc, first := iter1.KeyChunk(CHUNK);
    if rc != Success { return; }
    rc, second := iter2.KeyChunk(CHUNK);
    if rc != Success { return; }
    while true
      invariant iter1.Valid() && iter1.state == Active == old(iter1.state)
      invariant iter2.Valid() && iter2.state == Active == old(iter2.state)
      invariant iter1.Here() == old(iter1.Here()) && iter1.valueRemaining == old(iter1.valueRemaining)
      invariant iter2.Here() == old(iter2.Here()) && iter2.valueRemaining == old(iter2.valueRemaining)
      invariant rc == Success
      invariant first == [] ==> iter1.keyRemaining == 0
      invariant second == [] ==> iter2.keyRemaining == 0
      invariant Compare(first + iter1.KeyRest(), second + iter2.KeyRest())
             == Compare(old(iter1.KeyRest()), old(iter2.KeyRest()))
      decreases |first| + iter1.keyRemaining + |second| + iter2.keyRemaining
    {
      ghost var rest1, rest2 := iter1.KeyRest(), iter2.KeyRest();
      OneSideDone(first + rest1, second + rest2);
      if first == [] && second == [] {
        return Success, 0;
      }
      if first == [] {
        return Success, -1;
      }
      if second == [] {
        return Success, 1;
      }
      var n := Min(|first|, |second|);
      var v := Compare(first[..n], second[..n]);
      assert first + rest1 == first[..n] + (first[n..] + rest1);
      assert second + rest2 == second[..n] + (second[n..] + rest2);
      CompareSplit(first[..n], second[..n], first[n..] + rest1, second[n..] + rest2);
      if v != 0 {
        return Success, v;
      }
      first, second := first[n..], second[n..];
      if first == [] {
        rc, first := iter1.KeyChunk(CHUNK);
        assert [] + rest1 == first + iter1.KeyRest();
      }
      if second == [] {
        rc, second := iter2.KeyChunk(CHUNK);
        assert [] + rest2 == second + iter2.KeyRest();
      }
    }
  }

  lemma OneSideDone(x: Bytes, y: Bytes)
    ensures x == [] && y == [] ==> Compare(x, y) == 0
    ensures x == [] && y != [] ==> Compare(x, y) == -1
    ensures x != [] && y == [] ==> Compare(x, y) == 1
  {
  }

  /** 1 << 31 as the C compiler widens it to 64 bits. */
  const LARGE: nat := 0xFFFF_FFFF_8000_0000

  /** The hash of the current entry's key, copied together when a block boundary splits it; 0 when
      it cannot be read from its start. */
  method IterHash(hash: Bytes -> nat, iter: LogIter) returns (h: nat)
    requires iter.Valid()
    modifies iter
    ensures iter.Valid() && iter.state == old(iter.state)
    ensures iter.state == Active ==> iter.Here() == old(iter.Here()) && iter.valueRemaining == old(iter.valueRemaining)
    ensures h == if old(iter.state == Active && iter.keyRemaining == iter.keylen)
                 then hash(old(iter.KeyRest())) else 0
    ensures old(iter.state == Active && iter.keyRemaining == iter.keylen) ==> iter.keyRemaining == 0
  {
    hide LogIter.KeyRest, LogIter.Consistent, LogIter.AtEntry, Filled;
    if iter.state == Active {
      KeyShorterThan(iter);
    }
    var rc, piece := iter.KeyChunk(LARGE);
    if rc != Success {
      return 0;
    }
    ghost var rest := iter.KeyRest();
    if |piece| == iter.keylen {
      assert piece + rest == piece;
      return hash(piece);
    }
    var keybuf := new byte[iter.keylen];
    CopyInto(keybuf, 0, piece);
    assert keybuf[..|piece|] == piece;
    var len2;
    ghost var base := keybuf[..];
    rc, len2 := iter.FillKey(LARGE, keybuf, |piece|);
    if |piece| + len2 != iter.keylen {
      return 0;
    }
    FilledWhole(base, piece, rest);
    return hash(keybuf[..]);
  }

  lemma FilledWhole(base: Bytes, piece: Bytes, rest: Bytes)
    requires |base| == |piece| + |rest| && base[..|piece|] == piece
    ensures Filled(base, |piece|, rest, |rest|) == piece + rest
  {
  }

  lemma KeyShorterThan(iter: LogIter)
    requires iter.Valid() && iter.state == Active
    ensures iter.keyRemaining <= iter.keylen < LARGE
  {
    EntryFits(iter.log, iter.gs, iter.g, iter.i);
  }
}
