/** Numbers as little endian bytes. */
module LittleEndian {
  import opened Vlq

  function Pow256(width: nat): (p: nat)
    ensures p > 0
  {
    if width == 0 then 1 else 0x100 * Pow256(width - 1)
  }

  lemma Widths()
    ensures Pow256(4) == 0x1_0000_0000 && Pow256(8) == TWO_64
  {
    assert Pow256(4) == 0x100 * Pow256(3) == 0x100 * (0x100 * Pow256(2)) == 0x1_0000_0000;
    assert Pow256(8) == 0x100 * Pow256(7) == 0x1_0000 * Pow256(6) == 0x100_0000 * Pow256(5) == TWO_64;
  }

  /** The low `width` bytes of n. */
  function ToBytes(n: nat, width: nat): (s: seq<byte>)
    ensures |s| == width
  {
    if width == 0 then [] else [n % 0x100] + ToBytes(n / 0x100, width - 1)
  }

  function FromBytes(s: seq<byte>): nat {
    if s == [] then 0 else s[0] + 0x100 * FromBytes(s[1..])
  }

  lemma {:induction false} RoundTrip(n: nat, width: nat)
    ensures n < Pow256(width) ==> FromBytes(ToBytes(n, width)) == n
    ensures FromBytes(ToBytes(n, width)) < Pow256(width)
  {
    if width > 0 {
      RoundTrip(n / 0x100, width - 1);
      assert ToBytes(n, width)[1..] == ToBytes(n / 0x100, width - 1);
    }
  }

  lemma {:induction false} ZerosAreZero(s: seq<byte>)
    requires forall k :: 0 <= k < |s| ==> s[k] == 0
    ensures FromBytes(s) == 0
  {
    if s != [] {
      ZerosAreZero(s[1..]);
    }
  }

  // ---- Records: numbers of given widths, one after the other ----

  predicate Fit(values: seq<nat>, widths: seq<nat>) {
    |values| == |widths| && forall k :: 0 <= k < |values| ==> values[k] < Pow256(widths[k])
  }

  function Total(widths: seq<nat>): nat {
    if widths == [] then 0 else widths[0] + Total(widths[1..])
  }

  lemma {:induction false} TotalAppend(a: seq<nat>, b: seq<nat>)
    ensures Total(a + b) == Total(a) + Total(b)
  {
    if a == [] {
      assert a + b == b;
    } else {
      assert (a + b)[1..] == a[1..] + b;
      TotalAppend(a[1..], b);
    }
  }

  lemma TotalOfTwo(a: nat, b: nat)
    ensures Total([a, b]) == a + b
  {
    assert [a, b] == [a] + [b];
    TotalAppend([a], [b]);
  }

  function WriteRecord(values: seq<nat>, widths: seq<nat>): (s: seq<byte>)
    requires |values| == |widths|
    ensures |s| == Total(widths)
  {
    if values == [] then [] else ToBytes(values[0], widths[0]) + WriteRecord(values[1..], widths[1..])
  }

  function ReadRecord(s: seq<byte>, widths: seq<nat>): (values: seq<nat>)
    requires |s| >= Total(widths)
    ensures |values| == |widths|
  {
    if widths == [] then [] else [FromBytes(s[..widths[0]])] + ReadRecord(s[widths[0]..], widths[1..])
  }

  lemma {:induction false} RecordRoundTrip(values: seq<nat>, widths: seq<nat>, rest: seq<byte>)
    requires Fit(values, widths)
    ensures ReadRecord(WriteRecord(values, widths) + rest, widths) == values
  {
    hide Pow256, ToBytes, FromBytes;
    if values != [] {
      var a, b := ToBytes(values[0], widths[0]), WriteRecord(values[1..], widths[1..]);
      var s := WriteRecord(values, widths) + rest;
      assert s == a + (b + rest);
      assert s[..widths[0]] == a && s[widths[0]..] == b + rest;
      RoundTrip(values[0], widths[0]);
      RecordRoundTrip(values[1..], widths[1..], rest);
    }
  }

  /** Where field k of a record starts. */
  function FieldOffset(widths: seq<nat>, k: nat): nat
    requires k <= |widths|
  {
    if k == 0 then 0 else FieldOffset(widths, k - 1) + widths[k - 1]
  }

  lemma {:induction false} FieldOffsetTail(widths: seq<nat>, k: nat)
    requires 0 < k <= |widths|
    ensures FieldOffset(widths, k) == widths[0] + FieldOffset(widths[1..], k - 1)
  {
    if k > 1 {
      FieldOffsetTail(widths, k - 1);
    }
  }

  /** Each field of a record is found at its offset. */
  lemma {:induction false} FieldAt(values: seq<nat>, widths: seq<nat>, k: nat)
    requires |values| == |widths| && k < |widths|
    ensures var at := FieldOffset(widths, k);
            at + widths[k] <= Total(widths)
            && WriteRecord(values, widths)[at..at + widths[k]] == ToBytes(values[k], widths[k])
  {
    hide ToBytes;
    if k > 0 {
      FieldOffsetTail(widths, k);
      FieldAt(values[1..], widths[1..], k - 1);
    }
  }

  lemma {:induction false} FieldRead(s: seq<byte>, widths: seq<nat>, k: nat)
    requires |s| >= Total(widths) && k < |widths|
    ensures var at := FieldOffset(widths, k);
            at + widths[k] <= |s| && ReadRecord(s, widths)[k] == FromBytes(s[at..at + widths[k]])
  {
    hide FromBytes;
    if k > 0 {
      FieldOffsetTail(widths, k);
      FieldRead(s[widths[0]..], widths[1..], k - 1);
      var at := FieldOffset(widths, k);
      assert s[widths[0]..][at - widths[0]..at - widths[0] + widths[k]] == s[at..at + widths[k]];
    }
  }

  lemma {:induction false} BytesBound(s: seq<byte>)
    ensures FromBytes(s) < Pow256(|s|)
  {
    if s != [] {
      BytesBound(s[1..]);
    }
  }

  /** Whatever is read fits. */
  lemma {:induction false} ReadsFit(s: seq<byte>, widths: seq<nat>)
    requires |s| >= Total(widths)
    ensures Fit(ReadRecord(s, widths), widths)
  {
    hide Pow256, FromBytes;
    if widths != [] {
      ReadsFit(s[widths[0]..], widths[1..]);
      BytesBound(s[..widths[0]]);
      var values := ReadRecord(s, widths);
      forall k | 0 <= k < |values| ensures values[k] < Pow256(widths[k]) {
        if k > 0 {
          assert values[k] == values[1..][k - 1] && widths[k] == widths[1..][k - 1];
        }
      }
    }
  }
}
