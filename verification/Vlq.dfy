/** Variable length quantities: seven bits a byte, least significant first, the high bit set on
    all bytes but the last. */
module Vlq {

  type byte = x: int | 0 <= x < 0x100

  const TWO_63: nat := 0x8000_0000_0000_0000
  const TWO_64: nat := 0x1_0000_0000_0000_0000

  function Encode(v: nat): (s: seq<byte>)
    ensures |s| > 0
  {
    if v < 0x80 then [v] else [v % 0x80 + 0x80] + Encode(v / 0x80)
  }

  /** A last byte, one without the high bit, is in sight. */
  predicate Terminated(s: seq<byte>) {
    s != [] && (s[0] >= 0x80 ==> Terminated(s[1..]))
  }

  /** The value at the front of s and the number of bytes it takes. */
  function Decode(s: seq<byte>): (r: (nat, nat))
    requires Terminated(s)
    ensures 0 < r.1 <= |s|
  {
    if s[0] < 0x80 then (s[0], 1)
    else var (v, n) := Decode(s[1..]); (s[0] - 0x80 + 0x80 * v, n + 1)
  }

  /** What is encoded is read back, and reading stops right behind it. */
  lemma {:induction false} RoundTrip(v: nat, rest: seq<byte>)
    ensures Terminated(Encode(v) + rest)
    ensures Decode(Encode(v) + rest) == (v, |Encode(v)|)
  {
    var s := Encode(v) + rest;
    if v >= 0x80 {
      assert s[1..] == Encode(v / 0x80) + rest;
      RoundTrip(v / 0x80, rest);
    }
  }

  /** The size of an encoded value by comparison with powers of two: 1 up to 2^7, ..., 10 from 2^63. */
  function Size(v: nat): nat {
    if v < 0x80 then 1
    else if v < 0x4000 then 2
    else if v < 0x20_0000 then 3
    else if v < 0x1000_0000 then 4
    else if v < 0x8_0000_0000 then 5
    else if v < 0x400_0000_0000 then 6
    else if v < 0x2_0000_0000_0000 then 7
    else if v < 0x100_0000_0000_0000 then 8
    else if v < 0x8000_0000_0000_0000 then 9
    else 10
  }

  lemma {:induction false} SizeIsLength(v: nat)
    requires v < TWO_64
    ensures |Encode(v)| == Size(v) <= 10
  {
    if v >= 0x80 {
      SizeIsLength(v / 0x80);
    }
  }

  method Write(buf: array<byte>, value: nat) returns (count: nat)
    requires buf.Length == 10 && value < TWO_64
    modifies buf
    ensures count <= 10 && buf[..count] == Encode(value)
  {
    SizeIsLength(value);
    var v: nat := value;
    count := 1;
    while v >= 0x80
      invariant v < TWO_64
      invariant count - 1 + |Encode(v)| == |Encode(value)| <= 10
      invariant 1 <= count <= 10
      invariant buf[..count - 1] + Encode(v) == Encode(value)
      decreases v
    {
      ghost var before, e := buf[..count - 1], Encode(v);
      assert e == [v % 0x80 + 0x80] + Encode(v / 0x80);
      buf[count - 1] := v % 0x80 + 0x80;
      v := v / 0x80;
      count := count + 1;
      assert buf[..count - 1] == before + [e[0]];
      assert buf[..count - 1] + Encode(v) == before + e;
    }
    buf[count - 1] := v;
    assert buf[..count] == buf[..count - 1] + [v];
  }

  lemma Distribute(x: nat, y: nat, z: nat)
    ensures x * (y + z) == x * y + x * z
  {
  }

  lemma Swap(x: nat, y: nat, z: nat)
    ensures x * y == y * x && x * (y * z) == x * y * z
  {
  }

  lemma ShiftedIn(res: nat, scale: nat, digit: nat, high: nat)
    requires res < scale && digit < 0x80
    ensures res + digit * scale < scale * 0x80
    ensures res + scale * (digit + 0x80 * high) == res + digit * scale + scale * 0x80 * high
  {
    Distribute(scale, digit, 0x80 * high);
    Swap(scale, digit, 0);
    Swap(scale, 0x80, high);
    Distribute(scale, digit, 0x7f - digit);
  }

  /** Halfway: the bytes from `position` to p have been read into res. */
  ghost predicate ReadUpTo(data: seq<byte>, position: nat, p: nat, res: int, scale: int) {
    && position <= p <= |data| && 0 <= res < scale
    && Terminated(data[position..]) && Terminated(data[p..])
    && var all, rest := Decode(data[position..]), Decode(data[p..]);
    all.0 == res + scale * rest.0 && all.1 == p - position + rest.1
  }

  lemma ReadNothing(data: seq<byte>, position: nat)
    requires position <= |data| && Terminated(data[position..])
    ensures ReadUpTo(data, position, position, 0, 1)
  {
  }

  lemma DecodeAt(data: seq<byte>, p: nat)
    requires p <= |data| && Terminated(data[p..])
    ensures p < |data|
    ensures data[p] < 0x80 ==> Decode(data[p..]) == (data[p] as nat, 1)
    ensures data[p] >= 0x80 ==> Terminated(data[p + 1..]) && var rest := Decode(data[p + 1..]);
              Decode(data[p..]) == (data[p] - 0x80 + 0x80 * rest.0, 1 + rest.1)
  {
    assert data[p..][1..] == data[p + 1..];
  }

  lemma ReadMore(data: seq<byte>, position: nat, p: nat, res: int, scale: int)
    requires ReadUpTo(data, position, p, res, scale)
    ensures p < |data|
    ensures data[p] < 0x80 ==>
      Decode(data[position..]) == (res + data[p] * scale, p + 1 - position)
    ensures data[p] >= 0x80 ==>
      ReadUpTo(data, position, p + 1, res + (data[p] - 0x80) * scale, scale * 0x80)
  {
    hide Decode, Terminated;
    DecodeAt(data, p);
    if data[p] >= 0x80 {
      ShiftedIn(res, scale, data[p] - 0x80, Decode(data[p + 1..]).0);
    } else {
      Swap(scale, data[p], 0);
    }
  }

  /** `res` collects the low bits and `scale` is the power of two the next byte is shifted by, so
      the bits that are or-ed together never overlap and `|` is `+`. */
  method Read(data: seq<byte>, position: nat) returns (value: nat, newPosition: nat)
    requires position <= |data| && Terminated(data[position..])
    requires Decode(data[position..]).0 < TWO_64
    ensures value == Decode(data[position..]).0
    ensures newPosition == position + Decode(data[position..]).1 <= |data|
  {
    hide ReadUpTo, Decode, Terminated;
    var res: int, scale: int := 0, 1;
    newPosition := position;
    ReadNothing(data, position);
    while true
      invariant ReadUpTo(data, position, newPosition, res, scale)
      decreases |data| - newPosition
    {
      ReadMore(data, position, newPosition, res, scale);
      var tmp: int := data[newPosition];
      newPosition := newPosition + 1;
      if tmp < 0x80 {
        value := res + tmp * scale;
        return;
      }
      res := res + (tmp - 0x80) * scale;
      scale := scale * 0x80;
    }
  }
}
