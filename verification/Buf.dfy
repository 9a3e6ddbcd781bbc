/** Output buffering. */
module Buf {
  import opened Vlq
  import opened LogFormat

  /** A file open for writing: what is before the position at which it is written, and what was left
      behind that position. */
  class File {
    var contents: Bytes
    var behind: Bytes

    constructor (contents: Bytes)
      ensures this.contents == contents && behind == []
    {
      this.contents, behind := contents, [];
    }

    /** All bytes of the file. */
    function All(): Bytes
      reads this
    {
      contents + behind
    }

    method Write(data: Bytes)
      modifies this
      ensures contents == old(contents) + data
      ensures behind == if |data| <= |old(behind)| then old(behind)[|data|..] else []
    {
      contents := contents + data;
      behind := if |data| <= |behind| then behind[|data|..] else [];
    }

    /** Rewrites the start of the file, and returns to the position. */
    method WriteAtStart(data: Bytes)
      requires |data| <= |contents|
      modifies this`contents
      ensures contents == data + old(contents)[|data|..]
    {
      contents := data + contents[|data|..];
    }

    method Seek(position: nat)
      requires position <= |All()|
      modifies this
      ensures contents == old(All())[..position] && behind == old(All())[position..]
      ensures All() == old(All())
    {
      var all := All();
      contents, behind := all[..position], all[position..];
    }
  }

  /** A number of whole buffers. */
  predicate Whole(n: int, size: nat)
    decreases n
  {
    n == 0 || (size > 0 && n >= size && Whole(n - size, size))
  }

  /** A block of memory filled from the start; `cur` bytes are in use. */
  class Buffer {
    const start: array<byte>
    var cur: nat

    constructor (size: nat)
      ensures Valid() && fresh(start) && start.Length == size && Used() == []
    {
      start := new byte[size];
      cur := 0;
    }

    ghost predicate Valid()
      reads this
    {
      cur <= start.Length
    }

    function Used(): (s: Bytes)
      reads this, start
      requires Valid()
      ensures |s| == cur
    {
      start[..cur]
    }

    function Remaining(): nat
      reads this
      requires Valid()
    {
      start.Length - cur
    }

    /** memcpy behind what is in use. */
    method Copy(data: Bytes)
      requires Valid() && |data| <= Remaining()
      modifies this, start
      ensures Valid() && Used() == old(Used()) + data
    {
      forall k | 0 <= k < |data| {
        start[cur + k] := data[k];
      }
      cur := cur + |data|;
    }

    method Clear()
      requires Valid()
      modifies this`cur
      ensures Valid() && Used() == []
    {
      cur := 0;
    }

    method FlushFile(file: File)
      requires Valid()
      modifies this`cur, file
      ensures Valid() && Used() == [] && file.contents == old(file.contents) + old(Used())
    {
      file.Write(Used());
      cur := 0;
    }

    method FillUp(file: File, piece: Bytes)
      requires Valid() && |piece| == Remaining()
      modifies this, start, file
      ensures Valid() && Used() == [] && file.contents == old(file.contents) + old(Used()) + piece
      ensures |file.contents| == |old(file.contents)| + start.Length
    {
      Copy(piece);
      FlushFile(file);
    }

    /** The file followed by the buffer grows by exactly the data, however often it overflows. */
    method Add(file: File, data: Bytes)
      requires Valid() && start.Length > 0
      modifies this, start, file
      ensures Valid() && file.contents + Used() == old(file.contents) + old(Used()) + data
      ensures old(file.contents) <= file.contents
      ensures |data| <= old(Remaining()) ==> unchanged(file)
      ensures |data| > old(Remaining()) ==>
        cur > 0 && |file.contents| > |old(file.contents)| && Whole(|file.contents| - |old(file.contents)|, start.Length)
    {
      var rest := data;
      ghost var flushed := false;
      while true
        invariant !flushed ==> rest == data && cur == old(cur) && unchanged(file)
        invariant flushed ==> rest != [] && cur == 0 && |data| > old(Remaining()) && |file.contents| > |old(file.contents)|
        invariant Whole(|file.contents| - |old(file.contents)|, start.Length)
        invariant Valid() && file.contents + Used() + rest == old(file.contents) + old(Used()) + data
        invariant old(file.contents) <= file.contents
        decreases cur + |rest|, |rest|
      {
        var remaining := Remaining();
        if remaining >= |rest| {
          Copy(rest);
          return;
        }
        assert rest == rest[..remaining] + rest[remaining..];
        FillUp(file, rest[..remaining]);
        rest, flushed := rest[remaining..], true;
      }
    }
  }
}
