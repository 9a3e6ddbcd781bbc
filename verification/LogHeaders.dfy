/** The header of the log file. */
module LogHeaders {
  import opened LogFormat
  import opened LittleEndian

  const MAGIC: nat := 0x49b39c95
  const MAJOR: nat := 1
  const MINOR: nat := 0
  const MAX_TYPE: nat := 2

  datatype LogHeader = LogHeader(
    fileIdentifier: nat, numPuts: nat, numDeletes: nat, dataEnd: nat, maxKeyLen: nat, maxValueLen: nat,
    deleteSize: nat, compressionType: nat, blockSize: nat, putSize: nat, maxEntriesPerBlock: nat)

  datatype LoadResult = Loaded(header: LogHeader) | UnexpectedEof | WrongMagic | WrongMajor | UnsupportedMinor | Corrupt

  const WIDTHS: seq<nat> := [4, 4, 4, 4, 8, 8, 8, 8, 8, 8, 4, 4, 8, 4]

  function Values(h: LogHeader): (v: seq<nat>)
    ensures |v| == |WIDTHS|
  {
    [MAGIC, MAJOR, MINOR, h.fileIdentifier, h.numPuts, h.numDeletes, h.dataEnd, h.maxKeyLen, h.maxValueLen,
     h.deleteSize, h.compressionType, h.blockSize, h.putSize, h.maxEntriesPerBlock]
  }

  /** Every field fits its width. */
  predicate Representable(h: LogHeader) {
    Fit(Values(h), WIDTHS)
  }

  lemma HeaderSize()
    ensures Total(WIDTHS) == LOG_HEADER_SIZE
  {
    hide Total;
    TotalOfTwo(4, 4);
    TotalOfTwo(8, 8);
    TotalOfTwo(8, 4);
    TotalAppend([4, 4], [4, 4]);
    TotalAppend([8, 8], [8, 8]);
    TotalAppend([8, 8] + [8, 8], [8, 8]);
    TotalAppend([4, 4], [8, 4]);
    TotalAppend([4, 4] + [4, 4], ([8, 8] + [8, 8]) + [8, 8]);
    TotalAppend(([4, 4] + [4, 4]) + (([8, 8] + [8, 8]) + [8, 8]), [4, 4] + [8, 4]);
    assert WIDTHS == (([4, 4] + [4, 4]) + (([8, 8] + [8, 8]) + [8, 8])) + ([4, 4] + [8, 4]);
  }

  function WriteLogHeader(h: LogHeader): (s: Bytes)
    ensures |s| == LOG_HEADER_SIZE
  {
    HeaderSize();
    WriteRecord(Values(h), WIDTHS)
  }

  /** Basic consistency checks on loading. */
  predicate Plausible(h: LogHeader) {
    && h.dataEnd >= LOG_HEADER_SIZE && h.numPuts <= h.dataEnd && h.numDeletes <= h.dataEnd
    && h.compressionType <= MAX_TYPE
  }

  function LoadLogHeader(file: Bytes): LoadResult {
    if |file| < LOG_HEADER_SIZE then UnexpectedEof
    else
      HeaderSize();
      var v := ReadRecord(file, WIDTHS);
      if v[0] != MAGIC then WrongMagic
      else if v[1] != MAJOR then WrongMajor
      else if v[2] > MINOR then UnsupportedMinor
      else
        var h := LogHeader(v[3], v[4], v[5], v[6], v[7], v[8], v[9], v[10], v[11], v[12], v[13]);
        if Plausible(h) then Loaded(h) else Corrupt
  }

  /** A written header is loaded back exactly when it passes the checks. */
  lemma LoadWritten(h: LogHeader, rest: Bytes)
    requires Representable(h)
    ensures LoadLogHeader(WriteLogHeader(h) + rest) == if Plausible(h) then Loaded(h) else Corrupt
  {
    hide Total, WriteRecord, ReadRecord;
    HeaderSize();
    RecordRoundTrip(Values(h), WIDTHS, rest);
  }

  // ---- Where the fields are ----

  const OFFSETS: seq<nat> := [0, 4, 8, 12, 16, 24, 32, 40, 48, 56, 64, 68, 72, 80]

  lemma {:induction false} OffsetsAre(k: nat)
    requires k < |WIDTHS|
    ensures FieldOffset(WIDTHS, k) == OFFSETS[k]
  {
    if k > 0 {
      OffsetsAre(k - 1);
    }
  }

  /** Each field of the header at its place in the file. */
  lemma HeaderBytes(h: LogHeader)
    ensures var s := WriteLogHeader(h);
      && s[0..4] == [0x95, 0x9c, 0xb3, 0x49] && s[4..8] == [1, 0, 0, 0] && s[8..12] == [0, 0, 0, 0]
      && s[12..16] == ToBytes(h.fileIdentifier, 4) && s[16..24] == ToBytes(h.numPuts, 8)
      && s[24..32] == ToBytes(h.numDeletes, 8) && s[32..40] == ToBytes(h.dataEnd, 8)
      && s[40..48] == ToBytes(h.maxKeyLen, 8) && s[48..56] == ToBytes(h.maxValueLen, 8)
      && s[56..64] == ToBytes(h.deleteSize, 8) && s[64..68] == ToBytes(h.compressionType, 4)
      && s[68..72] == ToBytes(h.blockSize, 4) && s[72..80] == ToBytes(h.putSize, 8)
      && s[80..84] == ToBytes(h.maxEntriesPerBlock, 4)
  {
    hide WriteLogHeader, ToBytes;
    ConstantBytes();
    FieldHere(h, 0);
    FieldHere(h, 1);
    FieldHere(h, 2);
    FieldHere(h, 3);
    FieldHere(h, 4);
    FieldHere(h, 5);
    FieldHere(h, 6);
    FieldHere(h, 7);
    FieldHere(h, 8);
    FieldHere(h, 9);
    FieldHere(h, 10);
    FieldHere(h, 11);
    FieldHere(h, 12);
    FieldHere(h, 13);
  }

  lemma FieldHere(h: LogHeader, k: nat)
    requires k < |WIDTHS|
    ensures var at := OFFSETS[k];
            at + WIDTHS[k] <= |WriteLogHeader(h)| && WriteLogHeader(h)[at..at + WIDTHS[k]] == ToBytes(Values(h)[k], WIDTHS[k])
  {
    hide Total, WriteRecord, FieldOffset, ToBytes;
    HeaderSize();
    OffsetsAre(k);
    FieldAt(Values(h), WIDTHS, k);
  }

  lemma ConstantBytes()
    ensures ToBytes(MAGIC, 4) == [0x95, 0x9c, 0xb3, 0x49] && ToBytes(MAJOR, 4) == [1, 0, 0, 0]
    ensures ToBytes(MINOR, 4) == [0, 0, 0, 0]
  {
  }

  /** What loading makes of any file: each field is read from its place, and the checks are made in this order. */
  lemma LoadsByOffset(file: Bytes)
    ensures LoadLogHeader(file) ==
      if |file| < 84 then UnexpectedEof
      else if FromBytes(file[0..4]) != 0x49b39c95 then WrongMagic
      else if FromBytes(file[4..8]) != 1 then WrongMajor
      else if FromBytes(file[8..12]) > 0 then UnsupportedMinor
      else var h := LogHeader(
        FromBytes(file[12..16]), FromBytes(file[16..24]), FromBytes(file[24..32]), FromBytes(file[32..40]),
        FromBytes(file[40..48]), FromBytes(file[48..56]), FromBytes(file[56..64]), FromBytes(file[64..68]),
        FromBytes(file[68..72]), FromBytes(file[72..80]), FromBytes(file[80..84]));
        if 84 <= h.dataEnd && Larger(h.numPuts, h.numDeletes) <= h.dataEnd && h.compressionType <= 2
        then Loaded(h) else Corrupt
  {
    hide Total, ReadRecord, FieldOffset, FromBytes;
    HeaderSize();
    if |file| >= LOG_HEADER_SIZE {
      forall k | 0 <= k < |WIDTHS|
        ensures ReadRecord(file, WIDTHS)[k] == FromBytes(file[OFFSETS[k]..OFFSETS[k] + WIDTHS[k]])
      {
        OffsetsAre(k);
        FieldRead(file, WIDTHS, k);
      }
    }
  }

  // ---- What comes back ----

  /** Whatever is loaded fits the fields. */
  lemma LoadedFits(file: Bytes, h: LogHeader)
    requires LoadLogHeader(file) == Loaded(h)
    ensures Representable(h) && Plausible(h)
  {
    hide Total, ReadRecord, Fit, Plausible;
    HeaderSize();
    ReadsFit(file, WIDTHS);
    assert ReadRecord(file, WIDTHS) == Values(h);
  }

  /** What is loaded is what was written exactly if every field fits its width and the header passes the checks;
      the source checks only the latter, and only when loading. */
  lemma LoadsBackIff(h: LogHeader, rest: Bytes)
    ensures LoadLogHeader(WriteLogHeader(h) + rest) == Loaded(h) <==> Representable(h) && Plausible(h)
  {
    hide WriteLogHeader, LoadLogHeader, Representable, Plausible;
    var file := WriteLogHeader(h) + rest;
    if Representable(h) {
      LoadWritten(h, rest);
    } else if LoadLogHeader(file) == Loaded(h) {
      LoadedFits(file, h);
    }
  }
}
