# Sparkey: the log, the index, and what they promise

Sparkey stores key/value data in two files. The log file is appended to by a writer: puts and deletes, framed
with variable length numbers and, if compression is chosen, cut into compressed blocks. The index file is a
hash table of fixed size slots pointing into the log, built by replaying the log, either from scratch or from an
older index and what was appended since. This project models both files down to their bytes, the writer, the
iterator, the index builder and the index reader, and proves that they agree with one simple map: the log folded
from its first entry to its last.

`dafny verify dfyconfig.toml` checks everything.

## How it is arranged

| file | what it holds |
|---|---|
| `Vlq.dfy`, `LittleEndian.dfy` | variable length numbers; fixed width numbers and records |
| `LogFormat.dfy` | entries, blocks, groups of blocks, positions in the file |
| `Buf.dfy`, `LogHeaders.dfy`, `LogWriter.dfy`, `LogFiles.dfy` | output buffer, log header, the writer, creating and opening |
| `LogReader.dfy`, `KeyCompare.dfy` | the iterator; comparing and hashing keys that blocks may split |
| `RobinHood.dfy`, `TotalDisplacement.dfy` | what is true of table layouts, apart from what the slots contain |
| `SlotArrays.dfy`, `HashTables.dfy`, `HashStats.dfy`, `HashHeaders.dfy` | the table as bytes, put and delete, statistics, index header |
| `Liveness.dfy`, `Index.dfy` | which puts of a log are live; when a table is an index of them |
| `Sizing.dfy`, `HashWriter.dfy`, `HashBuilder.dfy` | sizes, replaying a log, writing an index |
| `HashReader.dfy` | lookup and iteration with an index |
| `PutSteps.dfy`, `ReplaySteps.dfy`, `IndexLaws.dfy` | when a put ends, when a whole replay ends; what all indexes of a log have in common |
| `LogRuns.dfy` | runs of the writer: any operations in any sittings, and the file they make |
| `SystemRuns.dfy` | whole sessions, from operations to answers |

Three ideas carry the proofs.

* A *group* is the run of entries that start in one block, with the blocks they fill. The log after its header is
  the image of a sequence of groups (`IsLog`), and an entry is named by its *place*: group and index. Appending to
  a log appends groups, so places, positions and addresses of old entries never change.
* A *layout* is the table with only the wanted slot of each resident left. Everything Robin Hood hashing promises
  is a property of layouts whose residents are ordered by displacement around the circle and of which at least one
  slot is *settled*: free, or held by a resident in its wanted slot.
* `LiveAt` gives the live put of each key before a place of the log. A table is an *index* of a log (`IsIndex`) when
  its used slots are those of the live puts, each once, and its header tells the truth. Every build keeps this.

The hash function, its seed and the compressor are parameters: everything holds for any function from keys to
numbers of the right width, and for any compressor whose output can be undone. A file is a byte sequence.

## Results that are not plain confirmations

* **Changing the hash size may hang the builder.** With an index at hand whose hashes have another size, the builder
  replays the whole log, but takes the capacity and the garbage from the old index. A put ends exactly when its key
  is in the table or a slot is free (`PutEndsIffRoom`), and a whole replay ends exactly when no beginning of the log has
  more live keys than the table has slots (`ReplayEndsIffRoom`). For a log that puts two keys and deletes both the
  capacity is 1, and the replay into it never ends (`HashSizeChangeHangs`); the builder's own steps reach the put that
  hangs (`ReachSecondPut`, `SecondPutHangs`). Where this path ends, the recorded garbage is too large by the old
  garbage (`HashWrite`). The path is also taken without an explicit hash size, when the capacity grows past 2^23 and the
  old hashes have 4 bytes.
* **A compressed log may be refused when it is opened again.** The header is accepted exactly when the numbers of
  puts and deletes are at most the file length (`OpenComplete`). Uncompressed logs always meet this
  (`PlainAlwaysOpens`); a hundred small puts that compress well do not (`CompressedMayNotOpen`).
* **The collision count is not a number of collisions.** It may be too large: the only entry of a table with one slot
  collides with itself, and an empty slot repeats a hash of 0 (`CountedTooOften`). It is the number of neighbouring
  entries with one hash exactly if neither happens (`CountIsExactIff`; by how much it is off otherwise, `CountIs`). It
  may be too small: entries with one hash need not stand together (`CountedTooRarely`). All collisions are
  neighbouring ones exactly if the entries of each hash stand in one run that does not fill the table
  (`NeighboursAreAllIff`, `CountIsAllIff`).
* **The log file is determined.** How entries are cut into blocks, when a block is ended and what the header says follow
  from the operations alone (`LaysOnce`, `LaidOnce`): the same operations make the same file, byte by byte, if the
  identifier drawn is the same (`WrittenTwice`). With different identifiers the index of one log is refused with the
  other, whatever was written (`IndexOfOther`).
* **Large logs lose addresses.** The position of a block in which entries start is shifted in 64 bits, and nothing checks
  that no bit is lost. All these positions survive exactly if that of the last such block is below 2^(64 - bits)
  (`BlocksSurviveIff`). `PositionLost` is a log for which the last one does not, with one entry in each block.
* **A missed lookup leaves the iterator where it was.** Reading on from there finds the following entry exactly if key and value
  of the entry compared last have been consumed (`AlignedIff`); else it may read a put that was never written
  (`MissReadsOn`).
* **Very long headers are split.** If the header of an entry is longer than a block, the writer sends the block buffer out even if
  it is empty, and splits the header over blocks (`LogAddLong`). It takes a key or value of 32 GB (`HeaderFitsAnyBlock`).
* **The documentation of the lookup has a slip.** `README.md:255` says that a lookup can be aborted at an entry with a higher
  displacement than the thing looked for. The code, and the proof, abort at an entry with a lower one.

## Model

| member | source | states |
|---|---|---|
| Vlq.RoundTrip | src/logreader.c:40-54 | what was encoded is decoded, with anything behind it, and exactly its bytes are consumed |
| Vlq.SizeIsLength | src/hashwriter.c:43-72 | the size computed by comparisons is the length of the encoding, at most 10 for 64 bit values |
| Vlq.Write | src/logwriter.c:33-43 | the loop writes the encoding of any 64 bit value into the 10 byte buffer |
| Vlq.Read | src/logreader.c:40-54 | the loop returns the decoded value and moves the position behind it |
| LittleEndian.RoundTrip | src/endiantools.c:67-116 | a number that fits its width is read back from its bytes |
| LittleEndian.RecordRoundTrip | src/endiantools.c:67-140 | a record of numbers is read back field by field, with anything behind it |
| LogFormat.LargestAre | src/logwriter.c:302-307 | the largest key and value lengths bound all puts and are reached |
| LogFormat.HeaderInFirstBlock | src/logwriter.c:269-275 | no entry header of a group is split: all lie in its first block |
| LogFormat.BlockPosInjective | src/logreader.c:204-208 | different blocks have different file positions, so a loaded block is known by its position |
| LogFormat.BlockHere | src/logwriter.c:173-197 | each block of a log is found, framed, at its position |
| Buf.Buffer.Add | src/buf.c:60-76 | file and buffer together grow by exactly the data; the file is touched only if the data does not fit, and then by whole buffers, with something left in the buffer |
| Buf.Buffer.FlushFile | src/buf.c:54-58 | the buffered bytes move to the end of the file |
| LogHeaders.LoadWritten | src/logheader.c:38-67 | a written log header is loaded back exactly when it passes the plausibility checks, else it is called corrupt |
| LogHeaders.LoadsBackIff | src/logheader.c:38-125 | any header is loaded as it was written exactly if its numbers fit their fields and it passes the checks |
| LogHeaders.HeaderBytes | src/logheader.c:106-125 | each field of the log header at its place in the file, in little endian, behind magic number and version |
| LogHeaders.LoadsByOffset | src/logheader.c:38-103 | what loading makes of any file: each field from its place, and which check fails first |
| LogWriter.LogWriter.constructor | src/logwriter.c:100-115 | a writer starts at the end of a complete log with the counters of its header |
| LogWriter.LogWriter.FlushCompressed | src/logwriter.c:173-197 | the block goes out as its compressed size and bytes, nothing of it stays, and the largest number of entries per block is kept |
| LogWriter.LogWriter.CompressedAdd | src/logwriter.c:239-258 | blocks sent out and bytes kept concatenate to what was buffered and added; all blocks sent out are full; blocks go out exactly when the data did not fit |
| LogWriter.LogWriter.EndBlock | src/logwriter.c:173-204 | the pending entries become a group of one block, nothing written is lost, and the largest number of entries per block stays exact |
| LogWriter.LogWriter.MakeRoom | src/logwriter.c:269-276 | the block is ended exactly if the header does not fit it, or if the entry does not but fits a block; then there is room, else nothing changes |
| LogWriter.LogWriter.AddBody | src/logwriter.c:281-285 | an entry that spills over is cut into full blocks, ends its last one, and its blocks concatenate to the buffer and the body |
| LogWriter.LogWriter.AddPacked | src/logwriter.c:277-285 | an entry that fits becomes pending and the file is not touched, any other is the last of one new group of full blocks |
| LogWriter.LogWriter.AddPlain | src/logwriter.c:286-291 | without compression the entry is appended as a group of its own |
| LogWriter.LogWriter.LogAdd | src/logwriter.c:260-293 | exactly this entry is appended, where and in which blocks is determined (`Lays`): an entry that fits the block ends none; the reported size is its encoded size |
| LogWriter.LaysOnce | src/logwriter.c:260-293 | how an entry is added is determined by what is there: there is one way to cut it into groups and blocks |
| LogWriter.CutOnce | src/logwriter.c:239-258 | bytes can be cut into full blocks in one way only |
| LogWriter.LogWriter.LogAddLong | src/logwriter.c:269-285 | an entry whose header is longer than a block: the buffer goes out even if empty, the header is split, the blocks still concatenate to the entry |
| LogWriter.LogWriter.Put | src/logwriter.c:295-309 | the put is appended in the one way there is, and all header counters describe the entries written, exactly |
| LogWriter.LogWriter.Delete | src/logwriter.c:311-319 | the delete is appended in the one way there is, and all header counters describe the entries written, exactly |
| LogWriter.LogWriter.FlushBuffers | src/logwriter.c:200-207 | everything written reaches the file, a block is ended only if something is pending, nothing before it changes |
| LogWriter.LogWriter.WriteHeader | src/logwriter.c:208-212 | only the header at the start of the file changes |
| LogWriter.LogWriter.Flush | src/logwriter.c:200-217 | the file is a complete log of everything written, described by its header, which records exactly the largest number of entries in a block; older bytes behind the header are unchanged |
| LogWriter.HeaderFitsAnyBlock | src/logwriter.c:60-62 | every accepted block size has room for the header of any delete, and of puts below 32 GB of key and value |
| LogFiles.OpenComplete | src/logreader.c:56-69 | a file that was complete and has grown since opens as it was, exactly when its counters are at most its length |
| LogFiles.PlainAlwaysOpens | src/logheader.c:53-65 | an uncompressed log always passes the header checks |
| LogFiles.PlainImage | src/logwriter.c:286-291 | an uncompressed log is the concatenation of its encoded entries |
| LogFiles.CompressedMayNotOpen | src/logheader.c:56-61 | a correctly written compressed log that cannot be opened |
| LogFiles.Create | src/logwriter.c:52-120 | a block size below 10 is refused for compressed logs only; else there is an empty complete log with the identifier drawn, and a writer at its end |
| LogFiles.Append | src/logwriter.c:122-171 | a complete log is taken up at its recorded end with its own compression and counters, exactly when its header is accepted; bytes left behind that end are kept until they are overwritten |
| LogReader.BlockReads | src/logreader.c:209-222 | a compressed block is read and decompressed from its position, and the next one follows |
| LogReader.GroupSlice | src/logreader.c:204-232 | the bytes of an entry can be read from the loaded block, compressed or not |
| LogReader.ReadNumbers | src/logreader.c:311-321 | the two numbers of an entry header tell its kind, key length and value length |
| LogReader.LogIter.constructor | src/logreader.c:153-182 | a new iterator is about to read the first entry |
| LogReader.LogIter.SeekBlock | src/logreader.c:204-232 | any block of the log is loaded from its position, and a loaded one is kept |
| LogReader.LogIter.EnsureAvailable | src/logreader.c:246-261 | a used up block is followed by the next of the log or by the end; the offset in a group does not change |
| LogReader.LogIter.Skip | src/logreader.c:263-271 | bytes of an entry are skipped over any number of block boundaries |
| LogReader.LogIter.Next | src/logreader.c:273-329 | whatever was consumed before, the entry after the current one becomes current with its place, block position and entry index, or the iterator closes at the end; an invalid iterator that stands where an entry starts moves to that one |
| LogReader.LogIter.AlignedIff | src/logreader.c:273-298 | left invalid at an entry, the iterator stands where an entry starts exactly if key and value have been consumed |
| LogReader.LogIter.NewIsAligned | src/hashreader.c:146-149 | left invalid before any entry was read, a new iterator still stands where its first entry starts |
| LogReader.LogIter.Seek | src/logreader.c:234-244 | after a seek the next entry is the first one of that block, or none at the end of the data |
| LogReader.LogIter.SkipEntries | src/logreader.c:343-349 | the upcoming entry moves on by as many entries |
| LogReader.LogIter.Reset | src/logreader.c:331-341 | back at the start of the same entry with nothing consumed; an inactive iterator is refused and unchanged |
| LogReader.LogIter.Chunk | src/logreader.c:353-372 | a chunk is the next stretch of the entry's bytes: all that is wanted and left, or with compression up to the end of the block |
| LogReader.LogIter.KeyChunk | src/logreader.c:374-376 | the chunk followed by the rest of the key is what was left of the key; an inactive iterator is refused and unchanged |
| LogReader.LogIter.ValueChunk | src/logreader.c:378-382 | the rest of the key is skipped, and the chunk followed by the rest of the value is what was left of the value; an inactive iterator is refused after the rest of the key has been skipped |
| LogReader.LogIter.FillKey | src/logreader.c:384-399 | the buffer receives the next bytes of the key, as many as wanted and left, and is otherwise unchanged |
| LogReader.LogIter.FillValue | src/logreader.c:401-416 | the buffer receives the next bytes of the value, as many as wanted and left, and is otherwise unchanged |
| KeyCompare.CompareIsLex | src/logreader.c:418-460 | the comparison is the lexicographic order, zero exactly on equal keys, and antisymmetric |
| KeyCompare.KeyCmp | src/logreader.c:418-460 | two keys are compared as wholes, however block boundaries chunk either; inactive iterators are refused |
| KeyCompare.IterHash | src/hashiter.c:23-45 | the hash of the contiguous key, also when a block boundary splits it; 0 when it cannot be read from its start |
| RobinHood.NoGapBehind | src/hashwriter.c:213-222 | every slot between a resident and its wanted slot is taken by one displaced at least as far from there |
| RobinHood.PlaceKeepsOrder | src/hashwriter.c:213-222 | taking the slot of a better placed resident keeps the order |
| RobinHood.ShiftKeepsOrder | src/hashwriter.c:123-141 | shifting a displaced resident back by one slot keeps the order and every settled slot |
| RobinHood.FreeKeepsOrder | src/hashwriter.c:143-145 | freeing the last slot of the shift keeps the order and leaves a settled slot |
| RobinHood.GivingUpIsSafe | src/hashreader.c:179-183 | where probing gives up no resident that wanted the same slot is further on, even in a full table |
| RobinHood.CarrySteal | src/hashwriter.c:213-222 | after a steal the displaced resident can be carried on and still meets a free slot |
| RobinHood.HistoryIndependent | src/hashwriter.c:123-145 | valid layouts of the same wanted slots are equal, whatever puts and deletes led to them |
| RobinHood.LargestDispIsLeast | README.md:252-257 | no way of placing the same residents in the same capacity has a smaller largest displacement |
| TotalDisplacement.TotalDispIsLeast | README.md:252 | no way of placing the same residents in the same capacity has a smaller total displacement |
| TotalDisplacement.FewestPass | README.md:252 | seen from a settled slot, no other layout has fewer residents passing any boundary |
| RobinHood.DispBelowTaken | src/hashheader.c:63-65 | a displacement is smaller than the number of taken slots |
| SlotArrays.SlotArray.Write | src/hashheader.h:90-95 | one slot of the byte array is overwritten and no other |
| SlotArrays.SlotArray.ReadHash | src/hashalgorithms.c:19-37 | the hash is read back from the slot's bytes |
| SlotArrays.SlotArray.ReadAddr | src/hashheader.h:82-88 | the address is read back from the slot's bytes |
| HashTables.DisplacementIsDist | src/hashheader.h:77-80 | with 64 bit wrap-around the computed displacement is the distance around the circle |
| HashTables.IntLog2 | src/hashwriter.c:34-41 | the number of bits: enough for the number, and no fewer are |
| HashTables.AddressIsPack | src/hashwriter.c:477 | shifting and or-ing position and index loses nothing, for an index that fits the shift |
| HashTables.PackRoundTrip | src/hashwriter.c:187-188 | shift and mask take an address apart again, and it is never 0 |
| HashTables.PackInjective | src/hashreader.c:226-230 | equal addresses come from equal position and index |
| HashTables.SameKey | src/hashwriter.c:107-122 | seek, skip and next reach the very put that was packed, and its key is compared with the current one |
| HashTables.HashTable.constructor | src/hashwriter.c:430-443 | an empty table: all slots free, counters 0 |
| HashTables.HashTable.ReadCell | src/hashwriter.c:178-180 | hash and address of a slot; the address is 0 exactly for a free one |
| HashTables.HashTable.ProbeSlot | src/hashwriter.c:95-153 | a probe matches exactly the slot of the key, and gives up only where that is safe; addresses found are in range |
| HashTables.HashTable.Find | src/hashwriter.c:88-160 | probing ends at the slot of the key, or the key is nowhere in the table |
| HashTables.HashTable.PushDown | src/hashwriter.c:186-231 | residents displaced by a new one are all carried on to a free slot, and the layout stays valid, also in runs that wrap |
| HashTables.HashTable.HashPut | src/hashwriter.c:169-233 | exactly one entry is added, or the entry of the same key is replaced where it is; counters and garbage follow; the layout stays valid |
| HashTables.HashTable.PutUnseen | src/hashwriter.c:169-233 | without iterators one entry is added, keys are not compared |
| HashTables.HashTable.BackShift | src/hashwriter.c:123-145 | the shift ends even in a full table, removes exactly one entry and keeps the layout valid |
| HashTables.HashTable.HashDelete | src/hashwriter.c:88-167 | exactly the entry of the key is removed, counters and garbage follow; without one nothing changes |
| HashTables.HashTable.PutSize | src/hashwriter.c:79-86 | the garbage added for a put is the number of bytes it takes in the log |
| HashStats.CalculateMaxDisplacement | src/hashwriter.c:235-284 | largest and total displacement are exact; the collision count is the number of entries meeting one with their hash in the slot before, plus the slots counted in vain; it and the displacement are at most the number of entries |
| HashStats.CountIs | src/hashwriter.c:252-280 | in every table the count is the number of neighbouring collisions, going round, plus the slots counted in vain |
| HashStats.CountIsExactIff | src/hashwriter.c:252-280 | the count is the number of neighbouring collisions exactly if a table of one slot is empty and no empty slot follows an entry with hash 0 |
| HashStats.CountedTooOften | src/hashwriter.c:252-280 | two valid tables without a collision for which the count is 1 |
| HashStats.CountedTooRarely | src/hashwriter.c:252-280 | a valid table with two entries of one hash for which the count is 0 |
| HashStats.NeighboursAreAllIff | src/hashwriter.c:252-280 | neighbouring collisions are entries less distinct hashes exactly if the entries of each hash stand in one run that does not fill the table |
| HashStats.CountIsAllIff | src/hashwriter.c:252-280 | with no slot counted in vain the count is entries less distinct hashes under the same condition; the difference is known for every table |
| HashStats.TotalBound | src/hashwriter.c:262 | the total displacement is at most the largest one for each entry |
| HashStats.MaxDispIsLeast | README.md:252-257 | the recorded largest displacement is the least possible for these hashes and this capacity |
| HashStats.TotalIsLeast | README.md:252 | so is the total, and with it the average, displacement |
| HashStats.MaxDispBelowEntries | src/hashheader.c:63-65 | a largest displacement plus the free slots is at most the capacity |
| HashHeaders.LoadWrittenHash | src/hashheader.c:36-72 | a written index header is loaded back exactly when it passes the checks |
| HashHeaders.HashHeaderBytes | src/hashheader.c:112-132 | each field of the index header at its place in the file, in little endian, behind magic number and version |
| HashHeaders.IndexFileBytes | src/hashwriter.c:486-512 | each number of a table is in the index file at its place, followed by the table |
| HashHeaders.HashLoadsByOffset | src/hashheader.c:36-110 | what loading makes of any file: each field from its place, and which check fails first |
| HashHeaders.SlotBytes | src/hashheader.h:82-95 | behind the header each slot at its place: the hash and then the address, position shifted and index added, or zeros |
| HashHeaders.IndexHeaderFitsIff | src/hashheader.c:112-132 | for a log whose header fits, the numbers of its index header fit their fields exactly if garbage and total displacement do |
| HashHeaders.IndexLoadsIff | src/hashheader.c:36-72 | an index the builder wrote for such a log is loaded whole, with the table behind the header, exactly then |
| HashHeaders.IndexLoads | src/hashheader.c:57-69 | so it is for less than 2^32 puts if the entries and the surplus of garbage fit 64 bits |
| HashHeaders.IndexOpensLater | src/hashreader.c:43-77 | an index file opens with its log in every later state, and is refused with any log of another identifier |
| HashHeaders.IndexOpensIff | src/hashreader.c:46-77 | with the identifier of the log an index opens exactly if it covers no more of the log than there is, its key and value lengths are no larger, and its file is all there |
| HashHeaders.LaterIndexRefused | src/hashreader.c:50-53 | an index of a later state of the log is refused with an earlier one |
| Liveness.LiveIsLastPut | src/hashreader.c:130-194 | a place is live exactly when it is a put with no later entry of its key |
| Liveness.LiveIsFold | src/testsystem.c:187-222 | the live places hold the keys and values of the folded log |
| Liveness.LivePrefix | src/hashwriter.c:375-386 | entries appended later change nothing about what was live before |
| Liveness.LiveSizeAfter | src/hashwriter.c:75-86 | an entry adds its own size if it is a put and takes off that of the put it replaces or deletes |
| Index.HoldsKey | src/hashreader.c:130-194 | a table that holds the live puts has a key exactly when it is live |
| Index.HoldsInserted | src/hashwriter.c:180-185 | adding a put of a new key keeps a table that holds the live puts |
| Index.HoldsReplaced | src/hashwriter.c:204-209 | replacing the entry of a key by its newer put keeps a table that holds the live puts |
| Index.HoldsRemoved | src/hashwriter.c:123-148 | removing the entry of a deleted key keeps a table that holds the live puts |
| Index.LiveCount | src/hashwriter.c:380 | live keys never grow by more than the number of puts in between |
| Sizing.AddressFits | src/hashwriter.c:404-411 | every packed address fits the chosen address size |
| Sizing.AddressSizeIff | src/hashwriter.c:407-411 | addresses take 4 bytes exactly if the shifted end of the data is below 2^32 |
| Sizing.PutIsStorable | src/hashwriter.c:404-411 | every put of the log can be stored: its index fits the bits, its address the address size and is not 0 |
| Sizing.BlocksSurviveIff | src/hashwriter.c:477 | in 64 bits the positions of all blocks in which entries start can be shifted and back exactly if that of the last one loses no bit |
| Sizing.PositionLost | src/hashwriter.c:477 | a log for which it does |
| HashWriter.EnoughRoom | src/hashwriter.c:380-396 | with as many slots as live entries and puts to come every put finds a free slot |
| HashWriter.ReplayPut | src/hashwriter.c:474-478 | a table that is an index of the entries before a put becomes one of the entries up to it |
| HashWriter.ReplayDelete | src/hashwriter.c:479-482 | a table that is an index of the entries before a delete becomes one of the entries up to it |
| HashWriter.ReplayEntry | src/hashwriter.c:469-483 | likewise, and garbage plus live bytes grow by the size of the entry |
| HashWriter.Replay | src/hashwriter.c:454-484 | replaying to the end makes an index of the whole log and conserves garbage plus live bytes |
| HashBuilder.CopySlot | src/hashwriter.c:300-311 | a used slot of the old table is put into the new one with its address packed anew, a free one is not |
| HashBuilder.HashCopy | src/hashwriter.c:298-351 | the new table holds the same live puts as the old one, whatever the new capacity, address size and bits |
| HashBuilder.HoldsLater | src/hashreader.c:50-53 | what a table holds for a log it holds for every log appended to it |
| HashBuilder.Finish | src/hashwriter.c:486-505 | counters, statistics and the end of the data are recorded: the table is an index of the whole log |
| HashBuilder.NewTable | src/hashwriter.c:398-443 | an empty table in which every put of the log can be stored, with the fewest bits for the entry index and addresses no wider than needed |
| HashBuilder.Rebuild | src/hashwriter.c:454-486 | a replay from scratch gives an index of the whole log, its garbage exact |
| HashBuilder.Extend | src/hashwriter.c:445-486 | copying the old index and replaying the new tail gives an index of the whole log, and its garbage is as exact as the old one |
| HashBuilder.HashWrite | src/hashwriter.c:353-520 | every successful run leaves an index of the whole log; the old one is kept exactly if it covers the log and its hashes have the size wanted; else capacity is the odd number next to 1.3 slots for each put, or for each old entry and new put, and hash size, address size, bits and seed are as stated; the garbage surplus is 0 from scratch, kept incrementally, and the old garbage after a change of hash size |
| HashReader.KeyEquals | src/hashreader.c:161-177 | the chunked comparison decides equality of whole keys and then has consumed the key |
| HashReader.Get | src/hashreader.c:130-194 | the iterator ends on the live put of the key, ready for its value, exactly when there is one, else it is invalid, at the entry compared last or where it was; the recorded largest displacement plus 2 bounds the probes, and so does the capacity plus 1 |
| HashReader.AddressOfPut | src/hashreader.c:207-230 | in a log appended to since indexing, a put has the address of an indexed slot exactly when it is the live put there |
| HashReader.AppendedAddress | src/hashreader.c:210 | an appended put never has the address of an indexed one, even if its index overflows the shift |
| HashReader.FindAddress | src/hashreader.c:215-243 | probing for an address finds it exactly when it is in the table |
| HashReader.HashNext | src/hashreader.c:196-244 | the iterator moves to the next live entry of the indexed part, with nothing consumed, and skips none |
| PutSteps.PutEndsIffRoom | src/hashwriter.c:169-233 | the loop of a put ends exactly when its key is in the table or a slot is free, then within two rounds, and with exactly the put done |
| PutSteps.StuckForever | src/hashwriter.c:186-231 | in a full table without the key the loop never ends |
| PutSteps.PushFinishes | src/hashwriter.c:213-231 | displaced residents are settled after no more turns than there are slots to the free one |
| ReplaySteps.ShiftFinishes | src/hashwriter.c:123-145 | turn by turn the backward shift ends, also in a full table, and takes exactly one entry out |
| ReplaySteps.SeekFinishes | src/hashwriter.c:88-167 | turn by turn a delete ends, with exactly the entry of its key removed |
| ReplaySteps.RoomIffFewLive | src/hashwriter.c:380-396 | every put of a replay finds room exactly if no beginning of the log has more live keys than there are slots |
| ReplaySteps.ReplayEndsIffRoom | src/hashwriter.c:454-484 | a whole replay, turn by turn, ends exactly under that condition, and then holds the live puts; else it never ends |
| IndexLaws.IndexesAgree | src/hashwriter.c:445-484 | all indexes of a log, incremental or not and with any hash functions, have the same keys, places and number of entries |
| IndexLaws.SameLayout | src/hashwriter.c:445-484 | with the same hash function and capacity they have the same layout and displacements |
| IndexLaws.PutThenDelete | src/hashwriter.c:123-145 | a put of a new key and its delete restore the layout |
| IndexLaws.ReplayEndsIff | src/hashwriter.c:474-478 | a put of the replay ends exactly when its key is live or there are fewer live keys than slots |
| IndexLaws.RunMatchesTable | src/hashwriter.c:454-484 | the replay turn by turn and the table the builder makes have the same entries in the same layout |
| IndexLaws.ReachSecondPut | src/hashwriter.c:454-478 | the builder's steps take the example to its second put with a table of one slot |
| IndexLaws.SecondPutHangs | src/hashwriter.c:186-231 | from there the second put never ends |
| IndexLaws.HashSizeChangeHangs | src/hashwriter.c:425-427 | an index and a log for which, after a change of hash size, the capacity is 1 and the replay never ends |
| LogRuns.Close | src/logwriter.c:219-237 | after closing, the file holds everything written and its header describes it; it is complete exactly if the header numbers fit |
| LogRuns.Reopen | src/logwriter.c:122-171 | the log is closed, and taken up again by a new writer exactly if its header numbers fit and pass the checks; uncompressed logs always pass them |
| LogRuns.Run | src/testsystem.c:57-82 | any sequence of puts, deletes, flushes and reopenings appends exactly its entries, in the one way there is; after a flush or a reopening the file is described by its header; a run ends early only at a reopening, because of the closed header |
| LogRuns.LaidAppends | src/logwriter.c:260-293 | operations only append groups: what was there stays where it is |
| LogRuns.LaidOnce | src/logwriter.c:200-293 | operations leave nothing open about groups and blocks |
| LogRuns.SameFile | src/logwriter.c:200-217 | closed logs with the same groups and identifier are the same files, byte by byte |
| LogRuns.WrittenTwice | src/logwriter.c:52-319 | the same operations on two new logs of one identifier make the same file |
| SystemRuns.ReadEntry | src/testsystem.c:97-108 | buffers of the announced sizes receive exactly key and value |
| SystemRuns.ReadAll | src/testsystem.c:91-143 | iterating over a log yields the entries in the order they were written |
| SystemRuns.MissReadsOn | src/hashreader.c:160-183 | a missed comparison after which the header of a put that was never written would be read |
| SystemRuns.RoomFor | src/hashwriter.c:454-484 | it can be found out beforehand whether every put of a replay would find a free slot |
| SystemRuns.ReadLive | src/testsystem.c:157-200 | iterating with an index yields the pairs of the folded log, each once, in log order, as many as the recorded number of entries |
| SystemRuns.Lookup | src/testsystem.c:203-227 | a lookup answers what the folded log says |
| SystemRuns.Session | src/testsystem.c:52-230 | from operations to answers: entries, live pairs and lookups agree with the folded operations, whether the index is fresh or incremental; there is no answer exactly if one of four stated conditions holds |
| SystemRuns.TwoSittings | src/testsystem.c:52-230 | a new log, indexed, appended to and indexed again from the first index, answers for all operations |
| SystemRuns.IndexOfOther | src/hashreader.c:46-49 | the index of one log is refused with another of a different identifier, whatever was written to either |

## Left out

- File and operating system calls, their error codes, memory allocation and the magic numbers of open handles: files are byte
  sequences, reads and writes complete.
- snappy and zstd: known only by the assumption that decompressing undoes compressing and that compressed sizes fit 32 bits.
- MurmurHash3: any function of the right width.
- Corrupt or truncated files: logs and indexes are those that writer and builder produce.
- LogWriter.LogWriter.Put: requires, with compression, that the entry's header fits a block, which the source does not check; what is
  written otherwise is stated by `LogAddLong`, but the log is then none in the sense of `IsLog` and is not followed further.
- LogWriter.LogWriter.LogAdd: has the same requirement.
- LogWriter.LogWriter.MakeRoom: has the same requirement.
- LogWriter.LogWriter.Delete: has the same requirement; every accepted block size meets it.
- LogReader.LogIter.Next: an invalid iterator that does not stand where an entry starts is not moved on; the source takes the bytes
  there for a header.
- LogReader.LogIter.SkipEntries: likewise.
- HashReader.HashNext: likewise.
- LogReader.LogIter.ValueChunk: requires, of an inactive iterator, that it stands at an entry or has no key bytes left over.
- LogReader.LogIter.FillValue: likewise.
- LogReader.LogIter.KeyChunk: the chunk is returned as a value, not as a pointer into the block buffer that the next call may overwrite.
- LogReader.LogIter.Skip: the entry count after a reset from a later block stays that of the later block, as in the source; this is
  harmless, as only the last entry of a group spills over, and only its non-last entries are promised an exact count.
- HashBuilder.HashCopy: goes through the old table slot by slot; the source reads it in pieces of 1024 slots.
- HashBuilder.HashWrite: an index file that cannot be loaded or has another version counts as absent. Logs whose positions would
  not survive the shift (`BlocksSurviveIff`) are excluded, and so are more than 2^60 puts. A change of hash size without
  room is excluded, as the source then never ends (`ReplayEndsIffRoom`).
- HashBuilder.NewTable: excludes the same large logs.
- Sizing.AddressFits: excludes the same positions.
- Sizing.PutIsStorable: excludes the same large logs.
- LogRuns.Close: whether the header numbers fit their fields is looked at by the model only; the source writes the low bytes
  of what does not fit, and such a header is not loaded back as it was (`LoadsBackIff`).
- LogRuns.Run: `HeaderOverflow` is this look of the model; `CannotReopen` is the source's own refusal.
- LogRuns.Reopen: likewise.
- SystemRuns.Session: of the reasons for giving no answer `NotPlausible` is the source's own refusal. `HeaderTooLarge`,
  `NotAddressable` and `NoRoomForHashSize` are looked at by the model only, by going through the log: the source goes on,
  with lost positions or for ever.
- Sizing.HashCapacity: the factor 1.3 is the rational 13/10; the source multiplies floating point numbers.
- Endianness of the platform: numbers are little endian in the files.
- Command line tools, benchmarks, printing of headers.
