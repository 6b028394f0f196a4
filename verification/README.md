# HC runtime: the in-memory algorithms

This project models the algorithms of the freestanding `hc-rt` runtime that work on memory alone, as the code is
written, and proves what they do on all inputs. Code that changes things step by step is imperative here too (arrays,
classes, loops) and proved against a specification; protocols are state machines whose runs are schedules.

| group | files |
|---|---|
| `memcmp`, `memcpy`, `memset`, `strlen`/`wcslen` against byte-wise definitions | `Bytes`, `IAlign`, `Memcmp`, `MemcmpSse`, `Memcpy`, `Memset`, `Strlen` |
| next power of two | `Align` |
| bit list and slot allocator refine a finite set | `Bits`, `BitList`, `Skiplist` |
| string table: append, sort, unsort, search, sorted insertion | `Shortlex`, `TableSort`, `MisledSort`, `TableOrder`, `TableLayout`, `SortedInsert`, `InsertOutcome`, `StringTable`, `TableRuns` |
| buffered file over an abstract device | `IOFile`, `FileRuns` |
| spin lock and lazy initialiser; emulated TLS | `AtomicLazy`, `Emutls` |
| export-name search; system-call stub decoder | `ExportSearch`, `StubParser` |

Run `dafny verify dfyconfig.toml` to verify everything.

## Where the code departs from its comments

The model follows the code. Each entry names the theorem that says exactly when the code does what it is meant to do,
and a proved input on which it does not.

- `__comp` (`hc-rt/src/Parcel/_StrTblSortSlow.hpp:53-56`) tests one length condition twice, so a longer left string falls
  through to `strncmp`. A sort gives shortlex order iff no entry is called less than the greatest of the earlier ones that
  is not greater; on a table with terminators that is a matter of the strings alone (`TableOrder.ShortlexIff`,
  `TerminatedIff`; `SortWitness`, `RightWitness`).
- `unsort` says that it leaves a table alone that was never sorted. The condition is that the table does not count as
  sorted, which an append after a sort brings about too (`hc-rt/src/Parcel/StringTable.cpp:94-95`, `196-199`;
  `TableRuns.SortAddAndBack`, `UnsortWitness`).
- `binaryInsert` lowers its exclusive upper end to `mid - 1`, and its slide steps over nine entries while moving eight
  (`hc-rt/src/Parcel/StringTable.cpp:308-333`, `365`). With n entries and a new string of rank r it leaves a complete table
  in order iff r = n, or the bisection of [0, n) never probes r from an interval that starts before r, and n - r < 8. Both
  can be computed from n and r. Otherwise the new string stands in front of a smaller one, or an old entry is
  lost; and when 8, 17, 26, ... entries lie behind the landing the slide leaves the table, because
  the distance is compared as an unsigned number, and the model stops with `Fault`. The answer `alreadyExists` is always
  right. A field of the table says whether the two lines are repaired, and then every insertion is a correct one
  (`StringTable.Table.BinaryInsert`, `TableRuns.SortedRun`; `InsertOutcome.LandingWitness`, `SlideWitness`).
- A table entry has 16 bits for offset and length (`hc-rt/include/Parcel/StringTable.hpp:32-35`), and they are cut without a
  check (`hc-rt/src/Parcel/StringTable.cpp:276`). An append keeps the table right iff both are below 65536
  (`StringTable.Table.AppendAny`; `TableLayout.NewIdxWitness`).
- The prefetching `memset` advances by 64 bytes for every 32 it writes (`hc-rt/src/Common/InlineMemset.hpp:86`, `102-103`).
  The build turns it on unless told not to (`CMakeLists.txt:62`, forwarded at `hc-rt/CMakeLists.txt:67`), so this is the
  path of every default build above 64 bytes. The advance is a parameter (`Memset.PrefetchFillsIff`; `PrefetchWitness`).
- The byte maximum of the SSE `memcmp` is one of 64-bit lanes (`hc-rt/src/Common/Immintrin.hpp:59-61`), so its sign above 16
  bytes is not always lexicographic. Whether it is depends on the bytes and on the address, and can be computed from them
  (`MemcmpSse.Dispatch`; `SignWitness`, `AddressWitness`). `hc-rt/CMakeLists.txt:21` builds for the host's own processor,
  so this is the usual path.
- `IsPow2` has its branches the wrong way round (`hc-rt/include/Common/Align.hpp:42-46`), so `UpEq` moves powers of two up
  (`Align.UpEqIff`; `UpEqWitness`).
- `countInactive` subtracts from the number of words (`hc-rt/include/Parcel/BitList.hpp:84`; `BitList.InactiveIff`;
  `InactiveWitness`).
- `insertRaw` has no bound against N (`hc-rt/include/Parcel/Skiplist.hpp:90-96`). The model returns `OutOfBounds` where the
  code writes behind the storage (`Skiplist.Skiplist.InsertRaw`; `FullWitness`).
- `AtomicLazy` does not load its flag again under the lock (`hc-rt/include/Common/AtomicLazy.hpp:44-48`). The step function
  takes the missing load as a parameter; both versions are proved (`AtomicLazy.OncePerFalseLoad`, `RecheckIsOnce`;
  `TwiceWitness`).
- `flushUnlocked` hands over the whole buffer and not the first `pos` bytes (`hc-rt/src/Sys/IOFile.cpp:163-164`). The method
  takes the difference as a parameter; both versions are proved (`IOFile.File.Flush`, `FileRuns.FileRun`; `FlushWitness`).
- A write that falls short returns no error code, although `err` is set, iff the device was cut short without one
  (`hc-rt/src/Sys/IOFile.cpp:201-211`, `255-280`; `ShortReported` in the contract of `IOFile.File.Write`; `ShortWriteWitness`).
- `canRead` has the append flag and `canWrite` does not (`hc-rt/src/Sys/IOFile.hpp:122-134`), so a file opened for appending
  alone can be read and not written, against section 7.21.5.3 of ISO C11 (`IOFile.ModeRights`; `AppendWitness`).
- The stub parser calls the stubs of 32-bit programs valid too (`hc-rt/include/Bootstrap/StubParser.hpp:21`), but they call
  through `edx` and contain no `syscall`, so none is understood (`StubParser.DecodesStub`, `RefusesStub32`).
- `strcmp` and `strncmp` of the runtime subtract signed characters (`hc-rt/xcrt/String/XStrcmp.cpp:25`,
  `hc-rt/xcrt/String/XStrncmp.cpp:25`), where section 7.24.4 of ISO C11 compares them as unsigned. The orders of names and
  tables here are those of the runtime; they are the standard's iff the characters that decide are in the same half
  (`Bytes.StrCmpSignIff`, `Shortlex.CharCmpSignIff`; `StrCmpWitness`, `CharCmpWitness`).
- Export names are sorted on unsigned characters by the linker, and searched with that comparison
  (`hc-rt/src/Bootstrap/COFFModule.cpp:60`). A name in such a table is found iff every name that the search meets on
  the way is told from it by characters of one half; the two orders agree on a table iff every pair of its names is
  (`ExportSearch.MissedIff`, `SortedIff`; `UnsignedWitness`).

Smaller ones: the debug invariant `read_limit > pos` (`hc-rt/src/Sys/IOFile.cpp:88`) does not hold when nothing is buffered,
as on the first read, and the model needs `>=` only. The export search probes position -1 iff the key precedes all names
(`hc-rt/src/Bootstrap/COFFModule.cpp:56-58`), and the model takes what lies there as a parameter. `get_instruction` looks at
first bytes only, so `sysenter` reads as `syscall` (`hc-rt/src/Bootstrap/StubParser.cpp:87-106`).

## Model

| member | source | states |
|---|---|---|
| `Memcmp.Dispatch` | hc-rt/src/Common/InlineMemcmp.hpp:136-162 | for every length and every address residue the sign is that of the first differing unsigned byte pair, zero iff the blocks are equal, and the value fits 32 signed bits |
| `Memcmp.CmpLoopAndLastOff` | hc-rt/src/Common/InlineMemcmp.hpp:83-104 | the loop with its overlapping last block decides like a byte-wise comparison of everything, given that the bytes before its start agree |
| `Memcmp.CmpLoopAndLastAlign` | hc-rt/src/Common/InlineMemcmp.hpp:111-120 | skipping ahead to a word boundary after the first word leaves the answer unchanged, on every residue and on both sides of the 384-byte threshold |
| `Memcmp.CmpFirstLastBlock` | hc-rt/src/Common/InlineMemcmp.hpp:71-81 | two possibly overlapping blocks compare everything between one and two block sizes |
| `Memcmp.CmpBlockSeq` | hc-rt/src/Common/InlineMemcmp.hpp:46-63 | consecutive blocks of different sizes compare like their concatenation |
| `Memcmp.CmpBlockOff` | hc-rt/src/Common/InlineMemcmp.hpp:30-39 | one block, by subtraction up to four bytes and by equality test first above that, has the sign of the byte-wise comparison |
| `Memcmp.LastBlock` | hc-rt/src/Common/InlineMemcmp.hpp:67-69 | a last block that reaches back over bytes known to be equal decides for the whole |
| `Memcmp.CmpEq` | hc-rt/src/Common/MemUtils.hpp:131-135 | the difference of the big-endian loads has the sign of the byte-wise comparison and fits 32 bits |
| `Memcmp.CmpEqU32` | hc-rt/src/Common/MemUtils.hpp:142-145 | the narrowing keeps the sign of every 33-bit difference, and zero only for equal words |
| `Memcmp.NarrowedDifference` | hc-rt/src/Common/MemUtils.hpp:142-145 | why: a halved difference with its own low 16 bits merged in stays on the same side of zero and inside 32 bits |
| `Memcmp.LoadBEOrder` | hc-rt/src/Common/MemUtils.hpp:72-80 | comparing big-endian values is comparing the bytes lexicographically, for blocks of any size |
| `Memcmp.LoadInjective` | hc-rt/src/Common/MemUtils.hpp:121-124 | two loads agree iff all the bytes do |
| `Bytes.MemCmpFirstDifference` | hc-rt/src/Common/InlineMemcmp.hpp:136-162 | the reference comparison is the difference at the first differing byte |
| `Bytes.MemCmpEqual` | hc-rt/src/Common/InlineMemcmp.hpp:136-162 | the reference comparison is zero iff the blocks are equal |
| `Bytes.MemCmpSplit` | hc-rt/src/Common/InlineMemcmp.hpp:83-104 | a comparison may be cut anywhere: the rest matters only when the first parts agree |
| `IAlign.OffsetFromLastAlign` | hc-rt/src/Common/IAlign.hpp:25-30 | the distance lies in 1..Align and leads to an aligned address, from every address |
| `MemcmpSse.Dispatch` | hc-rt/src/Common/InlineMemcmp.hpp:136-162 | the SSE4.1 path, for every length and address: zero iff the blocks are equal; above 16 bytes the sign is that of the little-endian 64-bit comparison of DecidingLane, which is computed from blocks and address; it is the lexicographic one iff the length is at most 16, the blocks are equal, or SignsWell |
| `MemcmpSse.SignIff` | hc-rt/src/Common/MemUtils.hpp:202-210 | why: in the lane that decides, the first and the last byte that differ must be ordered the same way |
| `MemcmpSse.SignWitness` | hc-rt/src/Common/InlineMemcmp.hpp:136-162 | 17 bytes 1, 0, 0, ... against 0, 1, 0, ... at any address: the greater side compares as less |
| `MemcmpSse.AddressBelow384` | hc-rt/src/Common/InlineMemcmp.hpp:111-120 | below 384 bytes, or when the left block is aligned to 16, the address does not matter |
| `MemcmpSse.AddressWitness` | hc-rt/src/Common/InlineMemcmp.hpp:111-120 | from 384 bytes on it does: of the same blocks, the aligned ones compare right and those at address 4 wrong |
| `MemcmpSse.CmpNeq16Sign` | hc-rt/src/Common/MemUtils.hpp:202-210 | the difference of the two masks has the sign of the little-endian comparison of the first lane that differs, and is never zero on blocks that do |
| `MemcmpSse.BlockOff` | hc-rt/src/Common/InlineMemcmp.hpp:30-39 | zero iff the 16 bytes are equal, else decided by the lane of the first difference, counted from the block |
| `MemcmpSse.LoopAndLastOff` | hc-rt/src/Common/InlineMemcmp.hpp:83-104 | the loop with its overlapping last block: which block sees the first difference, and that its lane decides |
| `MemcmpSse.LoopAndLastAlign` | hc-rt/src/Common/InlineMemcmp.hpp:111-120 | the same behind the skip to a 16-byte boundary: the lane is DecidingLane |
| `Memcmp.UpTo16` | hc-rt/src/Common/InlineMemcmp.hpp:136-156 | the lengths up to 16 bytes, which both paths share |
| `Memcpy.Dispatch` | hc-rt/src/Common/InlineMemcpy.hpp:86-103 | for every length and destination residue, disjoint ranges: the destination gets the old source bytes and no byte outside it changes |
| `Memcpy.CopyAlignedBlocks` | hc-rt/src/Common/InlineMemcpy.hpp:54-69 | first block, aligned blocks and last block cover the range without a gap; every store in the loop is in bounds and on a 32-byte boundary (required by the block store it calls) |
| `Memcpy.CopyOverlapBlock` | hc-rt/src/Common/InlineMemcpy.hpp:48-52 | two blocks cover every length from one to two block sizes |
| `Memcpy.CopyLastBlock` | hc-rt/src/Common/InlineMemcpy.hpp:42-46 | copies exactly the last block |
| `Memcpy.CopyNext` | hc-rt/src/Common/InlineMemcpy.hpp:63-66 | a block that may start inside what is already copied extends the copied range to its end |
| `Memcpy.Small` | hc-rt/src/Common/InlineMemcpy.hpp:75-84 | lengths 1 to 4 are exact |
| `Memset.Dispatch` | hc-rt/src/Common/InlineMemset.hpp:120-141 | with prefetching, which is what the default build does: of every byte, whether it is filled; as written the whole range up to 64 bytes and while fewer than 288 are left after alignment. Without it, or with the inner loop advancing by what it stores, the whole range for every length and residue. Nothing else changes |
| `Memset.Prefetching` | hc-rt/src/Common/InlineMemset.hpp:83-107 | as written: says of every byte whether the call fills it |
| `Memset.PrefetchLoop` | hc-rt/src/Common/InlineMemset.hpp:96-105 | which bytes the inner loop leaves out, advancing by 64 (as written) or 32 for every 32 it writes, and where the rest begins |
| `Memset.PrefetchFillsIff` | hc-rt/src/Common/InlineMemset.hpp:83-107 | the prefetching variant as written fills the whole range iff fewer than 288 bytes are left after alignment; advancing by 32 it always does |
| `Memset.PrefetchWitness` | hc-rt/src/Common/InlineMemset.hpp:99-104 | 384 aligned bytes: byte 160 keeps its old value |
| `Memset.SetLoopAndLastOff` | hc-rt/src/Common/InlineMemset.hpp:63-71 | the do-while and the last block fill from the given offset to the end |
| `Memset.SetFirstLastBlock` | hc-rt/src/Common/InlineMemset.hpp:57-61 | two blocks fill every length from one to two block sizes |
| `Memset.SetBlockSeq` | hc-rt/src/Common/InlineMemset.hpp:43-49 | consecutive blocks fill their sum |
| `Memset.SetBlock` | hc-rt/src/Common/InlineMemset.hpp:37-41 | a splatted value stored byte by byte fills the block |
| `Memset.Small` | hc-rt/src/Common/InlineMemset.hpp:109-118 | lengths 1 to 4 are exact |
| `Memset.SplatByte` | hc-rt/src/Common/MemUtils.hpp:97-98 | for scalars of any width every byte of the splatted value is the given byte |
| `Memset.OnesIsQuotient` | hc-rt/src/Common/MemUtils.hpp:97-98 | the factor really is all ones divided by 255 |
| `Strlen.WideStrlen8` | hc-rt/xcrt/String/Utils.hpp:69-86 | the length is the index of the first zero byte for every start address; every wide read is aligned and starts at or before the terminator |
| `Strlen.WideStrlen16` | hc-rt/xcrt/String/Utils.hpp:69-86 | the same for 16-bit characters in 64-bit words; from an odd address no wide read happens |
| `Strlen.ReadBlock8` | hc-rt/xcrt/String/Utils.hpp:55-63 | for a read that starts at or before the terminator, the word test is true iff the terminator is one of its four bytes |
| `Strlen.Lanes8` | hc-rt/xcrt/String/Utils.hpp:55-63 | the word test is true iff some byte lane is zero, for every word |
| `Strlen.ReadBlock16` | hc-rt/xcrt/String/Utils.hpp:55-63 | the same for four 16-bit characters |
| `Strlen.Lanes16` | hc-rt/xcrt/String/Utils.hpp:55-63 | the word test is true iff some 16-bit lane is zero, for every word |
| `Strlen.RepeatByte8` | hc-rt/xcrt/String/Utils.hpp:44-53 | the loop is the repetition |
| `Strlen.RepeatByte16` | hc-rt/xcrt/String/Utils.hpp:44-53 | the loop is the repetition, of which the first half is shifted out |
| `Strlen.MasksAreRepeated8` | hc-rt/xcrt/String/Utils.hpp:57-60 | the two masks are 0x01 and 0x80 in every byte |
| `Strlen.MasksAreRepeated16` | hc-rt/xcrt/String/Utils.hpp:57-60 | the two masks are 0x0001 and 0x8000 in every 16-bit lane |
| `Align.UpIsNextPower` | hc-rt/include/Common/Align.hpp:48-56 | for widths 8, 16, 32 and 64, signed and unsigned, and every i: the result is the least power of two above i iff the top bit of i is clear; otherwise it wraps to 0 |
| `Align.SmearedIsMask` | hc-rt/include/Common/Align.hpp:25-39 | smearing gives the least all-ones value not below i |
| `Align.Smear` | hc-rt/include/Common/Align.hpp:25-39 | the successive or-shifts, skipped beyond the width, are the smear |
| `Align.UpEqIff` | hc-rt/include/Common/Align.hpp:57-61 | as written it gives the least power not below i iff i is nonzero, not itself a power of two, and has its top bit clear; so for no negative number |
| `Align.UpEqWitness` | hc-rt/include/Common/Align.hpp:41-46 | 8 is taken to 16, and 0 to 0, at every width, signed or not |
| `BitList.BitList.Get` | hc-rt/include/Parcel/BitList.hpp:63-66 | reads membership in the set the words stand for |
| `BitList.BitList.Assign` | hc-rt/include/Parcel/_BitRef.hpp:42-54 | adds or removes exactly one element |
| `BitList.BitList.SetBit` | hc-rt/include/Parcel/BitList.hpp:69-72 | adds exactly one element |
| `BitList.BitList.Flip` | hc-rt/include/Parcel/BitList.hpp:56-60 | toggles exactly one element and returns its new state |
| `BitList.BitList.Reset` | hc-rt/include/Parcel/BitList.hpp:43-52 | empties the set |
| `BitList.BitList.CountActive` | hc-rt/include/Parcel/BitList.hpp:75-80 | the sum of the word popcounts is the size of the set |
| `BitList.BitList.CountInactive` | hc-rt/include/Parcel/BitList.hpp:83-85 | as written: counts down from the number of words, in 64 bits |
| `BitList.InactiveIff` | hc-rt/include/Parcel/BitList.hpp:83-85 | as written the number of clear bits is right iff N is 1 |
| `BitList.InactiveWitness` | hc-rt/include/Parcel/BitList.hpp:83-85 | 64 clear bits: it answers 2 |
| `BitList.OneWordChanged` | hc-rt/include/Parcel/BitList.hpp:95-100 | changing one bit of one word changes one element of the set |
| `BitList.EmptySlotIsLowestClear` | hc-rt/include/Parcel/Skiplist.hpp:80-82 | for every word but the full one: the lowest clear bit |
| `Skiplist.Skiplist.InsertRaw` | hc-rt/include/Parcel/Skiplist.hpp:88-99 | takes the least free slot, at most the live count, constructs it, marks it, changes no other; lands behind the storage iff all N slots are live |
| `Skiplist.Skiplist.ChooseSlot` | hc-rt/include/Parcel/Skiplist.hpp:89-93 | the search finds the least free slot; it always finds one, because the last word has spare bits |
| `Skiplist.Skiplist.EraseRaw` | hc-rt/include/Parcel/Skiplist.hpp:101-111 | succeeds iff the pointer is non-null and its slot live; destroys and frees that slot alone |
| `Skiplist.Skiplist.DestroyAll` | hc-rt/include/Parcel/Skiplist.hpp:73-78 | the destructor leaves no constructed slot, and destroys each live one once |
| `Skiplist.Handle.Move` | hc-rt/include/Parcel/Skiplist.hpp:41-44 | the moved-from handle owns nothing |
| `Skiplist.Handle.Erase` | hc-rt/include/Parcel/Skiplist.hpp:46-54 | erases what the handle owns and leaves it null |
| `Skiplist.LeastFreeBound` | hc-rt/include/Parcel/Skiplist.hpp:88-99 | pigeonhole: the least free slot is at most the number of live ones |
| `Skiplist.LeastFreeInRange` | hc-rt/include/Parcel/Skiplist.hpp:88-99 | pigeonhole: the least free slot is below N iff fewer than N are live |
| `Skiplist.FullWitness` | hc-rt/include/Parcel/Skiplist.hpp:88-99 | a list for one value, asked for two: the second is constructed behind the storage |
| `Skiplist.Apply` | hc-rt/include/Parcel/Skiplist.hpp:36-111 | the calls on the list and its handle objects behind an insert, move, erase or handle destruction have the effect of one step, and keep the list and its handles managed |
| `Skiplist.StepOwned` | hc-rt/include/Parcel/Skiplist.hpp:36-59 | every step keeps: each live slot has exactly one owner, and constructions exceed destructions by one there and by none elsewhere |
| `Skiplist.PoolRun` | hc-rt/include/Parcel/Skiplist.hpp:36-111 | any run of calls has the effect of the run of steps, every live slot having its one owner afterwards |
| `Skiplist.RunOwned` | hc-rt/include/Parcel/Skiplist.hpp:36-59 | over any run of steps the same; and once all handles are gone nothing is live and every slot was destroyed as often as constructed |
| `Skiplist.Lifetimes` | hc-rt/include/Parcel/Skiplist.hpp:36-111 | from an empty list over any run of calls to its destructor: every slot has been destroyed exactly as often as constructed |
| `Skiplist.EraseSucceeds` | hc-rt/include/Parcel/Skiplist.hpp:50-54 | over any run of steps, erasing through a handle takes a slot away iff the handle is not null |
| `AtomicLazy.Safety` | hc-rt/include/Common/AtomicLazy.hpp:43-62 | any number of callers, any interleaving: at most one holds the lock, constructors never overlap, and whoever has returned did so after a finished construction |
| `AtomicLazy.OncePerFalseLoad` | hc-rt/include/Common/AtomicLazy.hpp:43-62 | constructions number at most the callers that begin before the flag is set, and exactly those when all have returned: once iff exactly one begins before |
| `AtomicLazy.FastOnceReady` | hc-rt/include/Common/AtomicLazy.hpp:44-45 | for all schedules a and b: if the flag is set after a and a call has not begun, then after a + b the flag is set and the call has returned by the fast path, or has not begun still |
| `AtomicLazy.EarlyAreSlow` | hc-rt/include/Common/AtomicLazy.hpp:43-62 | the callers that go through the lock are those that begin before the flag is set, one for one |
| `AtomicLazy.Progress` | hc-rt/include/Sys/AtomicMutex.hpp:36-41 | a caller waits only while another holds the lock, reading the lock word; any other step of it brings it nearer to its return, and no step of another takes it away from there |
| `AtomicLazy.CallEnds` | hc-rt/include/Common/AtomicLazy.hpp:43-52 | with the lock free, or its own, a caller that moves alone returns within six steps |
| `AtomicLazy.TwiceWitness` | hc-rt/include/Common/AtomicLazy.hpp:44-48 | two callers: one has returned while the other constructs again |
| `AtomicLazy.RecheckIsOnce` | hc-rt/include/Common/AtomicLazy.hpp:44-48 | with the flag loaded again under the lock there is at most one construction, and none runs after a return |
| `AtomicLazy.StepKeepsMutex` | hc-rt/include/Sys/AtomicMutex.hpp:32-45 | every step of the spin lock keeps: the lock word is set iff exactly one caller is inside |
| `AtomicLazy.StepKeepsInv` | hc-rt/include/Common/AtomicLazy.hpp:43-62 | every step keeps the count of constructions equal to the callers past theirs |
| `AtomicLazy.RunKeepsInv` | hc-rt/include/Common/AtomicLazy.hpp:43-62 | ... and so does every run |
| `Emutls.StepInv` | hc-rt/xcrt/Mingw/emutils.c:177-260 | every step of every thread keeps the mutex, index, memory, array and answer invariants together |
| `Emutls.RunExtends` | hc-rt/xcrt/Mingw/emutils.c:177-260 | no run changes an index or a non-null pointer once it is there |
| `Emutls.IndicesUniqueAndStable` | hc-rt/xcrt/Mingw/emutils.c:177-190 | over every interleaving: nonzero indices lie in 1..count, differ between controls and never change; while nobody has the mutex there are no gaps |
| `Emutls.SameAddressEveryTime` | hc-rt/xcrt/Mingw/emutils.c:254-260 | over every interleaving: a thread that asks for a control again gets the address it got before |
| `Emutls.CallIsAnswered` | hc-rt/xcrt/Mingw/emutils.c:254-260 | over every interleaving: from an idle step that names a control until it is idle again the thread is busy with that control, and then it has recorded the address of its own object for that control, and nothing else |
| `Emutls.CallEnds` | hc-rt/xcrt/Mingw/emutils.c:254-260 | with the mutex free, a thread that moves alone is answered for the control it asks for within ten steps |
| `Emutls.IndexedCallEnds` | hc-rt/xcrt/Mingw/emutils.c:177-190 | a call for a control that has its index never waits: whatever the others do and whoever has the mutex, it is answered once the thread has moved five times |
| `Emutls.Progress` | hc-rt/xcrt/Mingw/emutils.c:177-260 | a thread waits only for one that does not; any other step of it brings its call nearer to the end, and no step of another takes it away from there |
| `Emutls.DistinctAddresses` | hc-rt/xcrt/Mingw/emutils.c:254-260 | over every interleaving: no answer is null, and equal answers mean the same thread and the same control |
| `Emutls.GrowthKeepsPointers` | hc-rt/xcrt/Mingw/emutils.c:219-240 | the array afterwards covers the index, keeps every pointer, and is null where it is new; one that covers the index already is kept, and a new one is the smallest that does and fills blocks of 16 words |
| `Emutls.FetchAnswers` | hc-rt/xcrt/Mingw/emutils.c:254-260 | what is returned is what the slot of the index holds |
| `Emutls.NewDataArraySize` | hc-rt/xcrt/Mingw/emutils.c:203-209 | covers the index with at most 15 slots to spare, and makes header and data a multiple of 16 words |
| `ExportSearch.BSearch` | hc-rt/src/Bootstrap/COFFModule.cpp:55-69 | ends where Search says and terminates under truncating division; what it finds is the name; on sorted names, -1 iff the name is absent; every probe is in range except one last probe of -1, which happens iff the key precedes all names |
| `ExportSearch.SearchExact` | hc-rt/src/Bootstrap/COFFModule.cpp:55-69 | on names in the order of the runtime's own comparison the search finds a name iff it is there |
| `ExportSearch.SearchIff` | hc-rt/src/Bootstrap/COFFModule.cpp:55-69 | on names in any order, one that occurs once is found iff every name that the search meets on the way points towards it |
| `ExportSearch.SortedIff` | hc-rt/src/Bootstrap/COFFModule.cpp:55-69 | names sorted on unsigned characters, as the linker does, are in the order of the runtime iff every pair is decided by characters of one half |
| `ExportSearch.GuidedIff` | hc-rt/src/Bootstrap/COFFModule.cpp:55-69 | on names in the linker's order the search is guided to a name iff every name that it meets on the way is told from it by characters of one half |
| `ExportSearch.MissedIff` | hc-rt/src/Bootstrap/COFFModule.cpp:55-69 | so on such names a name is missed iff the search meets one on the way to it that is told from it across the halves |
| `ExportSearch.UnsignedWitness` | hc-rt/src/Bootstrap/COFFModule.cpp:55-69 | "a" then 0x80: the second is there and not found |
| `Bytes.StrCmpWitness` | hc-rt/xcrt/String/XStrcmp.cpp:23-27 | 0x80 against 1: negative, where the standard asks for positive |
| `Bytes.StrCmpSignIff` | hc-rt/xcrt/String/XStrcmp.cpp:23-27 | strcmp, which subtracts signed characters, has the sign of the standard one iff the characters that decide are both below 0x80 or both not; zero is never in question |
| `ExportSearch.Resolve` | hc-rt/src/Bootstrap/COFFModule.cpp:41-53 | on names in any order: null iff the search ends nowhere or at an address of 0, else the address that ordinal and address table have at that position, which holds the key; on sorted names, for a name that is there, its address if that is not 0, else null |
| `StubParser.DecodesStub` | hc-rt/src/Bootstrap/StubParser.cpp:58-78 | any list of supported instructions followed by a return: exactly the instruction boundaries are visited and the result is the immediate of the last mov eax, unless there is none, it is all ones, or no system call occurs |
| `StubParser.ReadsStub64` | hc-rt/src/Bootstrap/StubParser.cpp:58-78 | in literal bytes: the stub mov r10, rcx / mov eax / test / jne / syscall / ret gives the little-endian number of its four immediate bytes, and SyscallNotFound iff all are FF |
| `StubParser.RefusesStub32` | hc-rt/src/Bootstrap/StubParser.cpp:58-78 | in literal bytes: the stub mov eax / mov edx / call edx / ret gives SyscallNotFound, whatever its number |
| `StubParser.TablesAreRight` | hc-rt/include/Bootstrap/StubParser.hpp:35-85 | the first byte and the length of every instruction are those of its encoding, given in literal bytes |
| `StubParser.RejectsStub` | hc-rt/src/Bootstrap/StubParser.cpp:65-68 | the same list followed by a return with operand, or by a byte no instruction starts with: the matching error, whatever came before |
| `StubParser.WalksEncoding` | hc-rt/src/Bootstrap/StubParser.cpp:58-78 | parsing an encoded list from any state is continuing from the state after it, whatever follows |
| `StubParser.DoParsing` | hc-rt/src/Bootstrap/StubParser.cpp:58-78 | the loop is the recursive parser those properties are about |
| `StubParser.AfterMeans` | hc-rt/src/Bootstrap/StubParser.cpp:58-78 | what the state after a list is: position, last immediate, system call seen |
| `StubParser.AfterVisits` | hc-rt/src/Bootstrap/StubParser.cpp:58-78 | the positions looked at are the starts of the instructions, one for each |
| `StubParser.FirstByteIdentifies` | hc-rt/src/Bootstrap/StubParser.cpp:87-106 | the first byte tells every instruction apart, except that sysenter is taken for syscall |
| `StubParser.Identified` | hc-rt/include/Bootstrap/StubParser.hpp:63-85 | for every instruction a stub may contain, what its first byte is taken for has the length of its encoding |
| `IOFile.ReadRun` | hc-rt/src/Sys/IOFile.cpp:78-140 | over any run of reads: delivered bytes, then the buffered rest, then the unread device bytes are the original stream; all reads are complete iff the device never gave less than was needed; err is newly set iff it reported an error, eof iff it fell short without one; and when it always gives what it can, the run delivers all that was asked for or all there is |
| `IOFile.File.Read` | hc-rt/src/Sys/IOFile.cpp:78-140 | the same for one call: the device is asked, once and for how much, iff less is buffered than asked for, and count, error code, eof, err are those of its answer; a generous answer gives the lesser of what is asked for and what there is; nothing behind the delivered bytes is touched, and a file that cannot be read fails unchanged |
| `IOFile.File.ReadDirect` | hc-rt/src/Sys/IOFile.cpp:110-123 | a remainder larger than the buffer is read past it |
| `IOFile.File.ReadRefill` | hc-rt/src/Sys/IOFile.cpp:125-139 | otherwise the buffer is refilled, and what is not delivered stays buffered |
| `IOFile.WriteRun` | hc-rt/src/Sys/IOFile.cpp:142-159 | over any run of writes without a device fault: device output followed by the pending bytes is the concatenation of everything written |
| `IOFile.File.Write` | hc-rt/src/Sys/IOFile.cpp:142-159 | device output grows by a prefix of pending-plus-new bytes; if the last answer of the device was short, or an error on the buffered path, the buffer is dropped and the count is exactly this call's bytes on the device, with err set; else the rest is pending, all is reported and err is as before. The error code is that of the last answer. A file that cannot be written fails unchanged. A count that falls short comes without an error code iff a device call was cut short without one |
| `IOFile.File.WriteFull` | hc-rt/src/Sys/IOFile.cpp:219-284 | the same in full-buffer mode; a write that fits never reaches the device |
| `IOFile.File.WriteAcross` | hc-rt/src/Sys/IOFile.cpp:248-281 | the branch that fills the buffer, hands it over and starts it again |
| `IOFile.File.WriteNone` | hc-rt/src/Sys/IOFile.cpp:193-212 | the unbuffered path: pending bytes first, then the data |
| `IOFile.File.Flush` | hc-rt/src/Sys/IOFile.cpp:161-178 | as written it hands over the whole buffer: output plus pending is conserved iff there was nothing to flush, or the device took nothing, or exactly the pending bytes; on a faultless device iff nothing was pending or the buffer was full. With the pending part handed over instead, always. The error code is the device's |
| `IOFile.FlushWitness` | hc-rt/src/Sys/IOFile.cpp:163-164 | one byte written to a four-byte buffer: the flush sends four |
| `IOFile.ShortWriteWitness` | hc-rt/src/Sys/IOFile.cpp:207-211 | one byte on an unbuffered file, and a device that takes none and reports nothing: no error is returned, and err is set |
| `IOFile.ParseModeFlags` | hc-rt/src/Sys/IOFile.cpp:39-76 | a mode string is accepted iff one of r, w, a stands in front and only +, b, x behind it, and the flags say which letters occur |
| `IOFile.ModeRights` | hc-rt/src/Sys/IOFile.hpp:122-134 | the rights of a file are those of section 7.21.5.3 of ISO C11 iff it is not opened with "a" without "+" |
| `IOFile.AppendWitness` | hc-rt/src/Sys/IOFile.hpp:122-134 | "ab" can be read and cannot be written |
| `FileRuns.FileRun` | hc-rt/src/Sys/IOFile.cpp:78-178 | over any run of writes, reads and flushes, up to the first device fault: the input is conserved, the reads are complete iff the device never gave less than was needed, and take all they can of a generous one; the flags are set as the device said; without a fault the output is longer than what was written by exactly the excess of the flushes, and is what was written iff every flush came with nothing pending or a full buffer, or hands over the pending part |
| `FileRuns.ExcessIff` | hc-rt/src/Sys/IOFile.cpp:161-178 | the excess of a run, computed from the lengths of its calls, is zero iff that is so |
| `IOFile.File.constructor` | hc-rt/src/Sys/IOFile.hpp:236-242 | a readable file always has a buffer of at least one byte |
| `StringTable.Table.InsertAppend` | hc-rt/src/Parcel/StringTable.cpp:72-100 | append mode: a string that fits is put behind all others even if it is there already; one that does not fit changes nothing, and on a table in order already exists iff it is there; the empty string only sets a flag; earlier strings read as before |
| `StringTable.Table.InsertSorted` | hc-rt/src/Parcel/StringTable.cpp:72-100 | sorted mode, on a table in order: with room, everything BinaryInsert promises; without, nothing changes, and alreadyExists iff the string is there; the empty string only sets a flag |
| `StringTable.Table.BinaryInsert` | hc-rt/src/Parcel/StringTable.cpp:279-384 | alreadyExists iff the string is present, and then nothing changes. Else, n entries and rank r: success with a valid table, and with every old entry kept, iff the tail behind the landing is slid as a whole, which as written means fewer than 8 entries; success with a valid table in order iff InsertsWell(n, r); strictly in order iff, besides, it was before; then the strings are the old ones with the new one at r |
| `StringTable.Table.NewStringMeans` | hc-rt/src/Parcel/StringTable.cpp:345-383 | how those equivalences follow from where the entry was put |
| `TableRuns.InsertStep` | hc-rt/src/Parcel/StringTable.cpp:72-100 | one insertion into a table that is kept sorted leaves it valid and strictly in order iff StepsWell, which is computed from the strings before; then answer and strings are those meant |
| `TableRuns.SortedRun` | hc-rt/src/Parcel/StringTable.cpp:72-100 | over the first n calls of any sorted-mode run of which at most the last is not StepsWell, or of any run once repaired: the table is kept sorted iff all n are, and then it holds the strings meant, strictly in order, and every answer is the one meant |
| `TableRuns.FirstLapse` | hc-rt/src/Parcel/StringTable.cpp:72-100 | a run is StepsWell throughout iff none of its calls is the first that is not, so the table is kept sorted after every call iff RunsWell |
| `TableRuns.RunHolds` | hc-rt/src/Parcel/StringTable.cpp:72-100 | those strings are the ones from before and the ones stored since |
| `TableRuns.AlreadyExistsIff` | hc-rt/src/Parcel/StringTable.cpp:72-100 | the answer meant to a nonempty string is alreadyExists iff it was there at the start or was stored since |
| `StringTable.Table.Bisect` | hc-rt/src/Parcel/StringTable.cpp:302-343 | the bisection with its final check finds the string iff it is there, and otherwise lands where Landing says |
| `SortedInsert.LandingIff` | hc-rt/src/Parcel/StringTable.cpp:307-333 | repaired, it lands on the rank; as written one before it iff it probes the rank itself from an interval starting before it |
| `SortedInsert.Slide` | hc-rt/src/Parcel/StringTable.cpp:348-376 | in place: repaired, every entry of a tail of any length moves up one slot; as written every ninth one does not, and the slide leaves the table iff the tail is 8, 17, 26, ... long |
| `SortedInsert.InsertionIff` | hc-rt/src/Parcel/StringTable.cpp:348-380 | slide and store equal insertion at the rank iff the landing is right and the tail is slid as a whole |
| `InsertOutcome.SlideOutcome` | hc-rt/src/Parcel/StringTable.cpp:336-380 | landing and slide together: insertion at the rank iff InsertsWell, and leaving the table only outside it |
| `StringTable.Table.SlideIn` | hc-rt/src/Parcel/StringTable.cpp:345-383 | the new table is the slid one with the new entry stored at the landing, the string appended to the buffer |
| `SortedInsert.KeepsIff` | hc-rt/src/Parcel/StringTable.cpp:348-380 | slide and store keep every old entry iff the tail is slid as a whole: always repaired, under 8 entries as written |
| `SortedInsert.LosesEntry` | hc-rt/src/Parcel/StringTable.cpp:348-380 | as written, with 8 or more entries, the ninth from the end is gone |
| `InsertOutcome.ArrangedIff` | hc-rt/src/Parcel/StringTable.cpp:348-380 | and the table is an arrangement of the right entries iff the same holds |
| `InsertOutcome.OrderedIff` | hc-rt/src/Parcel/StringTable.cpp:302-380 | it is one, and in order, iff InsertsWell |
| `InsertOutcome.StrictIff` | hc-rt/src/Parcel/StringTable.cpp:302-380 | and strictly in order iff, besides, it was before |
| `InsertOutcome.PlacedInside` | hc-rt/src/Parcel/StringTable.cpp:302-380 | all of this for a string that goes in front of others |
| `InsertOutcome.PlacedLast` | hc-rt/src/Parcel/StringTable.cpp:286-300 | and for a new greatest string |
| `InsertOutcome.LandingWitness` | hc-rt/src/Parcel/StringTable.cpp:307-333 | "a", "c" and a new "b": the landing is in front of "a" |
| `InsertOutcome.SlideWitness` | hc-rt/src/Parcel/StringTable.cpp:348-376 | a new least string: in front of nine entries one is lost, in front of eight the slide leaves the table |
| `StringTable.Table.AppendLast` | hc-rt/src/Parcel/StringTable.cpp:286-300 | a string greater than the last goes behind it, and the table stays in order |
| `StringTable.Table.BinarySearch` | hc-rt/src/Parcel/StringTable.cpp:402-446 | what is found is the string; on a table in order it is found iff present |
| `StringTable.CompareIsCmp` | hc-rt/src/Parcel/StringTable.cpp:422-433 | length first, strncmp second is the shortlex order, zero iff equal, on strings without a NUL |
| `StringTable.Table.InsertFull` | hc-rt/src/Parcel/StringTable.cpp:79-91 | without room: atCapacity on a table that does not count as sorted; on one that does and is in order, alreadyExists iff the string is there, and then the entry of that string |
| `StringTable.Table.AppendAny` | hc-rt/src/Parcel/StringTable.cpp:259-277 | on a buffer of any size: the entry is the intended one, and the table stays an arrangement of the right entries, iff offset and length are below 65536; no byte in use changes |
| `StringTable.Table.AppendIter` | hc-rt/src/Parcel/StringTable.cpp:267-277 | the same for the entry alone |
| `StringTable.ReadableIff` | hc-rt/src/Parcel/StringTable.cpp:73 | a string is free of NULs once it is cut iff it was, or ends in one |
| `StringTable.DropNullMeans` | hc-rt/src/Parcel/StringTable.cpp:73 | a string without NULs is kept, also when NULs and more stand behind it up to a last NUL |
| `StringTable.Table.AppendDirect` | hc-rt/src/Parcel/StringTable.cpp:259-277 | the history, the strings and the entries all grow by the new one at their ends; bytes in use never change |
| `StringTable.Table.Resolve` | hc-rt/src/Parcel/StringTable.cpp:229-235 | an entry resolves to a string of the history |
| `StringTable.Table.EntryOf` | hc-rt/src/Parcel/StringTable.cpp:229-235 | every entry of the table is the entry of one stored string, and resolves to it |
| `TableRuns.TableRun` | hc-rt/src/Parcel/StringTable.cpp:72-100 | over any run of append-mode insertions, sorts and unsorts: the strings stored are those from before and every one added that fitted, in that order; the buffer is these with nothing between, the entries are an arrangement of theirs, and whatever an entry resolved to it still does |
| `StringTable.Table.ShortlexSort` | hc-rt/src/Parcel/StringTable.cpp:182-191 | as written: the table comes out in shortlex order iff no entry is misled on its way in; with terminators iff no string comes, as a C string, in front of the greatest earlier one that is not greater; entries are only permuted |
| `TableOrder.ShortlexIff` | hc-rt/src/Parcel/_StrTblSortSlow.hpp:50-66 | the comparator as written sorts into shortlex order iff it calls no entry less than the greatest earlier one that is not greater, and then it sorts just as the intended one |
| `TableOrder.AgreesUnlessLonger` | hc-rt/src/Parcel/_StrTblSortSlow.hpp:51-66 | the comparator as written is right unless the left string is longer, and then it only errs towards "less" |
| `TableOrder.ComparesStrings` | hc-rt/src/Parcel/_StrTblSortSlow.hpp:51-66 | on terminated entries it says "less" iff the left string is shorter, or comes first as a C string |
| `TableOrder.ComparesBehind` | hc-rt/src/Parcel/_StrTblSortSlow.hpp:57-65 | in general, with a left string that is not shorter: iff that comes first against as many characters at the right offset, up to a NUL |
| `TableOrder.TerminatedIff` | hc-rt/src/Parcel/_StrTblSortSlow.hpp:50-66 | so on terminated entries whether the sort works is told from the strings alone: none may come, as a C string, in front of the greatest earlier one that is not greater |
| `TableOrder.RightWitness` | hc-rt/src/Parcel/_StrTblSortSlow.hpp:57-65 | "b" then "cc" stay as they are, in the right order |
| `TableOrder.StillIff` | hc-rt/src/Parcel/_StrTblSortSlow.hpp:50-66 | on terminated entries the sort moves nothing iff no string is shorter than, or comes as a C string before, the one in front of it |
| `TableOrder.SortWitness` | hc-rt/src/Parcel/_StrTblSortSlow.hpp:53-56 | "b" then "aa" come out in the wrong order |
| `TableOrder.SortsOneLength` | hc-rt/src/Parcel/_StrTblSortSlow.hpp:50-66 | strings of one length are always sorted correctly |
| `MisledSort.NearestMeans` | hc-rt/src/Parcel/_StrTblSortSlow.hpp:78-99 | the entry that the next one should stop behind: the greatest of the earlier ones that is not greater |
| `MisledSort.NearestIsBeforePlace` | hc-rt/src/Parcel/_StrTblSortSlow.hpp:78-99 | found by one pass over the entries as they came, it is the one in front of the place in the sorted list |
| `MisledSort.SortsIff` | hc-rt/src/Parcel/_StrTblSortSlow.hpp:78-99 | insertion sort with any comparator that errs only towards "less" sorts iff no entry is called less than the one it should stop behind |
| `TableSort.InsertionSort` | hc-rt/src/Parcel/_StrTblSortSlow.hpp:78-99 | in place: the swaps carry out the recursive insertion sort on the used part and touch nothing else; false means nothing moved |
| `TableSort.SortIsPermutation` | hc-rt/src/Parcel/_StrTblSortSlow.hpp:78-99 | whatever the comparator, the entries are only permuted |
| `StringTable.Table.Unsort` | hc-rt/src/Parcel/StringTable.cpp:193-217 | insertion order is restored if the table counts as sorted, and otherwise the entries stay as they are |
| `TableSort.SortMovesNothingIff` | hc-rt/src/Parcel/_StrTblSortSlow.hpp:78-99 | whatever the comparator, the sort moves nothing iff no entry is called less than the one in front of it |
| `TableSort.UnsortLoop` | hc-rt/src/Parcel/StringTable.cpp:206-213 | in place: the shifting loop is insertion sort by offset |
| `TableSort.AscendingUnique` | hc-rt/src/Parcel/StringTable.cpp:206-213 | the offsets being different, there is only one arrangement in ascending order |
| `TableLayout.UnsortUndoesSort` | hc-rt/src/Parcel/StringTable.cpp:182-217 | sort then unsort is the identity on a table of appends, whatever the comparator |
| `TableRuns.SortAndBack` | hc-rt/src/Parcel/StringTable.cpp:182-217 | the same for the two calls on a table |
| `TableRuns.AddAndBack` | hc-rt/src/Parcel/StringTable.cpp:93-96 | after an append, unsort leaves insertion order iff the table had it before the append |
| `TableRuns.SortAddAndBack` | hc-rt/src/Parcel/StringTable.cpp:182-217 | sort, append, unsort gives insertion order iff, before, no entry was called less than the one in front of it; with terminators that is told from the strings |
| `TableRuns.UnsortWitness` | hc-rt/src/Parcel/StringTable.cpp:182-217 | "b" then "a" is a table on which that fails |
| `TableLayout.EntriesTile` | hc-rt/src/Parcel/StringTable.cpp:267-277 | entry k starts where the strings before it end, ends where the next begins, and resolves to string k |
| `TableLayout.LayoutAscending` | hc-rt/src/Parcel/StringTable.cpp:267-277 | offsets grow strictly in order of insertion and stay inside the buffer |
| `TableLayout.NewIdxWitness` | hc-rt/include/Parcel/StringTable.hpp:32-35 | one byte at offset 65536 gets the entry of one at offset 0 |
| `TableLayout.NewIdxIff` | hc-rt/include/Parcel/StringTable.hpp:32-35 | a 16-bit entry is right iff offset and length are both below 65536 |
| `Shortlex.CmpTransitive` | hc-rt/src/Parcel/StringTable.cpp:422-433 | shortlex is transitive |
| `Shortlex.CmpAntisymmetric` | hc-rt/src/Parcel/StringTable.cpp:422-433 | shortlex is antisymmetric |
| `Shortlex.CmpEqual` | hc-rt/src/Parcel/StringTable.cpp:422-433 | only equal strings compare equal |
| `Shortlex.StrNCmpIsCharCmp` | hc-rt/src/Parcel/StringTable.cpp:433 | on strings of one length without NUL, strncmp is the character-wise comparison |
| `Shortlex.StrNCmpMeans` | hc-rt/xcrt/String/Utils.hpp:192-204 | wherever it finds n characters or a NUL, strncmp compares two C strings of at most n characters |
| `Shortlex.CharCmpWitness` | hc-rt/xcrt/String/XStrncmp.cpp:23-27 | 0x80 against 1: negative, where the byte-wise comparison is positive |
| `Shortlex.CharCmpSignIff` | hc-rt/xcrt/String/XStrncmp.cpp:23-27 | which, on signed characters, has the sign of the byte-wise one iff the characters that decide are both below 0x80 or both not, and is zero with it |
| `Shortlex.InsertAtRankSorted` | hc-rt/src/Parcel/StringTable.cpp:336-380 | inserting an absent string at its rank keeps a list in order |
| `Shortlex.InsertAtRankStrict` | hc-rt/src/Parcel/StringTable.cpp:336-380 | and it is strictly in order afterwards iff it was before |
| `Shortlex.StrictlySortedIff` | hc-rt/src/Parcel/StringTable.cpp:336-380 | strictly in order is in order without repetition |

## Left out

- Array-typed `load`, and vector registers in `memset`, whose larger blocks are modelled as arrays of words.
- `neq` in MemUtils (it loads the left side twice): nothing in the modelled paths calls it.
- Weak memory: the lock, the lazy initialiser and emulated TLS take sequentially consistent steps.
- `AtomicLazy::dtor`: it takes the flag back, after which nothing is promised about earlier references.
- Prefetch hints, page faults of wide reads, and what the compiler may assume about aligned pointers.
- Overlapping `memcpy` ranges: the pointers are declared restrict, so the model requires disjoint ranges.
- `find_first_char` and the byte-wise string functions: one-step loops without a property of their own.
- Strings with a NUL inside: `strncmp` stops at it, so the table members require strings that are NUL-free once a trailing NUL is cut.
- Explicit empty strings in the table (unfinished in the source), `pop`, `clear`, and the fast sort (guarded by an error directive).
- StringTable.Table.AppendDirect: this and the members that use it are about buffers of at most 65535 bytes, where no entry is cut; AppendAny is about any.
- Signed overflow of the subtraction in `has_zeros`, which is not defined in C++: the model wraps around.
- StringTable.Table.BinaryInsert: does not say what memory holds after `Fault`, as the slide has then written outside the table.
- StringTable.Table.InsertSorted: requires a table that is in order, the source's own invariant, which one insertion outside InsertsWell breaks; TableRuns.SortedRun therefore follows a run up to and including the first such step, and to its end when the two lines are repaired.
- Skiplist.Apply: an insertion into a full list is not a step, as it writes behind the storage.
- Line-buffered mode, `seek`, `tell` (unimplemented in the source) and locking of files.
- IOFile.File.Read: requires that no unflushed write is pending, as section 7.21.5.3 of ISO C11 does; Write likewise for unread input.
- IOFile.WriteRun: speaks of runs without a device fault; Write says for each call what a fault loses.
- FileRuns.FileRun: what it says of the output is for runs without a device fault; Flush says for each call what a fault loses.
- The device functions for Windows: the device is an object that takes or gives a prefix and may fail.
- Allocation failure, 64-bit wrap-around of sizes, alignment of objects and per-thread destructors in emulated TLS; allocation always gives a new address.
- Emutls.IndicesUniqueAndStable: the counter is unbounded, as 2^64 controls cannot exist.
- StubParser.DecodesStub: stubs are byte sequences that end; a stub without any end is the result RanOff of the model, where the source reads on.
- System-call tables, loader lists, exceptions, paths, the driver and dumper programs: foreign state or printing.
