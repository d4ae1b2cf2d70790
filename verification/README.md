# Verified model of the XPCIe driver and its tools

The repository is a Linux driver for a PCIe DMA card with a few user-space tools.  This project models its
five stateful parts in Dafny and proves what each of them is for.

* **A DMA write** (`driver/xpcie.c`): a user buffer is pinned page by page (`ScatterGather`), the mapped
  scatterlist is coalesced into descriptors that are chained, terminated and given adjacent counts
  (`Descriptors`, `Transfer`), a device reads them back in bursts (`Engine`), and `HostToCard` puts the
  whole of `xpcie_h2c_write` together.  The result: the write returns exactly when the kernel serves all
  its requests, it leaves no page pinned, and the descriptors tell the engine to move byte k of the buffer
  to end point address `*ppos + k`, each byte once and in order; the engine gets to read them all from a
  little-endian host, and from a big-endian one under an exact condition.  `Lengths` says when their
  lengths are multiples of 4.
* **The hexadecimal dump** (`app/LogUtils.cpp`): `HexDump` holds the printer as a loop over a buffer and
  the text that it prints; `Suppression` relates the printed lines to the run-length encoding of the
  buffer; `PrintedForm` says what each character shows and `DumpDecoder` reads them back; `Printf` covers
  the number formats (`%.8lX`, `%.2X` and `%ld` of section 7.19.6.1 of ISO C99).
* **A shared counter** (`app/Lock.h`, `app/Lock.cpp`): `LockMachine` is a transition system of any number
  of threads over a reader-writer lock, `++` and `--` being a load and a store, with the history of
  invocations and returns; `LockRuns` proves properties of all its runs; `LockClasses` has the methods
  themselves.
* **Register access** (`app/reg_rw.c`): `Registers` reads and writes 1, 2 or 4 bytes of a mapped window on
  a little- or a big-endian host; `Words` has the byte orders and swaps.
* **The thread object** (`app/Thread.cpp`): `ThreadLife` relates its two flags to the life of the thread.

`driver/xpcie.c` is not UTF-8 text.  Rows of the table about it give the declaration or requirement in
`driver/xpcie.h`, and the lines of the body in the last column.

`Basics` and `Arithmetic` hold shared types and a few facts about division.

## Findings

* `xpcie_h2c_write` has no error path.  A write of no bytes, pages that cannot be pinned, a failed mapping
  or a failed allocation end in a null pointer or a `BUG_ON`; `HostToCard.Write` says exactly when.
* `transfer_start` converts register values with `cpu_to_le32` although the register write converts them
  too.  On a little-endian host that is harmless.  On a big-endian host the engine reads the list exactly
  when it is a single descriptor at an address whose halves read the same in both byte orders
  (`Engine.StartsRight`), and of two or more descriptors it reads nothing (`Engine.StartsNothing`, with the
  instance `HostToCard.BigEndianStartsNothing`).  This takes the device to use all 32 bits of
  `first_desc_adjacent` and to refuse a burst beyond 4 KiB: the header does not say how wide the count is,
  and a device that kept its low bits only would read such a list too if its address is symmetric.
* Coalescing is bounded by one page below the largest descriptor, so descriptors fit the hardware for all
  scatterlists if and only if entries have at most a page (`Transfer.PageIsTheExactBound`), and their
  lengths are right for all scatterlists if and only if no entry reaches 2^32 - 258047 bytes
  (`Transfer.WrapIsTheExactBound`).
* `sgm_get_user_pages` leaves a block of range checks disabled (lines 167-174 of `driver/xpcie.c`).  The
  number of pages and the room for them come out right without the checks against wrap-around and against
  `max_pages` with 64-bit addresses, as long as the pages can be counted in an `int`
  (`ScatterGather.PagesFitOn64`).  With 32-bit addresses they do exactly if the buffer does not wrap around
  the address space (`ScatterGather.PagesFitOn32`).  The check against an empty
  buffer would come too late, as the missing mapper has been read by then.
* A `Thread` may be started again, but after its first release only `join` releases another thread, neither
  `detach` nor the destructor (`ThreadLife.OnlyJoinReleasesAgain`).  All threads of an object are released
  in the end if and only if no start replaced an unreleased thread and a thread left unreleased at
  destruction is the only one the object ever had and is then detached (`ThreadLife.AllReleased`, with
  instances in `ThreadLife.RestartLeaks`).
* A comment asks that the lengths of descriptors be multiples of 4 (line 942 of `driver/xpcie.c`), but no
  code sees to it.  They are, however the kernel maps and merges the pages, if and only if the count is one
  and the buffer lies in one page or starts at a multiple of 4 (`Lengths.AlignedExactly`); a single byte,
  and eight bytes across a page boundary, are instances where they are not (`Lengths.Unaligned`).  What
  the engine does with other lengths is not modelled, so `HostToCard.Write` is to be read with this
  condition, which it carries over to its descriptors.
* Another comment has `sgm_get_user_pages` return -1 on failure (line 143); it returns `-ENOMEM`
  (`ScatterGather.Mapper.GetUserPages`).
* Given a type but no data, `app/reg_rw.c` announces a write (line 64) although it reads (line 98).  Only
  the message is wrong; the model, which leaves messages out, reads.

## Model

| member | source | states |
|---|---|---|
| HostToCard.Write | driver/xpcie.h:323-352 | the write returns if and only if every request to the kernel is served; then all pages are unpinned; the list lies at the bus address allocated for it, is linked from there in memory order, ends with control word 0xAD4B0013 and sets no other flag; its moves are the bytes of the buffer in order to consecutive end point addresses, in no more descriptors than gaps and sizes demand; descriptors fit when mapped entries have at most a page, their lengths are multiples of 4 under the condition for that and only if the count is one; the device is told that address, or its byte-reversed halves by a big-endian host, and reads the whole list exactly under the stated condition on byte order; a write that crashes leaves the pages pinned if it had got them all (body: `driver/xpcie.c`, lines 1206-1285) |
| HostToCard.SomeKernelServes | driver/xpcie.h:323-352 | for any buffer of a 64-bit size there is a kernel that keeps its contracts and serves the write (body: `driver/xpcie.c`, lines 1206-1285) |
| HostToCard.Describe | driver/xpcie.h:283-352 | the five steps from allocation to the start registers leave exactly the intended list in memory, and the engine then reads all of it exactly if it is startable (body: `driver/xpcie.c`, lines 1237-1267) |
| HostToCard.MapMovesBuffer | driver/xpcie.h:323-352 | for any pinned pages and any order-preserving DMA mapping, the coalesced blocks move byte k of the buffer to end point address plus k (body: `driver/xpcie.c`, lines 1219-1250) |
| HostToCard.FinishedAsIntended | driver/xpcie.h:283-306 | after allocation, filling, termination and adjacency marking, each descriptor read as little-endian words has the intended magic, flags, adjacent count, addresses and next pointer, on both kinds of host |
| HostToCard.IntendedIsReadable | driver/xpcie.h:283-290 | the list is linked in memory order, stops at its last descriptor only, and no adjacent count lets a burst leave the list or cross 4 KiB |
| HostToCard.IntendedControls | driver/xpcie.h:143-158 | the last control word is 0xAD4B0013 and its next pointer null; the others have the magic number, no flag, and an adjacent count as large as the list, the page and the hardware allow (body: `driver/xpcie.c`, lines 1129-1168) |
| HostToCard.NeverSplit | driver/xpcie.h:117-118 | neighbouring descriptors of a write are separate only for a gap in memory or because the first has grown beyond 258047 bytes (body: `driver/xpcie.c`, lines 1012-1024) |
| HostToCard.SegMovesAreOnto | driver/xpcie.h:335-346 | entry by entry, the bytes go to consecutive end point addresses (body: `driver/xpcie.c`, lines 990-1054) |
| HostToCard.SameMoves | driver/xpcie.h:283-298 | an engine that follows the descriptors moves what their blocks describe (body: `driver/xpcie.c`, lines 948-971) |
| Engine.BurstsRefineLinks | driver/xpcie.h:286-287 | whatever the adjacent counts say, reading in bursts either fails or sees exactly the descriptors the next pointers lead to |
| Engine.BurstsReachTheEnd | driver/xpcie.h:286-287 | with counts that can be honoured, reading succeeds exactly when its first burst is allowed, and then gives the whole rest of the list |
| Engine.AdjacentCountIsSafe | driver/xpcie.h:286-287 | the count written stays within the list and within 4 KiB, and is as large as those two and the hardware limit allow (body: `driver/xpcie.c`, lines 1143-1168) |
| Engine.WriteRegisters | driver/xpcie.h:205-215 | from a little-endian host the device gets the list's address and a first burst of at most sixteen descriptors, from a big-endian one those words with their bytes reversed; it then reads any well-formed list exactly if that is startable (body: `driver/xpcie.c`, lines 597-618) |
| Engine.WriteRegister | driver/xpcie.h:104-106 | the register write by itself gets any value across on either host (body: `driver/xpcie.c`, lines 405-408) |
| Engine.StartsRight | driver/xpcie.h:98-106 | after the doubly converted writes the engine reads the whole list if and only if the host is little-endian, or there is one descriptor at an address with symmetric halves (body: `driver/xpcie.c`, lines 597-618) |
| Engine.StartsNothing | driver/xpcie.h:98-106 | after the same writes by a big-endian host it reads nothing of a list of two or more (body: `driver/xpcie.c`, lines 597-618) |
| HostToCard.BigEndianStartsNothing | driver/xpcie.h:98-106 | two descriptors for two pages: read in full after a little-endian start, not at all after a big-endian one (body: `driver/xpcie.c`, lines 597-618) |
| Engine.ConvertedAlike | driver/xpcie.h:104-106 | a value survives the superfluous conversion exactly on a little-endian host or if its bytes are symmetric (body: `driver/xpcie.c`, lines 405-408) |
| Transfer.CoalescingKeepsMoves | driver/xpcie.h:283-298 | descriptor by descriptor the same bytes go to the same end point addresses in the same order as entry by entry, addresses wrapping at 64 bits (body: `driver/xpcie.c`, lines 974-1071) |
| Transfer.CoalescingIsMaximal | driver/xpcie.h:283-287 | two neighbouring descriptors are separate only because memory is not contiguous or because the first could not take another page (body: `driver/xpcie.c`, lines 1012-1024) |
| Transfer.ForcedApart | driver/xpcie.h:283-287 | when forced apart, every entry gets a descriptor of its own (body: `driver/xpcie.c`, lines 1021-1022) |
| Transfer.NonIncrementing | driver/xpcie.h:283-287 | in the non-incrementing mode the descriptors are those of the incrementing one, but all have the one end point address (body: `driver/xpcie.c`, lines 1039-1046) |
| Transfer.DescriptorsFit | driver/xpcie.h:117-118 | entries of at most a page never give a descriptor longer than the hardware takes |
| Transfer.PageIsTheExactBound | driver/xpcie.h:117-118 | descriptors fit for every list of entries up to a limit if and only if the limit is at most a page; the failing list is a buffer at page offset 1 whose last entry is a page and a byte |
| Transfer.WrapIsTheExactBound | driver/xpcie.h:294 | descriptors move the bytes of every list of entries up to a limit if and only if such an entry cannot make the 32-bit block length wrap (body: `driver/xpcie.c`, lines 1007-1008) |
| Lengths.AlignedExactly | driver/xpcie.h:292-294 | every descriptor has a multiple of 4 as its length, however pages are mapped and merged, if and only if the count is one and the buffer lies in one page or starts at a multiple of 4 (requirement and body: `driver/xpcie.c`, lines 942 and 974-1071) |
| Lengths.EntriesAlignedExactly | driver/xpcie.h:325-326 | the same condition for the parts of the buffer in its pages (body: `driver/xpcie.c`, lines 210-253) |
| Lengths.JoinedAligned | driver/xpcie.h:292-294 | joining entries of such lengths gives descriptors of such lengths, in every mode (body: `driver/xpcie.c`, lines 974-1071) |
| Lengths.Unaligned | driver/xpcie.h:292-294 | one byte at a page start gives a descriptor of length 1; eight bytes across a page boundary may give lengths 2 and 6 (body: `driver/xpcie.c`, lines 974-1071) |
| Transfer.AllocateChain | driver/xpcie.h:283-290 | each descriptor of the new chain points at the one behind it in memory, the last nowhere, with the adjacent counts of the full chain (body: `driver/xpcie.c`, lines 852-918) |
| Transfer.BuildTransfer | driver/xpcie.h:335-346 | the in-place loop fills block k of the coalesced list into descriptor k, keeps its links, leaves the others alone and returns the last index, in every mode (body: `driver/xpcie.c`, lines 974-1071) |
| Transfer.Terminate | driver/xpcie.h:143-146 | the device sees the last descriptor end the list: genuine, nothing next, nothing adjacent, flags 0x13 (stop, completed, end of packet), its transfer unchanged; all other descriptors stay (body: `driver/xpcie.c`, lines 1129-1140) |
| Transfer.MarkAdjacent | driver/xpcie.h:286-287 | descriptor k gets the count for the descriptors behind it, and nothing else changes (body: `driver/xpcie.c`, lines 1262-1265) |
| Descriptors.ViewOfTransfer | driver/xpcie.h:292-298 | on both kinds of host the device sees source, destination and length in the requested direction; next pointer and control stay (body: `driver/xpcie.c`, lines 948-971) |
| Descriptors.ViewOfAdjacent | driver/xpcie.h:286-293 | the device sees the new adjacent count, the same flags and nothing else changed (body: `driver/xpcie.c`, lines 1143-1168) |
| Descriptors.ViewOfLast | driver/xpcie.h:143-146 | the same for any control word: no next descriptor, none adjacent, exactly the new flags, reserved bits and transfer as before (body: `driver/xpcie.c`, lines 1085-1127) |
| Descriptors.ControlFields | driver/xpcie.h:143-158 | magic, adjacent count and flags can be read back from a control word and masked independently |
| ScatterGather.EntriesCoverBuffer | driver/xpcie.h:323-333 | the entries describe the user buffer exactly, byte for byte and in order (body: `driver/xpcie.c`, lines 207-261) |
| ScatterGather.Mapper.GetUserPages | driver/xpcie.h:356 | either the scatterlist describes the buffer and every page is pinned once, or the call returns -ENOMEM and nothing stays pinned (body: `driver/xpcie.c`, lines 145-269) |
| ScatterGather.Mapper.Fill | driver/xpcie.h:325-328 | the in-place loop writes entry i as the part of the buffer in page i (body: `driver/xpcie.c`, lines 210-253) |
| ScatterGather.Mapper.PutPages | driver/xpcie.h:357 | every pinned page is released, once (body: `driver/xpcie.c`, lines 277-290) |
| ScatterGather.Mapper.constructor | driver/xpcie.h:353 | an empty mapper with room for the pages of a buffer of the given length (body: `driver/xpcie.c`, lines 76-113) |
| ScatterGather.MapperHasRoom | driver/xpcie.h:329-332 | that room suffices wherever the buffer starts (body: `driver/xpcie.c`, line 87) |
| ScatterGather.PagesFitOn64 | driver/xpcie.h:329-332 | with 64-bit addresses `nr_pages` is the number of pages and within `max_pages` if and only if the room counts in an `int`, wherever the buffer starts and even if it wraps around (body: `driver/xpcie.c`, lines 76-177) |
| ScatterGather.PagesFitOn32 | driver/xpcie.h:329-332 | with 32-bit addresses the same holds if and only if the buffer does not wrap around (body: `driver/xpcie.c`, lines 76-177) |
| HexDump.Dump | app/LogUtils.cpp:5-63 | the printer prints exactly the text of the listing, for any line width, both modes and any size, in ceil(size / width) rounds, with every index in the buffer and no overflow |
| HexDump.HexDump | app/LogUtils.cpp:5-63 | as compiled, lines have 16 bytes and runs are suppressed |
| HexDump.Classify | app/LogUtils.cpp:23-39 | a line is dropped exactly if complete and equal to the one before, marked exactly if the next complete line is equal; both comparisons stay in the buffer |
| HexDump.PrintColumns | app/LogUtils.cpp:42-60 | the columns of one line: its bytes, padding, and its characters |
| PrintedForm.LineShown | app/LogUtils.cpp:19-60 | a printed line shows its address in at least eight hexadecimal digits without a zero to spare, its mark, every byte in two upper-case digits or padding, two spaces, and every byte again as itself if it is from 32 to 126 and as a dot if not |
| PrintedForm.CharactersShown | app/LogUtils.cpp:4 | each character on the right is its byte if that is from 32 to 126 and a dot if not |
| PrintedForm.TrailerShown | app/LogUtils.cpp:62 | the closing line shows the size in at least eight hexadecimal digits, a negative one as its 64-bit pattern, and in decimal |
| PrintedForm.HexShown | app/LogUtils.cpp:20 | a hexadecimal number has the asked number of digits, or more without a zero in front |
| PrintedForm.DecimalShown | app/LogUtils.cpp:62 | a decimal number has no zero in front, and a minus sign exactly if negative |
| DumpDecoder.DecodeDump | app/LogUtils.cpp:5-63 | reading the printed characters gives back the bytes and the size, in both modes, whatever the width |
| DumpDecoder.DumpInjective | app/LogUtils.cpp:5-63 | different buffers never print the same text, not even in different modes |
| DumpDecoder.Framing | app/LogUtils.cpp:4-62 | every newline ends a printed line, no data line reads as the trailer, and padding occurs only on the short last line |
| DumpDecoder.LineRead | app/LogUtils.cpp:19-60 | a printed line followed by anything is read back as its address, mark and bytes |
| DumpDecoder.TrailerRead | app/LogUtils.cpp:62 | the closing line is read back as the size |
| DumpDecoder.AsciiHasNoNewline | app/LogUtils.cpp:4 | no byte is rendered as a newline |
| Suppression.CanonicalForm | app/LogUtils.cpp:27-40 | the printed lines are the first lines of the maximal runs of equal lines, one per run, no two neighbours alike |
| Suppression.RunsAreMaximal | app/LogUtils.cpp:27-40 | the reference encoding spells the lines and its neighbouring runs differ |
| Suppression.LinesAreRunHeads | app/LogUtils.cpp:14-40 | the same from any index, also in the middle of a run |
| Suppression.ExpansionRestores | app/LogUtils.cpp:19-40 | repeating each marked line up to the next address gives the lines of full mode, which hold all bytes |
| Suppression.TestsAgree | app/LogUtils.cpp:28-33 | the forward test at a line and the backward test at the next one are the same, for their different guards |
| Suppression.StarMeansGap | app/LogUtils.cpp:28-34 | a printed line carries a mark exactly when the next address is more than one line away |
| Printf.DigitsRead | app/LogUtils.cpp:20 | a number printed with any precision, followed by anything, is read back |
| Printf.DecimalRead | app/LogUtils.cpp:62 | the same for signed decimals |
| LockMachine.StepKeeps | app/Lock.h:69-105 | every step of every thread keeps the invariant of lock, value, calls and order |
| LockMachine.BodyKeeps | app/Lock.h:73-102 | in particular the load, the store and the reading of the value |
| LockMachine.LockKept | app/Lock.cpp:19-36 | in particular who holds the lock and how |
| LockRuns.Linearizability | app/Lock.h:69-105 | every history of every run has a sequential order with the same replies that respects real time |
| LockRuns.EffectsInCriticalSection | app/Lock.h:72-104 | a call takes effect while its thread holds the lock, for writing if the value changes |
| LockRuns.LockDiscipline | app/Lock.h:70-105 | one writer or several readers, only holders unlock, and a reader's saved value stays current |
| LockRuns.LetIn | app/Lock.cpp:19-30 | a reader is let in exactly while nobody writes, other readers or not, and a writer exactly while nobody is inside |
| LockRuns.NoLostUpdate | app/Lock.h:63-105 | the value is the last one set plus increases minus decreases; if Type wraps, the one value below its modulus that differs from that by a multiple of the modulus |
| LockRuns.RepliesAreSums | app/Lock.h:69-105 | every call but set answers that sum, in the same sense, as of when it took effect |
| LockRuns.UniqueTickets | app/Lock.h:88-95 | with increases and reads only, the k-th increase is answered k |
| LockRuns.EffectsInGrantOrder | app/Lock.h:69-105 | calls other than reads take effect in the order in which the lock was granted to them for writing, all but the last granted having done so |
| LockRuns.TicketsInGrantOrder | app/Lock.h:88-95 | with increases and reads only, the k-th call granted the lock for writing is the k-th increase and is answered k |
| LockRuns.UniqueReplies | app/Lock.h:88-95 | no two returned increases have the same answer |
| LockRuns.RealTimeMonotone | app/Lock.h:78-95 | a call started after another returned never answers less, an increase more |
| LockRuns.Progress | app/Lock.h:70-105 | while a call is unfinished some thread can go on with one |
| LockRuns.StepShortens | app/Lock.h:70-105 | each such step brings the end nearer |
| LockRuns.MaximalRunsFinish | app/Lock.h:70-105 | without new calls a run ends, with all calls returned and the lock free |
| LockClasses.RWLock.ReadLock | app/Lock.cpp:19-23 | the caller reads, nobody writes, and every other thread's hold is unchanged |
| LockClasses.RWLock.WriteLock | app/Lock.cpp:26-30 | the caller writes and nobody else holds the lock |
| LockClasses.RWLock.UnLock | app/Lock.cpp:32-36 | the caller's own hold ends, every other thread's is unchanged, and the lock is free if nobody else held it |
| LockClasses.LockedValue.constructor | app/Lock.h:62-66 | the value is 0 and the lock free |
| LockClasses.LockedValue.Set | app/Lock.h:69-75 | the value is the argument, or its representative if Type wraps, stored while the lock is held for writing; the lock is as before |
| LockClasses.LockedValue.Get | app/Lock.h:77-85 | the answer is the value, loaded while the lock is held for reading; nothing changes |
| LockClasses.LockedValue.Increase | app/Lock.h:87-95 | value and answer are the old value plus one, or its representative if Type wraps; both loads and the store happen while the lock is held for writing |
| LockClasses.LockedValue.Decrease | app/Lock.h:97-105 | value and answer are the old value minus one, or its representative if Type wraps; both loads and the store happen while the lock is held for writing |
| LockClasses.UndisturbedCall | app/Lock.h:69-105 | a call that nobody disturbs runs through the machine as its method says |
| Registers.Window.Access | app/reg_rw.c:66-165 | one run of the tool: window and value read are those of the abstract little-endian memory |
| Registers.HostAccessIsAbstract | app/reg_rw.c:19-164 | loads, stores and swaps of either kind of host amount to one little-endian access |
| Registers.OtherTypesReadWords | app/reg_rw.c:42-83 | without a type, or with any but b and h in either case, the tool reads the four bytes as a word, low address first |
| Registers.NarrowTypes | app/reg_rw.c:70-110 | b or B reads the byte, h or H the two bytes, low address first |
| Registers.TypedWrite | app/reg_rw.c:127-163 | a write stores the low byte, two or four low bytes of the value at increasing addresses and leaves all other bytes |
| Registers.RunsRefine | app/reg_rw.c:98-164 | so do any runs of accesses of mixed widths |
| Registers.LastWriteWins | app/reg_rw.c:128-163 | after any run each byte is the one its last covering write put there, or the initial one |
| Registers.WideReadCombines | app/reg_rw.c:98-117 | after any run on either host, a word read is the combination of its two halfword reads, and a halfword read that of its two byte reads |
| Registers.NarrowReadSlices | app/reg_rw.c:98-164 | a byte read after a write of any width has the byte of the written value at its place, or what it was before |
| Words.LoadIsLittleEndian | app/reg_rw.c:19-29 | loading and swapping gives the little-endian value on either host |
| Words.StoreIsLittleEndian | app/reg_rw.c:19-29 | swapping and storing leaves the little-endian bytes on either host |
| Words.ConvertedIsSeen | driver/xpcie.h:289-290 | a word converted with `cpu_to_le32` and stored is seen by the device as it was, on either host |
| Words.SeenAsConverted | driver/xpcie.h:289-290 | reading the stored bytes of a word in little-endian order is what `le32_to_cpu` computes, on either host |
| ThreadLife.Thread.Start | app/Thread.cpp:51-58 | the flag is set exactly on success |
| ThreadLife.Thread.Join | app/Thread.cpp:60-79 | only a running thread is joined; success clears one flag and sets the other |
| ThreadLife.Thread.Detach | app/Thread.cpp:81-91 | only a running thread not yet detached is detached |
| ThreadLife.Thread.Destroy | app/Thread.cpp:41-49 | last-resort detach and cancellation, by the flags |
| ThreadLife.FlagsTellTheTruth | app/Thread.cpp:41-91 | after any sequence of calls with at most one successful start the flags tell whether the thread runs and whether it was released |
| ThreadLife.EveryThreadCounted | app/Thread.cpp:41-91 | after any sequence of calls every thread started is released, replaced or held, and the detached flag tells only that some thread was released |
| ThreadLife.ReleasedOnce | app/Thread.cpp:41-91 | a single start is released at most once, exactly once if the last detach succeeds; the destructor cancels exactly the started and never joined |
| ThreadLife.LastDetachIsLawful | app/Thread.cpp:43-45 | the destructor detaches exactly when the current thread is unreleased and none before it was released |
| ThreadLife.AllReleased | app/Thread.cpp:41-91 | over any number of starts, all threads are released after destruction if and only if no start replaced an unreleased one and a thread still unreleased is the only one and its last detach succeeds |
| ThreadLife.CallsTakeEffect | app/Thread.cpp:41-91 | a successful start holds a new thread; a successful join releases the held one, a successful detach does unless one was released before; failing calls change nothing; the destructor cancels just what runs |
| ThreadLife.OnlyJoinReleasesAgain | app/Thread.cpp:41-91 | once a thread was released, a further one is released by a successful join and nothing else |
| ThreadLife.RestartLeaks | app/Thread.cpp:51-79 | start, join, start and start, start both lose a thread; start, join, start, join does not |

## Left out

- HostToCard.Write: the kernel is a parameter with a contract: `get_user_pages_fast` pins a prefix of the pages, `pci_map_sg` may merge entries, into less than 2^32 - 258047 bytes each, but maps every byte in order, and coherent memory is page-aligned.
- HostToCard.Write: says what the engine is told to do, not when; the driver waits two seconds and stops the engine without looking at the outcome.
- Engine.BurstsReachTheEnd: the device is modelled from its descriptor format and the 4 KiB limit that the driver computes with; completion, interrupts and write-back are not.
- HostToCard.Write: descriptor memory is never given back by the driver (`xdma_desc_free` has no caller); the model does not count it.
- HostToCard.Write: page numbers are unbounded; they are the driver's under the conditions of `ScatterGather.PagesFitOn64` and `ScatterGather.PagesFitOn32`, and beyond them the write is not modelled.
- ScatterGather.Mapper.GetUserPages: clearing the page pointers before they are filled, and cache flushes, have no effect in the model.
- HexDump.Dump: the buffer is a sequence of bytes, not an array, as nothing writes to it; the pointers formed outside the buffer and never followed are not modelled.
- LockClasses.LockedValue.Set: class methods run undisturbed and are called when the lock can be had; interleaving and waiting are the transition system's.
- LockRuns.NoLostUpdate: a Type that wraps is unsigned; overflow of a signed one is undefined in C++ and not modelled.
- LockRuns.Progress: claims no fairness among waiting threads, and takes lock calls to succeed when they return, as `app/Lock.cpp` ignores their results.
- Registers.Window.Access: asks for an access within the window, which the source does not check, and treats the window as plain memory.
- ThreadLife.Thread.Destroy: what a cancelled thread does, and `run` itself, are not modelled; results of system calls are parameters.
- Engine.WriteRegisters: starting and stopping the engine through its control and status registers is left out.
- Probing, character devices, BAR mapping, `mmap`, `test_h2c` and `sgm_kernel_pages` in `driver/xpcie.c`: kernel plumbing or test code.
- The card-to-host direction: the driver has no read path; only descriptors are modelled for both directions.
- `CMutex` and `PosixSemaphore` in `app/Lock.cpp`: thin wrappers of library calls.
- `app/test_xpcie.cpp`: repeats the access logic of `app/reg_rw.c`.
- Argument parsing, `open`, `mmap`, messages and exit codes in `app/reg_rw.c`; scripts, udev rules and logging configuration.
