# BadgerDB buffer manager in Dafny

This project models `BufMgr`, the buffer manager of the BadgerDB teaching database, and proves properties about it. The buffer manager is a page cache of `numBufs` frames. Its state has four parts:

- `bufDescTable`: one descriptor per frame, with the fields `file`, `pageNo`, `frameNo`, `pinCnt`, `dirty`, `valid` and `refbit`.
- `bufPool`: the page that each frame holds.
- `hashTable`: an index from (file, page number) to frame.
- `clockHand`: a circular position used by the clock (second-chance) replacement policy.

The operations are:

- `readPage` pins a page and loads it on a miss.
- `unPinPage` releases a pin and may mark the page dirty.
- `allocPage` creates a new page in a file and pins it.
- `flushFile` writes back and evicts every frame of a file.
- `disposePage` evicts a page and deletes it from its file.
- `allocBuf` is the internal victim selection behind `readPage` and `allocPage`.

The files are:

- `types.dfy`: identifiers, the opaque `Page` value, the error kinds that stand for the C++ exceptions, and a `Result` type.
- `descriptors.dfy`: the frame descriptor with `Clear` and `Set`, and the buffer invariant `Consistent`. The invariant says the index maps (f, p) to i exactly when frame i is valid and holds page p of file f. Every invalid frame is in the cleared state. `PoolMatches` says each valid frame's pool slot carries the page number its descriptor names. Lemmas show that eviction, installation and pin/dirty/refbit updates keep both invariants.
- `clock.dfy`: the `allocBuf` sweep as the function `ClockSweep`. It terminates by the measure (numBufs + 1 - pinCount, number of set reference bits). `AllocBufSpec` describes the whole of `allocBuf`. The lemmas say when it succeeds and when it fails, and give a concrete case of the early failure noted below.
- `storage.dfy`: the `File` collaborator, reduced to a map from (file, page number) to page, plus a ghost log of writes and deletes. `Replay` gives the effect of the log.
- `flush.dfy`: the state `flushFile` leaves after scanning frames 0 .. k-1, and lemmas about the write-backs it issues.
- `buffer.dfy`: the class `BufMgr`, with arrays for the descriptor table and the pool, a map for the index, and one method per operation. Each public operation keeps `Valid()`, which is the invariant plus the hand being in range. `AllocBuf`, `ReadPage`, `AllocPage` and `FlushFile` are proved against the functions above; `UnPinPage` and `DisposePage` state their new state directly.

Where the C++ code throws, the model returns a `Result`. Where it hands out a `Page*` into the pool, the model returns the frame number.

### Exception handlers and the code's actual behaviour

The handlers at `buffer.cpp` lines 165, 201 and 294 are written `catch (X())`. A handler written that way declares a parameter of function-pointer type, so it never matches the thrown object. The model follows what the code does:

- `BufferExceeded` propagates out of `readPage`.
- An index miss in `unPinPage` propagates as `NotFound`. This follows the `@throws` at lines 180-181, not the "does nothing" at lines 174-175.
- An index miss in `disposePage` propagates as `NotFound` before `deletePage` is called, so a page that is not resident is not deleted from its file. The doc comments at lines 174-175 (an unknown page is ignored by `unPinPage`) and 278-280 (the page is deleted from the file, and from the pool if present) suggest a miss is tolerated; the model follows the code.

In the same way, `readPage` on a page that its file does not hold has already evicted a frame when the file's read fails. That frame stays cleared, so the miss path is not free of side effects.

### Early BufferExceeded

`allocBuf` counts only the pinned frames it meets toward its limit of `numBufs`, and stops after `numBufs + 1` of them. Steps that clear a reference bit are not counted. So the count can run out before the hand returns to a frame it has just given a second chance. `allocBuf` then reports `BufferExceeded` although an unpinned frame exists, which contradicts the doc comment at line 86. The model keeps this behaviour:

- `Clock.PrematureBufferExceeded` exhibits it with three frames.
- `Clock.AllocBufFindsFree` proves what does hold: if some frame is free when the hand reaches it, the sweep succeeds.

## Model

| member | source | states |
|---|---|---|
| Descriptors.DistinctPages | p2/Applications/buffer.cpp:121-122 | under the invariant, two different valid frames never hold the same (file, page), so removing one frame's key leaves every other frame's entry |
| Descriptors.IndexIff | p2/Applications/buffer.cpp:149-152 | under the invariant, a lookup of (f, p) yields i exactly when frame i is valid and holds page p of f (both directions) |
| Descriptors.NoEntryFor | p2/Applications/buffer.cpp:95-97 | an invalid frame has no index entry, so `allocBuf` can return it without touching the hash table |
| Descriptors.EvictKeepsConsistent | p2/Applications/buffer.cpp:121-122 | a valid frame's key is in the index and maps to that frame; removing the key and clearing the frame keeps the index invariant and the pool agreement |
| Descriptors.InstallKeepsConsistent | p2/Applications/buffer.cpp:161-163 | inserting (f, p) -> j and setting the free frame j to (f, p) keeps the index invariant |
| Descriptors.TouchKeepsConsistent | p2/Applications/buffer.cpp:151-152 | changing only the pin count, dirty bit and reference bit of a valid frame keeps both invariants |
| Clock.NextHand | p2/Applications/buffer.cpp:76-78 | the advanced hand is always below numBufs, and it is the next frame, wrapping from the last frame to frame 0 |
| Clock.RefCountClear | p2/Applications/buffer.cpp:99-101 | clearing a set reference bit lowers the number of set bits by one, the second half of the sweep's termination measure |
| Clock.RefbitsKeepConsistent | p2/Applications/buffer.cpp:99-101 | clearing reference bits of valid frames preserves the index invariant and the pool agreement |
| Clock.ClockSweep | p2/Applications/buffer.cpp:92-108 | the sweep loop terminates, keeps the table size and leaves the hand in range |
| Clock.SweepShape | p2/Applications/buffer.cpp:92-108 | the sweep changes frames only by clearing reference bits of valid frames, and a frame it stops on is invalid, or unpinned with its reference bit off |
| Clock.SweepReachesFree | p2/Applications/buffer.cpp:92-108 | a frame that is free when the hand reaches it, within the remaining pinned-frame budget, makes the sweep succeed |
| Clock.SweepAllPinned | p2/Applications/buffer.cpp:92-112 | with every frame valid and pinned the sweep gives up |
| Clock.SweepFailClearsRefbit | p2/Applications/buffer.cpp:92-108 | a sweep that gives up has passed frame j within its pinned-frame budget and so leaves j's reference bit off |
| Clock.SweepFailClearsAll | p2/Applications/buffer.cpp:92-112 | a sweep from the start that gives up leaves every reference bit off |
| Clock.AllocBufSpec | p2/Applications/buffer.cpp:88-123 | `allocBuf` keeps both invariants and returns a frame with no index entry that is now cleared. The frame was either invalid and returned untouched with no write-back, or a valid unpinned victim whose key alone was removed, written back once if dirty and not at all if clean. Every other frame changes at most by losing its reference bit. On failure the error is BufferExceeded, with no write-back, the index unchanged, and the only change to the table being that every reference bit is now off |
| Clock.AllocBufFindsFree | p2/Applications/buffer.cpp:88-123 | `allocBuf` succeeds whenever some frame is invalid, or unpinned with its reference bit off |
| Clock.AllocBufAllPinned | p2/Applications/buffer.cpp:92-112 | with every frame valid and pinned `allocBuf` fails with BufferExceeded, leaves the index alone, writes nothing and changes only reference bits |
| Clock.UnpinThenRetry | p2/Applications/buffer.cpp:92-112 | after allocBuf fails, unpinning a frame pinned once (as `unPinPage` at lines 195-199 does, with any dirty argument) keeps the invariants, and the next allocBuf succeeds |
| Clock.PrematureBufferExceeded | p2/Applications/buffer.cpp:86-112 | a consistent three-frame pool with an unpinned frame for which `allocBuf` still reports BufferExceeded |
| Storage.ReplayWritesKeepKeys | p2/Applications/buffer.cpp:114-115 | writing back pages that exist neither adds nor removes a page of any file |
| Storage.ReplayOtherKey | p2/Applications/buffer.cpp:157-159 | write-backs of other pages leave the page being read, and whether it exists, as they were |
| Storage.Files.ReadPage | p2/Applications/buffer.cpp:159 | `File::readPage` succeeds exactly when the file holds the page, returning it with its own number; otherwise InvalidPage |
| Storage.Files.WritePage | p2/Applications/buffer.cpp:115 | `File::writePage` stores the page under its own number and logs the write |
| Storage.Files.AllocatePage | p2/Applications/buffer.cpp:215 | `File::allocatePage` returns an empty page under a valid number the file did not hold, and adds it, without logging a write |
| Storage.Files.DeletePage | p2/Applications/buffer.cpp:298 | `File::deletePage` removes the page and logs the delete |
| Flush.WithoutFileFrames | p2/Applications/buffer.cpp:266 | under the invariant, an index key is dropped exactly when a scanned frame holds that page of the file (both directions), and every surviving entry keeps the frame it named |
| Flush.FlushWritesResident | p2/Applications/buffer.cpp:258-264 | every flush write-back is a write to a page of the flushed file that an already-scanned frame holds in the index |
| Flush.ConsistentFilePagesDistinct | p2/Applications/buffer.cpp:258-266 | under the invariant, the frames of one file hold pages with pairwise different numbers, each the number its descriptor names |
| Flush.FlushWritesOnce | p2/Applications/buffer.cpp:258-264 | each scanned frame of the file is written back exactly once if dirty and never if clean; unscanned frames not at all |
| Flush.FlushWritesLand | p2/Applications/buffer.cpp:258-264 | after the write-backs, each dirty scanned page of the file is stored with the content its frame held |
| Flush.FirstPinned | p2/Applications/buffer.cpp:252-256 | the stopping frame is a pinned frame of the file, or the end when there is none, and no pinned frame of the file comes before it |
| Flush.FirstPinnedIs | p2/Applications/buffer.cpp:238-256 | the stopping frame is unique: any position with the first-pinned property is FirstPinned |
| Flush.WithoutFileStep | p2/Applications/buffer.cpp:266 | scanning frame i removes exactly that frame's entry when it belongs to the file, and nothing otherwise |
| Flush.FlushKeepsConsistent | p2/Applications/buffer.cpp:266-267 | clearing the scanned frames of the file and dropping their keys keeps both invariants |
| Flush.FlushCompleteRemovesFile | p2/Applications/buffer.cpp:238-274 | after a complete scan no frame and no index entry of the file remain |
| Flush.FlushKeepsResident | p2/Applications/buffer.cpp:258-266 | every indexed page remains in the files after the flush write-backs |
| Flush.ScanReady | p2/Applications/buffer.cpp:243-250 | the frame about to be scanned is as it was at the start; a frame of a (non-null) file is valid, so BadBuffer cannot be raised for it, and its page is in the file |
| Flush.ScanAdvance | p2/Applications/buffer.cpp:240-268 | scanning a frame that is not a pinned frame of the file clears it, removes its key and writes it back if dirty when it belongs to the file, and changes nothing otherwise |
| Flush.ScanOutcome | p2/Applications/buffer.cpp:238-274 | the scan stops at the first pinned frame of the file or at the end; both invariants hold there; a complete scan leaves nothing of the file |
| Buffer.BufMgr.constructor | p2/Applications/buffer.cpp:31-47 | all frames invalid and cleared with frameNo == i, an empty index, the hand at bufs - 1, and the invariant holds |
| Buffer.BufMgr.AdvanceClock | p2/Applications/buffer.cpp:76-78 | the hand moves to (hand + 1) mod numBufs and stays in range |
| Buffer.BufMgr.SweepClock | p2/Applications/buffer.cpp:92-108 | the while loop leaves exactly the table, hand and outcome that ClockSweep describes |
| Buffer.BufMgr.AllocBuf | p2/Applications/buffer.cpp:88-123 | result, table, index, hand, write-backs and stored pages are those of AllocBufSpec; both invariants hold and every indexed page is in its file |
| Buffer.BufMgr.Install | p2/Applications/buffer.cpp:159-163 | the page goes into pool slot j, the index gains (f, p) -> j and frame j is Set, keeping the invariant |
| Buffer.BufMgr.ReadPage | p2/Applications/buffer.cpp:145-170 | On success the frame holds the page, is indexed under it, is pinned and referenced. On a hit only that frame's pin count (+1) and reference bit change, with no I/O. On a miss allocBuf runs: its failure propagates; a page the file lacks gives InvalidPage with the frame freed; otherwise the file's page is installed with pin count 1 |
| Buffer.BufMgr.UnPinPage | p2/Applications/buffer.cpp:183-202 | A miss is NotFound with nothing changed. Pin count 0 gives PageNotPinned with nothing changed (dirty not set). Otherwise the pin count drops by one and dirty becomes old dirty or the argument. The invariant is kept |
| Buffer.BufMgr.AllocPage | p2/Applications/buffer.cpp:212-220 | allocBuf's failure propagates. Otherwise the file gains a new empty page under a fresh valid number, which is returned, installed in the allocated frame with pin count 1 and indexed |
| Buffer.BufMgr.FlushFrame | p2/Applications/buffer.cpp:240-268 | one loop pass: a pinned frame of the file gives PagePinned(i) with nothing changed; otherwise the scan advances by one frame as ScanAdvance says; for a non-null file BadBuffer is never raised |
| Buffer.BufMgr.ScanFrames | p2/Applications/buffer.cpp:238-274 | the for loop stops at a pinned frame of the file with PagePinned, or completes, with the state ScannedUpTo describes at the stopping point |
| Buffer.BufMgr.FlushFile | p2/Applications/buffer.cpp:235-275 | The result is PagePinned at the first pinned frame of the file, or success. Frames of the file before it are cleared and unindexed, and all other frames are unchanged. Exactly the dirty ones are written back, in frame order. On success no frame or index entry of the file remains. The invariant is kept |
| Buffer.BufMgr.DisposePage | p2/Applications/buffer.cpp:286-300 | A miss is NotFound, changes nothing and deletes nothing. A hit removes the key and clears its frame whatever its pin count or dirty bit, writes nothing back, and deletes the page from its file |

## Left out

- The destructor (`buffer.cpp` lines 53-70) is not modelled. It depends on a filesystem check of whether a file is open, and on freeing memory.
- `printSelf` is not modelled; it only prints diagnostics.
- The `bufStats` counters are not modelled; they do not affect behaviour.
- Hash-table sizing is not modelled. It uses floating point, and the index is modelled as a Dafny map, so the hash table's internals and size are not part of this model.
- `buffer.h`, `file.h` and `page.h` are not part of this model.
  - `BufDesc::Clear` and `BufDesc::Set` are stated as BadgerDB defines them. `Clear` gives no file, invalid page number, pin count 0, clean, invalid and reference bit off. `Set` gives the file and page, pin count 1, clean, valid and reference bit on.
  - A `File` is reduced to its pages keyed by (file, page number). Page numbers start at 1, and the ghost log records writes and deletes.
  - A `Page` is reduced to its number and an opaque byte sequence.
- Files are identified by a number rather than a `File*` pointer. All files share one collaborator object.
- Buffer.BufMgr.FlushFile: a null `File*` cannot be expressed, because every file id names a file. The C++ `flushFile(nullptr)` matches the first invalid frame, whose cleared `file` is null (line 243), and throws BadBuffer there (lines 246-248). For example, it does so on a freshly constructed pool. The model's results, PagePinned or success, hold only for a non-null file.
- Buffer.BufMgr.FlushFrame: BadBuffer is unreachable only for a non-null file. The null-file pass that throws BadBuffer on an invalid frame is not modelled, for the reason given on the FlushFile line.
- Pointers into `bufPool` are returned as frame numbers. Callers who change a page through that pointer are not modelled. Neither is a page being marked dirty without going through `unPinPage`.
- Buffer.BufMgr.constructor: requires at least one frame. With zero frames the C++ hand wraps to 2^32 - 1, and `advanceClock` divides by zero. `bufs` and `numBufs` are unbounded natural numbers here, while the C++ takes a 32-bit unsigned `bufs` (line 31). At bufs = 2^32 - 1, the C++ sweep over a pool whose frames are all valid and pinned never ends: `pinCount <= numBufs` always holds, and `pinCount++` wraps to 0. The model's sweep gives up with BufferExceeded there instead.
- Clock.ClockSweep: `pinCount` is unbounded, so the sweep always gives up after numBufs + 1 pinned frames. For the one pool size where the C++ counter cannot reach that limit, see the constructor line above.
- Buffer.BufMgr.ReadPage: the pin count is an unbounded natural number. The fixed-width overflow of `pinCnt` is not modelled; its type is declared in `buffer.h`, which is not part of this model. The sweep counter `pinCount` is a 32-bit unsigned integer (line 90). It cannot wrap as long as numBufs < 2^32 - 1, because it never exceeds numBufs + 1.
- Files change only through the buffer manager. Every indexed page is in its file (`Resident`), so write-backs and deletes never meet a missing page. The errors that `File::writePage` and `File::deletePage` would raise for a page deleted behind the buffer manager's back are not modelled.
- Concurrency is not modelled, because the buffer manager is single-threaded.
