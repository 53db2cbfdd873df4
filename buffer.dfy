/**
 * `BufMgr`, BadgerDB's buffer manager: a fixed table of frame descriptors,
 * a pool of pages indexed the same way, a (file, page) -> frame index and a
 * clock hand. Operations return frame numbers where the C++ code hands out
 * `Page*` pointers into the pool, and a `Result` where it throws.
 */
module Buffer {
  import opened Types
  import opened Descriptors
  import opened Clock
  import opened Storage
  import opened Flush

  class BufMgr {
    /** Number of frames in the pool. */
    const numBufs: nat
    /** `bufDescTable`: one descriptor per frame. */
    const descTable: array<BufDesc>
    /** `bufPool`: the page each frame holds. */
    const bufPool: array<Page>
    /** `hashTable`: which frame holds page (file, pageNo). */
    var hashTable: map<Key, FrameId>
    /** `clockHand`: the frame the clock last stopped at. */
    var clockHand: FrameId

    /** The clock hand is a frame, and descriptors, pool and index agree. */
    ghost predicate Valid()
      reads this, descTable, bufPool
    {
      numBufs > 0 && descTable.Length == numBufs && bufPool.Length == numBufs && clockHand < numBufs
      && Consistent(descTable[..], hashTable) && PoolMatches(descTable[..], bufPool[..])
    }

    /** Every page the index knows of exists in its file. */
    ghost predicate Resident(files: Files)
      reads this, files
    {
      forall k | k in hashTable :: k in files.pages
    }

    /**
     * All frames start cleared and numbered 0 .. bufs-1, the index starts
     * empty, and the hand rests on the last frame so that the first sweep
     * starts at frame 0.
     */
    constructor (bufs: nat)
      requires bufs > 0
      ensures Valid() && numBufs == bufs && fresh(descTable) && fresh(bufPool)
      ensures forall i | 0 <= i < bufs :: !descTable[i].valid && descTable[i].frameNo == i && descTable[i] == descTable[i].Clear()
      ensures hashTable == map[] && clockHand == bufs - 1
    {
      numBufs := bufs;
      var table := new BufDesc[bufs](_ => BufDesc.Empty);
      for i: nat := 0 to bufs
        invariant forall j | 0 <= j < bufs :: table[j] == BufDesc.Empty.(frameNo := if j < i then j else 0)
      {
        table[i] := table[i].(frameNo := i, valid := false);
      }
      descTable := table;
      bufPool := new Page[bufs](_ => BlankPage);
      hashTable := map[];
      clockHand := bufs - 1;
    }

    /** `advanceClock`: move the hand one frame on, wrapping around. */
    method AdvanceClock()
      requires numBufs > 0
      modifies this`clockHand
      ensures clockHand == NextHand(old(clockHand), numBufs) && clockHand < numBufs
    {
      clockHand := (clockHand + 1) % numBufs;
    }

    /**
     * The while loop of `allocBuf`: advance the hand until it stops on an
     * invalid frame or on an unpinned frame whose reference bit is off,
     * clearing the reference bits it passes; give up once more pinned frames
     * than there are frames have been met.
     */
    method SweepClock() returns (found: bool)
      requires numBufs > 0 && descTable.Length == numBufs && clockHand < numBufs
      modifies this`clockHand, descTable
      ensures var s := ClockSweep(old(descTable[..]), old(clockHand), 0);
        found == s.found && descTable[..] == s.descs && clockHand == s.hand
    {
      ghost var sweep := ClockSweep(descTable[..], clockHand, 0);
      var pinCount: nat := 0;
      while pinCount <= numBufs
        invariant clockHand < numBufs && pinCount <= numBufs + 1
        invariant ClockSweep(descTable[..], clockHand, pinCount) == sweep
        decreases numBufs + 1 - pinCount, RefCount(descTable[..])
      {
        ghost var d0 := descTable[..];
        AdvanceClock();
        if !descTable[clockHand].valid {
          assert sweep == Sweep(d0, clockHand, true);
          return true;
        }
        if descTable[clockHand].refbit {
          RefCountClear(d0, clockHand);
          descTable[clockHand] := descTable[clockHand].(refbit := false);
          assert descTable[..] == d0[clockHand := d0[clockHand].(refbit := false)];
          continue;
        }
        if descTable[clockHand].pinCnt == 0 {
          assert sweep == Sweep(d0, clockHand, true);
          return true;
        }
        pinCount := pinCount + 1;
      }
      return false;
    }

    /**
     * `allocBuf`: find a frame with the clock algorithm, writing a dirty
     * victim back to its file, and return it free of any index entry.
     */
    method AllocBuf(files: Files) returns (r: Result<FrameId>)
      requires Valid() && files.Valid() && Resident(files)
      modifies this, descTable, files
      ensures Valid() && files.Valid() && Resident(files)
      ensures var a := AllocBufSpec(old(descTable[..]), bufPool[..], old(hashTable), old(clockHand));
        r == a.frame && descTable[..] == a.descs && hashTable == a.index && clockHand == a.hand
        && files.log == old(files.log) + a.writeBack && files.pages == Replay(old(files.pages), a.writeBack)
    {
      ghost var descs0 := descTable[..];
      ghost var spec := AllocBufSpec(descTable[..], bufPool[..], hashTable, clockHand);
      SweepShape(descs0, clockHand, 0);
      var found := SweepClock();
      if !found {
        return Err(BufferExceeded);
      }
      RefbitsKeepConsistent(descs0, descTable[..], bufPool[..], hashTable);
      assert FrameOk(descTable[..], hashTable, clockHand);
      var victim := descTable[clockHand];
      if !victim.valid {
        return Ok(victim.frameNo);
      }
      ghost var wb := if victim.dirty then [Write(victim.file.value, bufPool[clockHand])] else [];
      assert spec == Alloc(descTable[..][clockHand := victim.Clear()], hashTable - {KeyOf(victim)}, clockHand, wb, Ok(clockHand));
      if victim.dirty {
        files.WritePage(victim.file.value, bufPool[clockHand]);
        assert wb[..0] == [];
      }
      hashTable := hashTable - {(victim.file.value, victim.pageNo)};
      descTable[clockHand] := descTable[clockHand].Clear();
      assert descTable[..] == spec.descs && hashTable == spec.index;
      r := Ok(victim.frameNo);
    }
  
    /**
     * Put `page` of file `f` into the free frame j: the pool slot, the index
     * entry and the descriptor (`Set`), the three steps readPage and
     * allocPage end with.
     */
    method Install(j: FrameId, f: FileId, page: Page)
      requires Valid() && j < numBufs && !descTable[j].valid && (f, page.number) !in hashTable
      modifies this`hashTable, descTable, bufPool
      ensures Valid()
      ensures bufPool[..] == old(bufPool[..])[j := page] && hashTable == old(hashTable)[(f, page.number) := j]
      ensures descTable[..] == old(descTable[..])[j := old(descTable[j]).Set(f, page.number)]
    {
      ghost var d0, p0 := descTable[..], bufPool[..];
      InstallKeepsConsistent(d0, hashTable, j, f, page.number);
      bufPool[j] := page;
      hashTable := hashTable[(f, page.number) := j];
      descTable[j] := descTable[j].Set(f, page.number);
      assert descTable[..] == d0[j := d0[j].Set(f, page.number)] && bufPool[..] == p0[j := page];
      forall i | 0 <= i < numBufs
        ensures SlotOk(descTable[..], bufPool[..], i)
      {
        assert SlotOk(d0, p0, i);
      }
    }

    /**
     * `readPage`: on an index hit, reference and pin the frame; on a miss,
     * allocate a frame (BufferExceeded propagates), read the page from the
     * file (a page the file does not have propagates as InvalidPage, after
     * the frame has been freed) and install it pinned once.
     */
    method ReadPage(files: Files, file: FileId, pageNo: PageId) returns (r: Result<FrameId>)
      requires Valid() && files.Valid() && Resident(files)
      modifies this, descTable, bufPool, files
      ensures Valid() && files.Valid() && Resident(files)
      ensures r.Ok? ==>
        r.value < numBufs && (file, pageNo) in hashTable && hashTable[(file, pageNo)] == r.value
        && Holds(descTable[r.value], (file, pageNo)) && bufPool[r.value].number == pageNo
        && descTable[r.value].pinCnt > 0 && descTable[r.value].refbit
      ensures (file, pageNo) in old(hashTable) ==>
        var j := old(hashTable)[(file, pageNo)];
        j < numBufs && r == Ok(j)
        && descTable[..] == old(descTable[..])[j := old(descTable[..])[j].(refbit := true, pinCnt := old(descTable[..])[j].pinCnt + 1)]
        && hashTable == old(hashTable) && clockHand == old(clockHand) && bufPool[..] == old(bufPool[..])
        && files.pages == old(files.pages) && files.log == old(files.log)
      ensures (file, pageNo) !in old(hashTable) ==>
        var a := AllocBufSpec(old(descTable[..]), old(bufPool[..]), old(hashTable), old(clockHand));
        clockHand == a.hand && files.log == old(files.log) + a.writeBack && files.pages == Replay(old(files.pages), a.writeBack)
        && (a.frame.Err? ==>
              r == a.frame && descTable[..] == a.descs && hashTable == a.index && bufPool[..] == old(bufPool[..]))
        && (a.frame.Ok? && (file, pageNo) !in old(files.pages) ==>
              r == Err(InvalidPage) && descTable[..] == a.descs && hashTable == a.index && bufPool[..] == old(bufPool[..]))
        && (a.frame.Ok? && (file, pageNo) in old(files.pages) ==>
              var j := a.frame.value;
              r == Ok(j) && bufPool[..] == old(bufPool[..])[j := old(files.pages)[(file, pageNo)]]
              && hashTable == a.index[(file, pageNo) := j] && descTable[..] == a.descs[j := a.descs[j].Set(file, pageNo)])
    {
      if (file, pageNo) in hashTable {
        var j := hashTable[(file, pageNo)];
        assert EntryOk(descTable[..], hashTable, (file, pageNo));
        assert SlotOk(descTable[..], bufPool[..], j);
        var d := descTable[j].(refbit := true, pinCnt := descTable[j].pinCnt + 1);
        TouchKeepsConsistent(descTable[..], bufPool[..], hashTable, j, d);
        descTable[j] := d;
        return Ok(j);
      }
      ghost var pages0 := files.pages;
      ghost var spec := AllocBufSpec(descTable[..], bufPool[..], hashTable, clockHand);
      var a := AllocBuf(files);
      if a.Err? {
        return a;
      }
      var j := a.value;
      ReplayOtherKey(pages0, spec.writeBack, (file, pageNo));
      var page := files.ReadPage(file, pageNo);
      if page.Err? {
        return Err(page.error);
      }
      Install(j, file, page.value);
      r := Ok(j);
    }

    /**
     * `unPinPage`: a page not in the index is NotFound; an unpinned page is
     * PageNotPinned and nothing changes; otherwise the pin count drops by one
     * and the dirty bit is set if `dirty` is, never cleared.
     */
    method UnPinPage(file: FileId, pageNo: PageId, dirty: bool) returns (r: Result<()>)
      requires Valid()
      modifies descTable
      ensures Valid()
      ensures (file, pageNo) !in hashTable ==> r == Err(NotFound) && descTable[..] == old(descTable[..])
      ensures (file, pageNo) in hashTable ==>
        var j := hashTable[(file, pageNo)];
        j < numBufs
        && (old(descTable[..])[j].pinCnt == 0 ==> r == Err(PageNotPinned(j)) && descTable[..] == old(descTable[..]))
        && (old(descTable[..])[j].pinCnt > 0 ==>
              var d := old(descTable[..])[j];
              r == Ok(()) && descTable[..] == old(descTable[..])[j := d.(pinCnt := d.pinCnt - 1, dirty := d.dirty || dirty)])
    {
      if (file, pageNo) !in hashTable {
        return Err(NotFound);
      }
      var j := hashTable[(file, pageNo)];
      assert EntryOk(descTable[..], hashTable, (file, pageNo)) && FrameOk(descTable[..], hashTable, j);
      if descTable[j].pinCnt == 0 {
        return Err(PageNotPinned(descTable[j].frameNo));
      }
      var d := descTable[j];
      if dirty {
        d := d.(dirty := true);
      }
      d := d.(pinCnt := d.pinCnt - 1);
      TouchKeepsConsistent(descTable[..], bufPool[..], hashTable, j, d);
      descTable[j] := d;
      r := Ok(());
    }

    /**
     * `allocPage`: allocate a frame (BufferExceeded propagates), have the
     * file allocate a new empty page, and install that page pinned once;
     * the page number returned is the new page's own.
     */
    method AllocPage(files: Files, file: FileId) returns (r: Result<(PageId, FrameId)>)
      requires Valid() && files.Valid() && Resident(files)
      modifies this, descTable, bufPool, files
      ensures Valid() && files.Valid() && Resident(files)
      ensures var a := AllocBufSpec(old(descTable[..]), old(bufPool[..]), old(hashTable), old(clockHand));
        clockHand == a.hand && files.log == old(files.log) + a.writeBack
        && (a.frame.Err? ==>
              r == Err(a.frame.error) && descTable[..] == a.descs && hashTable == a.index
              && bufPool[..] == old(bufPool[..]) && files.pages == Replay(old(files.pages), a.writeBack))
        && (a.frame.Ok? ==>
              r.Ok? && r.value.1 == a.frame.value
              && var p, j := r.value.0, r.value.1;
              p != InvalidPageNo && (file, p) !in old(files.pages)
              && files.pages == Replay(old(files.pages), a.writeBack)[(file, p) := Page(p, [])]
              && bufPool[..] == old(bufPool[..])[j := Page(p, [])]
              && hashTable == a.index[(file, p) := j] && descTable[..] == a.descs[j := a.descs[j].Set(file, p)])
    {
      ghost var pages0 := files.pages;
      ghost var spec := AllocBufSpec(descTable[..], bufPool[..], hashTable, clockHand);
      var a := AllocBuf(files);
      if a.Err? {
        return Err(a.error);
      }
      var j := a.value;
      ReplayWritesKeepKeys(pages0, spec.writeBack);
      var page := files.AllocatePage(file);
      Install(j, file, page);
      r := Ok((page.number, j));
    }

    /**
     * One pass of flushFile's loop, over frame i, with frames 0 .. i-1
     * already scanned from the table `d0` the flush started with: a frame
     * of `file` that is pinned stops the flush with PagePinned; otherwise it
     * is written back if dirty, its index entry is removed and it is
     * cleared. Frames of other files are left alone. A frame of `file` is
     * always valid, so the BadBuffer branch (frame i is numbered i) is never
     * taken: the contract leaves it out of the possible results. File ids
     * stand for non-null `File*` values, so the null-file case, where an
     * invalid frame's cleared file matches, does not arise here.
     */
    method FlushFrame(files: Files, file: FileId, i: nat,
                      ghost d0: seq<BufDesc>, ghost pool0: seq<Page>, ghost h0: map<Key, FrameId>,
                      ghost pages0: map<Key, Page>, ghost log0: seq<IoEvent>) returns (r: Result<()>)
      requires i < |d0| == descTable.Length && files.Valid() && bufPool[..] == pool0 && ScanStart(d0, pool0, h0, pages0)
      requires ScannedUpTo(d0, pool0, h0, pages0, log0, file, i, descTable[..], hashTable, files.pages, files.log)
      modifies this`hashTable, descTable, files
      ensures files.Valid()
      ensures r == (if d0[i].file == Some(file) && d0[i].pinCnt > 0 then Err(PagePinned(i)) else Ok(()))
      ensures r.Err? ==> descTable[..] == old(descTable[..]) && hashTable == old(hashTable) && unchanged(files)
      ensures r.Ok? ==> ScannedUpTo(d0, pool0, h0, pages0, log0, file, i + 1, descTable[..], hashTable, files.pages, files.log)
    {
      ghost var descs, index, pages, log := descTable[..], hashTable, files.pages, files.log;
      ScanReady(d0, pool0, h0, pages0, log0, file, i, descs, index, pages, log);
      if descTable[i].file != Some(file) {
        ScanAdvance(d0, pool0, h0, pages0, log0, file, i, descs, index, pages, log);
        return Ok(());
      }
      if !descTable[i].valid {
        return Err(BadBuffer(i));
      }
      if descTable[i].pinCnt > 0 {
        return Err(PagePinned(descTable[i].frameNo));
      }
      ScanAdvance(d0, pool0, h0, pages0, log0, file, i, descs, index, pages, log);
      if descTable[i].dirty {
        files.WritePage(file, bufPool[descTable[i].frameNo]);
        descTable[i] := descTable[i].(dirty := false);
      }
      hashTable := hashTable - {(file, descTable[i].pageNo)};
      descTable[i] := descTable[i].Clear();
      r := Ok(());
    }

    /**
     * The for loop of flushFile, over the table `d0` it started from: flush
     * the frames in order until one of them is a pinned frame of `file`,
     * and report where the scan stopped.
     */
    method ScanFrames(files: Files, file: FileId,
                      ghost d0: seq<BufDesc>, ghost pool0: seq<Page>, ghost h0: map<Key, FrameId>,
                      ghost pages0: map<Key, Page>, ghost log0: seq<IoEvent>) returns (r: Result<()>, ghost stop: nat)
      requires |d0| == descTable.Length && files.Valid() && bufPool[..] == pool0 && ScanStart(d0, pool0, h0, pages0)
      requires ScannedUpTo(d0, pool0, h0, pages0, log0, file, 0, descTable[..], hashTable, files.pages, files.log)
      modifies this`hashTable, descTable, files
      ensures files.Valid() && stop <= |d0|
      ensures r == (if stop < |d0| then Err(PagePinned(stop)) else Ok(()))
      ensures stop < |d0| ==> d0[stop].file == Some(file) && d0[stop].pinCnt > 0
      ensures ScannedUpTo(d0, pool0, h0, pages0, log0, file, stop, descTable[..], hashTable, files.pages, files.log)
    {
      stop := |d0|;
      r := Ok(());
      for i: nat := 0 to descTable.Length
        invariant r == Ok(()) && files.Valid() && bufPool[..] == pool0
        invariant ScannedUpTo(d0, pool0, h0, pages0, log0, file, i, descTable[..], hashTable, files.pages, files.log)
      {
        r := FlushFrame(files, file, i, d0, pool0, h0, pages0, log0);
        if r.Err? {
          stop := i;
          return;
        }
      }
    }

    /**
     * `flushFile`: scan the frames in order, flushing each frame of `file`,
     * until one of them is pinned. The scan stops at the first pinned frame
     * of the file; the frames before it are flushed and the others
     * untouched. On success no frame and no index entry of the file is left.
     */
    method FlushFile(files: Files, file: FileId) returns (r: Result<()>)
      requires Valid() && files.Valid() && Resident(files)
      modifies this`hashTable, descTable, files
      ensures Valid() && files.Valid() && Resident(files)
      ensures var stop := FirstPinned(old(descTable[..]), file, numBufs);
        var writes := FlushWrites(old(descTable[..]), bufPool[..], file, stop);
        r == (if stop < numBufs then Err(PagePinned(stop)) else Ok(()))
        && descTable[..] == Flushed(old(descTable[..]), file, stop) && hashTable == WithoutFile(old(hashTable), file, stop)
        && files.log == old(files.log) + writes && files.pages == Replay(old(files.pages), writes)
      ensures r.Ok? ==>
        (forall i | 0 <= i < numBufs :: descTable[i].file != Some(file)) && (forall k | k in hashTable :: k.0 != file)
    {
      ghost var d0, h0, pool0, pages0, log0 := descTable[..], hashTable, bufPool[..], files.pages, files.log;
      ghost var stop;
      ScanFromStart(d0, pool0, h0, pages0, log0, file);
      r, stop := ScanFrames(files, file, d0, pool0, h0, pages0, log0);
      ScanOutcome(d0, pool0, h0, pages0, log0, file, stop, descTable[..], hashTable, files.pages, files.log);
    }

    /**
     * `disposePage`: a resident page loses its index entry and its frame is
     * cleared, whatever its dirty bit and pin count, without a write-back;
     * then the file deletes the page. A page not in the index is NotFound
     * and the file is not asked to delete it, as with C++ exception
     * semantics, where the handler written `catch (HashNotFoundException())`
     * declares a function-pointer parameter and never matches.
     */
    method DisposePage(files: Files, file: FileId, pageNo: PageId) returns (r: Result<()>)
      requires Valid() && files.Valid() && Resident(files)
      modifies this`hashTable, descTable, files
      ensures Valid() && files.Valid() && Resident(files)
      ensures (file, pageNo) !in old(hashTable) ==>
        r == Err(NotFound) && hashTable == old(hashTable) && descTable[..] == old(descTable[..])
        && files.pages == old(files.pages) && files.log == old(files.log)
      ensures (file, pageNo) in old(hashTable) ==>
        var j := old(hashTable)[(file, pageNo)];
        j < numBufs && r == Ok(()) && hashTable == old(hashTable) - {(file, pageNo)}
        && descTable[..] == old(descTable[..])[j := old(descTable[..])[j].Clear()]
        && files.pages == old(files.pages) - {(file, pageNo)} && files.log == old(files.log) + [Delete(file, pageNo)]
    {
      if (file, pageNo) !in hashTable {
        return Err(NotFound);
      }
      var j := hashTable[(file, pageNo)];
      assert EntryOk(descTable[..], hashTable, (file, pageNo));
      EvictKeepsConsistent(descTable[..], bufPool[..], hashTable, j);
      hashTable := hashTable - {(descTable[j].file.value, descTable[j].pageNo)};
      descTable[j] := descTable[j].Clear();
      files.DeletePage(file, pageNo);
      r := Ok(());
    }
  }
}
