/**
 * What `BufMgr::flushFile` does to the files and the index after it has
 * scanned frames 0 .. k-1, as functions of the table it started from.
 */
module Flush {
  import opened Types
  import opened Descriptors
  import opened Storage

  /** The write-backs issued for frames 0 .. k-1: one per dirty frame of file `f`, in frame order. */
  function FlushWrites(descs: seq<BufDesc>, pool: seq<Page>, f: FileId, k: nat): seq<IoEvent>
    requires k <= |descs| == |pool|
  {
    if k == 0 then []
    else FlushWrites(descs, pool, f, k - 1)
         + (if descs[k - 1].file == Some(f) && descs[k - 1].dirty then [Write(f, pool[k - 1])] else [])
  }

  /** The index with the entries of file `f` that point below frame `bound` removed. */
  function WithoutFile(index: map<Key, FrameId>, f: FileId, bound: nat): map<Key, FrameId> {
    map k | k in index && !(k.0 == f && index[k] < bound) :: index[k]
  }

  /**
   * Under the buffer invariant, WithoutFile drops a key exactly when one of
   * the frames below `bound` holds that page of `f`, and every surviving
   * entry still names the frame it named before.
   */
  lemma {:induction false} WithoutFileFrames(descs: seq<BufDesc>, index: map<Key, FrameId>, f: FileId, bound: nat)
    requires Consistent(descs, index)
    ensures forall k | k in index ::
      k !in WithoutFile(index, f, bound) <==> k.0 == f && exists i | 0 <= i < bound && i < |descs| :: Holds(descs[i], k)
    ensures forall k | k in WithoutFile(index, f, bound) :: k in index && WithoutFile(index, f, bound)[k] == index[k]
  {
    forall k | k in index
      ensures k !in WithoutFile(index, f, bound) <==> k.0 == f && exists i | 0 <= i < bound && i < |descs| :: Holds(descs[i], k)
    {
      assert EntryOk(descs, index, k);
      if k.0 == f && exists i | 0 <= i < bound && i < |descs| :: Holds(descs[i], k) {
        var i :| 0 <= i < bound && i < |descs| && Holds(descs[i], k);
        assert FrameOk(descs, index, i) && KeyOf(descs[i]) == k;
      }
    }
  }

  /** Every flush write-back goes to a page of `f` that a frame before k holds. */
  lemma {:induction false} FlushWritesResident(descs: seq<BufDesc>, pool: seq<Page>, index: map<Key, FrameId>, f: FileId, k: nat)
    requires Consistent(descs, index) && PoolMatches(descs, pool) && k <= |descs|
    ensures forall e | e in FlushWrites(descs, pool, f, k) ::
      e.Write? && e.file == f && (f, e.page.number) in index && index[(f, e.page.number)] < k
  {
    if k > 0 {
      FlushWritesResident(descs, pool, index, f, k - 1);
      if descs[k - 1].file == Some(f) && descs[k - 1].dirty {
        assert FrameOk(descs, index, k - 1) && SlotOk(descs, pool, k - 1);
        assert KeyOf(descs[k - 1]) == (f, pool[k - 1].number);
      }
    }
  }

  /** The frames of file `f` hold pages with pairwise different numbers, the numbers their descriptors name. */
  ghost predicate FilePagesDistinct(descs: seq<BufDesc>, pool: seq<Page>, f: FileId) {
    |pool| == |descs|
    && (forall i | 0 <= i < |descs| && descs[i].file == Some(f) :: pool[i].number == descs[i].pageNo)
    && (forall i, j | 0 <= i < |descs| && 0 <= j < |descs| && i != j && descs[i].file == Some(f) && descs[j].file == Some(f) ::
          descs[i].pageNo != descs[j].pageNo)
  }

  /** The buffer invariant gives distinct page numbers within each file. */
  lemma {:induction false} ConsistentFilePagesDistinct(descs: seq<BufDesc>, pool: seq<Page>, index: map<Key, FrameId>, f: FileId)
    requires Consistent(descs, index) && PoolMatches(descs, pool)
    ensures FilePagesDistinct(descs, pool, f)
  {
    forall i | 0 <= i < |descs| && descs[i].file == Some(f)
      ensures pool[i].number == descs[i].pageNo
    {
      assert FrameOk(descs, index, i) && SlotOk(descs, pool, i);
    }
    forall i, j | 0 <= i < |descs| && 0 <= j < |descs| && i != j && descs[i].file == Some(f) && descs[j].file == Some(f)
      ensures descs[i].pageNo != descs[j].pageNo
    {
      assert FrameOk(descs, index, i) && FrameOk(descs, index, j);
      DistinctPages(descs, index, i, j);
    }
  }

  /**
   * Each frame of `f` before k is written back exactly once if it is dirty
   * and not at all if it is clean.
   */
  lemma {:induction false} FlushWritesOnce(descs: seq<BufDesc>, pool: seq<Page>, f: FileId, k: nat, i: nat)
    requires FilePagesDistinct(descs, pool, f) && k <= |descs|
    requires i < |descs| && descs[i].file == Some(f)
    ensures Occurrences(FlushWrites(descs, pool, f, k), Write(f, pool[i])) == if i < k && descs[i].dirty then 1 else 0
  {
    if k > 0 {
      FlushWritesOnce(descs, pool, f, k - 1, i);
      var prev := FlushWrites(descs, pool, f, k - 1);
      var ws := FlushWrites(descs, pool, f, k);
      if descs[k - 1].file == Some(f) && descs[k - 1].dirty {
        assert ws[..|ws| - 1] == prev;
        assert k - 1 != i ==> pool[k - 1].number != pool[i].number;
      } else {
        assert ws == prev;
      }
    }
  }

  /**
   * After the flush write-backs of frames before k reach the files, each
   * dirty page of `f` among them is stored with the content its frame held.
   */
  lemma {:induction false} FlushWritesLand(descs: seq<BufDesc>, pool: seq<Page>, f: FileId, k: nat, pages: map<Key, Page>, i: nat)
    requires FilePagesDistinct(descs, pool, f) && k <= |descs|
    requires i < k && descs[i].file == Some(f) && descs[i].dirty
    ensures var after := Replay(pages, FlushWrites(descs, pool, f, k));
      (f, descs[i].pageNo) in after && after[(f, descs[i].pageNo)] == pool[i]
  {
    var prev := FlushWrites(descs, pool, f, k - 1);
    var ws := FlushWrites(descs, pool, f, k);
    if descs[k - 1].file == Some(f) && descs[k - 1].dirty {
      assert ws == prev + [Write(f, pool[k - 1])];
      assert ws[..|ws| - 1] == prev;
      if k - 1 != i {
        FlushWritesLand(descs, pool, f, k - 1, pages, i);
        assert descs[k - 1].pageNo != descs[i].pageNo;
      }
    } else {
      assert ws == prev;
      FlushWritesLand(descs, pool, f, k - 1, pages, i);
    }
  }

  /** The table after frames 0 .. k-1 of file `f` have been cleared. */
  function Flushed(descs: seq<BufDesc>, f: FileId, k: nat): seq<BufDesc> {
    seq(|descs|, i requires 0 <= i < |descs| => if i < k && descs[i].file == Some(f) then descs[i].Clear() else descs[i])
  }

  /** Scanning frame k clears it if it belongs to `f` and leaves every other frame as it was. */
  lemma {:induction false} FlushedStep(descs: seq<BufDesc>, f: FileId, k: nat)
    requires k < |descs|
    ensures |Flushed(descs, f, k)| == |descs| && Flushed(descs, f, k)[k] == descs[k]
    ensures Flushed(descs, f, k + 1)
      == if descs[k].file == Some(f) then Flushed(descs, f, k)[k := descs[k].Clear()] else Flushed(descs, f, k)
  {
    var before, after := Flushed(descs, f, k), Flushed(descs, f, k + 1);
    if descs[k].file == Some(f) {
      assert after == before[k := descs[k].Clear()];
    } else {
      assert after == before;
    }
  }

  /** The first frame below k that belongs to `f` and is pinned, or k when there is none. */
  function FirstPinned(descs: seq<BufDesc>, f: FileId, k: nat): (s: nat)
    requires k <= |descs|
    ensures s <= k
    ensures s < k ==> descs[s].file == Some(f) && descs[s].pinCnt > 0
    ensures forall i | 0 <= i < s :: !(descs[i].file == Some(f) && descs[i].pinCnt > 0)
  {
    if k == 0 then 0
    else
      var s := FirstPinned(descs, f, k - 1);
      if s < k - 1 then s
      else if descs[k - 1].file == Some(f) && descs[k - 1].pinCnt > 0 then k - 1
      else k
  }

  /** FirstPinned is the one position with a pinned frame of `f` there and none before it. */
  lemma {:induction false} FirstPinnedIs(descs: seq<BufDesc>, f: FileId, k: nat, s: nat)
    requires s <= k <= |descs|
    requires forall i | 0 <= i < s :: !(descs[i].file == Some(f) && descs[i].pinCnt > 0)
    requires s < k ==> descs[s].file == Some(f) && descs[s].pinCnt > 0
    ensures FirstPinned(descs, f, k) == s
  {
  }

  /** Scanning one more frame removes exactly that frame's entry from the index, if it belongs to `f`. */
  lemma {:induction false} WithoutFileStep(descs: seq<BufDesc>, index: map<Key, FrameId>, f: FileId, i: nat)
    requires Consistent(descs, index) && i < |descs|
    ensures descs[i].file == Some(f) ==>
      (f, descs[i].pageNo) in WithoutFile(index, f, i)
      && WithoutFile(index, f, i + 1) == WithoutFile(index, f, i) - {(f, descs[i].pageNo)}
    ensures descs[i].file != Some(f) ==> WithoutFile(index, f, i + 1) == WithoutFile(index, f, i)
  {
    assert FrameOk(descs, index, i);
    var before, after := WithoutFile(index, f, i), WithoutFile(index, f, i + 1);
    forall k | k in index && k.0 == f && index[k] == i
      ensures descs[i].file == Some(f) && k == (f, descs[i].pageNo)
    {
      assert EntryOk(descs, index, k);
    }
    if descs[i].file == Some(f) {
      assert after.Keys == before.Keys - {(f, descs[i].pageNo)};
    } else {
      assert after.Keys == before.Keys;
    }
  }

  /** Clearing the frames of `f` below k and dropping their index entries keeps the buffer invariants. */
  lemma {:induction false} FlushKeepsConsistent(descs: seq<BufDesc>, pool: seq<Page>, index: map<Key, FrameId>, f: FileId, k: nat)
    requires Consistent(descs, index) && PoolMatches(descs, pool) && k <= |descs|
    ensures Consistent(Flushed(descs, f, k), WithoutFile(index, f, k)) && PoolMatches(Flushed(descs, f, k), pool)
  {
    var descs', index' := Flushed(descs, f, k), WithoutFile(index, f, k);
    forall i | 0 <= i < |descs'|
      ensures FrameOk(descs', index', i) && SlotOk(descs', pool, i)
    {
      assert FrameOk(descs, index, i) && SlotOk(descs, pool, i);
    }
    forall key | key in index'
      ensures EntryOk(descs', index', key)
    {
      assert EntryOk(descs, index, key);
    }
  }

  /** After a complete scan no frame and no index entry of `f` is left. */
  lemma {:induction false} FlushCompleteRemovesFile(descs: seq<BufDesc>, index: map<Key, FrameId>, f: FileId)
    requires Consistent(descs, index)
    ensures forall i | 0 <= i < |descs| :: Flushed(descs, f, |descs|)[i].file != Some(f)
    ensures forall key | key in WithoutFile(index, f, |descs|) :: key.0 != f
  {
    forall key | key in WithoutFile(index, f, |descs|)
      ensures key.0 != f
    {
      assert EntryOk(descs, index, key);
    }
  }

  /** Pages the index knows of stay in the files while the flush write-backs land. */
  lemma {:induction false} FlushKeepsResident(descs: seq<BufDesc>, pool: seq<Page>, index: map<Key, FrameId>, pages: map<Key, Page>, f: FileId, k: nat)
    requires Consistent(descs, index) && PoolMatches(descs, pool) && k <= |descs| && index.Keys <= pages.Keys
    ensures WithoutFile(index, f, k).Keys <= Replay(pages, FlushWrites(descs, pool, f, k)).Keys
  {
    FlushWritesResident(descs, pool, index, f, k);
    ReplayWritesKeepKeys(pages, FlushWrites(descs, pool, f, k));
  }

  /** What flushFile may rely on about the state it started from: the buffer invariants, and every indexed page is in the files. */
  ghost predicate ScanStart(descs: seq<BufDesc>, pool: seq<Page>, index: map<Key, FrameId>, pages: map<Key, Page>) {
    Consistent(descs, index) && PoolMatches(descs, pool) && index.Keys <= pages.Keys
  }

  /**
   * flushFile has scanned frames 0 .. k-1 of the table `descs` it started
   * from, none of them a pinned frame of `f`: the table, the index, the
   * files and the log are now `descs'`, `index'`, `pages'` and `log'`.
   */
  ghost predicate ScannedUpTo(descs: seq<BufDesc>, pool: seq<Page>, index: map<Key, FrameId>, pages: map<Key, Page>, log: seq<IoEvent>,
                              f: FileId, k: nat,
                              descs': seq<BufDesc>, index': map<Key, FrameId>, pages': map<Key, Page>, log': seq<IoEvent>)
    requires k <= |descs| == |pool|
  {
    (forall j | 0 <= j < k :: !(descs[j].file == Some(f) && descs[j].pinCnt > 0))
    && descs' == Flushed(descs, f, k) && index' == WithoutFile(index, f, k)
    && log' == log + FlushWrites(descs, pool, f, k) && pages' == Replay(pages, FlushWrites(descs, pool, f, k))
  }

  /** Before the scan, nothing has been scanned. */
  lemma ScanFromStart(descs: seq<BufDesc>, pool: seq<Page>, index: map<Key, FrameId>, pages: map<Key, Page>, log: seq<IoEvent>, f: FileId)
    requires |descs| == |pool|
    ensures ScannedUpTo(descs, pool, index, pages, log, f, 0, descs, index, pages, log)
  {
    assert Flushed(descs, f, 0) == descs;
    assert WithoutFile(index, f, 0) == index;
    assert log + [] == log;
  }

  /**
   * Before frame k is scanned it is as it was at the start, and if it
   * belongs to `f` it is valid, numbered k, and its page is in the files.
   */
  lemma {:induction false} ScanReady(descs: seq<BufDesc>, pool: seq<Page>, index: map<Key, FrameId>, pages: map<Key, Page>, log: seq<IoEvent>,
                                     f: FileId, k: nat,
                                     descs': seq<BufDesc>, index': map<Key, FrameId>, pages': map<Key, Page>, log': seq<IoEvent>)
    requires ScanStart(descs, pool, index, pages) && k < |descs|
    requires ScannedUpTo(descs, pool, index, pages, log, f, k, descs', index', pages', log')
    ensures |descs'| == |descs| && descs'[k] == descs[k]
    ensures descs[k].file == Some(f) ==>
      descs[k].valid && descs[k].frameNo == k && pool[k].number == descs[k].pageNo && (f, pool[k].number) in pages'
  {
    FlushedStep(descs, f, k);
    FlushWritesResident(descs, pool, index, f, k);
    ReplayWritesKeepKeys(pages, FlushWrites(descs, pool, f, k));
    assert FrameOk(descs, index, k) && SlotOk(descs, pool, k);
  }

  /**
   * Scanning a frame that is not a pinned frame of `f` clears it, drops
   * its index entry and writes it back if dirty when it belongs to `f`,
   * and leaves it alone otherwise; that is one more frame scanned.
   */
  lemma {:induction false} ScanAdvance(descs: seq<BufDesc>, pool: seq<Page>, index: map<Key, FrameId>, pages: map<Key, Page>, log: seq<IoEvent>,
                                       f: FileId, k: nat,
                                       descs': seq<BufDesc>, index': map<Key, FrameId>, pages': map<Key, Page>, log': seq<IoEvent>)
    requires ScanStart(descs, pool, index, pages) && k < |descs|
    requires ScannedUpTo(descs, pool, index, pages, log, f, k, descs', index', pages', log')
    requires !(descs[k].file == Some(f) && descs[k].pinCnt > 0)
    ensures var mine := descs[k].file == Some(f);
      ScannedUpTo(descs, pool, index, pages, log, f, k + 1,
                  if mine then descs'[k := descs[k].Clear()] else descs',
                  if mine then index' - {(f, descs[k].pageNo)} else index',
                  if mine && descs[k].dirty then ApplyEvent(pages', Write(f, pool[k])) else pages',
                  log' + (if mine && descs[k].dirty then [Write(f, pool[k])] else []))
  {
    FlushedStep(descs, f, k);
    WithoutFileStep(descs, index, f, k);
    var ws := FlushWrites(descs, pool, f, k);
    if descs[k].file == Some(f) && descs[k].dirty {
      ReplayAppend(pages, ws, Write(f, pool[k]));
      assert log' + [Write(f, pool[k])] == log + (ws + [Write(f, pool[k])]);
    } else {
      assert FlushWrites(descs, pool, f, k + 1) == ws;
    }
  }

  /**
   * Where the scan stops: at the first pinned frame of `f`, or after the
   * last frame. The invariants hold there, the index still names only
   * pages the files have, and a complete scan leaves nothing of `f`.
   */
  lemma {:induction false} ScanOutcome(descs: seq<BufDesc>, pool: seq<Page>, index: map<Key, FrameId>, pages: map<Key, Page>, log: seq<IoEvent>,
                                       f: FileId, stop: nat,
                                       descs': seq<BufDesc>, index': map<Key, FrameId>, pages': map<Key, Page>, log': seq<IoEvent>)
    requires ScanStart(descs, pool, index, pages) && stop <= |descs|
    requires ScannedUpTo(descs, pool, index, pages, log, f, stop, descs', index', pages', log')
    requires stop < |descs| ==> descs[stop].file == Some(f) && descs[stop].pinCnt > 0
    ensures FirstPinned(descs, f, |descs|) == stop
    ensures Consistent(descs', index') && PoolMatches(descs', pool) && index'.Keys <= pages'.Keys
    ensures stop == |descs| ==>
      (forall i | 0 <= i < |descs'| :: descs'[i].file != Some(f)) && (forall key | key in index' :: key.0 != f)
  {
    FirstPinnedIs(descs, f, |descs|, stop);
    FlushKeepsConsistent(descs, pool, index, f, stop);
    FlushKeepsResident(descs, pool, index, pages, f, stop);
    if stop == |descs| {
      FlushCompleteRemovesFile(descs, index, f);
    }
  }
}
