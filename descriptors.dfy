/**
 * Frame descriptors (`BufDesc`) and the invariant that ties the descriptor
 * table, the page pool and the page-to-frame index together.
 */
module Descriptors {
  import opened Types

  /** One entry of `bufDescTable`. */
  datatype BufDesc = BufDesc(
    file: Option<FileId>,
    pageNo: PageId,
    frameNo: FrameId,
    pinCnt: nat,
    dirty: bool,
    valid: bool,
    refbit: bool)
  {
    /**
     * `BufDesc::Clear` of BadgerDB's buffer.h: no file, invalid page number,
     * unpinned, clean, invalid, reference bit off; the frame number is kept.
     */
    function Clear(): BufDesc {
      this.(file := None, pageNo := InvalidPageNo, pinCnt := 0, dirty := false, valid := false, refbit := false)
    }

    /**
     * `BufDesc::Set` of BadgerDB's buffer.h: the frame now holds page `p` of
     * file `f`, pinned once, clean, valid, reference bit on.
     */
    function Set(f: FileId, p: PageId): BufDesc {
      this.(file := Some(f), pageNo := p, pinCnt := 1, dirty := false, valid := true, refbit := true)
    }

    /** The descriptor a freshly constructed `BufDesc` has (its constructor calls Clear). */
    static const Empty: BufDesc := BufDesc(None, InvalidPageNo, 0, 0, false, false, false)
  }

  /** The index key of a descriptor that holds a page. */
  function KeyOf(d: BufDesc): Key
    requires d.file.Some?
  {
    (d.file.value, d.pageNo)
  }

  /** Frame `d` holds page `k.1` of file `k.0`. */
  predicate Holds(d: BufDesc, k: Key) {
    d.valid && d.file == Some(k.0) && d.pageNo == k.1
  }

  /**
   * Frame i knows its own number; if invalid it is in the cleared state; if
   * valid it belongs to a file and the index maps its page to i.
   */
  ghost predicate FrameOk(descs: seq<BufDesc>, index: map<Key, FrameId>, i: nat)
    requires i < |descs|
  {
    descs[i].frameNo == i
    && (!descs[i].valid ==> descs[i] == descs[i].Clear())
    && (descs[i].valid ==> descs[i].file.Some? && KeyOf(descs[i]) in index && index[KeyOf(descs[i])] == i)
  }

  /** The index entry for `k` names a frame that holds `k`. */
  ghost predicate EntryOk(descs: seq<BufDesc>, index: map<Key, FrameId>, k: Key)
    requires k in index
  {
    index[k] < |descs| && Holds(descs[index[k]], k)
  }

  /**
   * The buffer manager's invariant over descriptors and the hash table:
   * every frame is as FrameOk says and every index entry as EntryOk says,
   * so the index maps (f, p) to i exactly when frame i is valid and holds
   * page p of file f.
   */
  ghost predicate Consistent(descs: seq<BufDesc>, index: map<Key, FrameId>) {
    (forall i {:trigger FrameOk(descs, index, i)} | 0 <= i < |descs| :: FrameOk(descs, index, i))
    && (forall k {:trigger EntryOk(descs, index, k)} | k in index :: EntryOk(descs, index, k))
  }

  /** A valid frame's pool slot holds the page its descriptor names. */
  ghost predicate SlotOk(descs: seq<BufDesc>, pool: seq<Page>, i: nat)
    requires i < |descs| && i < |pool|
  {
    descs[i].valid ==> pool[i].number == descs[i].pageNo
  }

  /** Every valid frame's pool slot holds the page the descriptor names. */
  ghost predicate PoolMatches(descs: seq<BufDesc>, pool: seq<Page>) {
    |pool| == |descs|
    && forall i {:trigger SlotOk(descs, pool, i)} | 0 <= i < |descs| :: SlotOk(descs, pool, i)
  }

  /** The index is one-to-one: two valid frames never hold the same page. */
  lemma {:induction false} DistinctPages(descs: seq<BufDesc>, index: map<Key, FrameId>, i: nat, j: nat)
    requires Consistent(descs, index)
    requires i < |descs| && j < |descs| && i != j && descs[i].valid && descs[j].valid
    ensures descs[i].file.Some? && descs[j].file.Some? && KeyOf(descs[i]) != KeyOf(descs[j])
  {
    assert FrameOk(descs, index, i) && FrameOk(descs, index, j);
  }

  /** The (f, p) -> i entry exists exactly when frame i is valid and holds p of f. */
  lemma {:induction false} IndexIff(descs: seq<BufDesc>, index: map<Key, FrameId>, k: Key, i: nat)
    requires Consistent(descs, index)
    ensures (k in index && index[k] == i) <==> (i < |descs| && Holds(descs[i], k))
  {
    if k in index {
      assert EntryOk(descs, index, k);
    }
    if i < |descs| && Holds(descs[i], k) {
      assert FrameOk(descs, index, i);
      assert KeyOf(descs[i]) == k;
    }
  }

  /** No index entry points at an invalid frame. */
  lemma {:induction false} NoEntryFor(descs: seq<BufDesc>, index: map<Key, FrameId>, j: nat)
    requires Consistent(descs, index) && j < |descs| && !descs[j].valid
    ensures forall k | k in index :: index[k] != j
  {
    forall k | k in index
      ensures index[k] != j
    {
      assert EntryOk(descs, index, k);
    }
  }

  /** Removing a valid frame's index entry and clearing it keeps the invariant. */
  lemma {:induction false} EvictKeepsConsistent(descs: seq<BufDesc>, pool: seq<Page>, index: map<Key, FrameId>, j: nat)
    requires Consistent(descs, index) && PoolMatches(descs, pool) && j < |descs| && descs[j].valid
    ensures descs[j].file.Some? && KeyOf(descs[j]) in index && index[KeyOf(descs[j])] == j
    ensures Consistent(descs[j := descs[j].Clear()], index - {KeyOf(descs[j])})
    ensures PoolMatches(descs[j := descs[j].Clear()], pool)
  {
    assert FrameOk(descs, index, j);
    var descs', index' := descs[j := descs[j].Clear()], index - {KeyOf(descs[j])};
    forall i | 0 <= i < |descs'|
      ensures FrameOk(descs', index', i) && SlotOk(descs', pool, i)
    {
      assert FrameOk(descs, index, i) && SlotOk(descs, pool, i);
      if i != j && descs[i].valid {
        DistinctPages(descs, index, i, j);
      }
    }
    forall k | k in index'
      ensures EntryOk(descs', index', k)
    {
      assert EntryOk(descs, index, k);
      assert index[k] != j;
    }
  }

  /** Setting an invalid frame to a page that has no entry, and inserting the entry, keeps the invariant. */
  lemma {:induction false} InstallKeepsConsistent(descs: seq<BufDesc>, index: map<Key, FrameId>, j: nat, f: FileId, p: PageId)
    requires Consistent(descs, index) && j < |descs| && !descs[j].valid && (f, p) !in index
    ensures Consistent(descs[j := descs[j].Set(f, p)], index[(f, p) := j])
  {
    var descs', index' := descs[j := descs[j].Set(f, p)], index[(f, p) := j];
    assert FrameOk(descs, index, j);
    forall i | 0 <= i < |descs'|
      ensures FrameOk(descs', index', i)
    {
      assert FrameOk(descs, index, i);
    }
    forall k | k in index'
      ensures EntryOk(descs', index', k)
    {
      if k != (f, p) {
        assert EntryOk(descs, index, k);
      }
    }
  }

  /**
   * Changing only the bookkeeping of a valid frame (pin count, dirty and
   * reference bits) keeps the invariants.
   */
  lemma {:induction false} TouchKeepsConsistent(descs: seq<BufDesc>, pool: seq<Page>, index: map<Key, FrameId>, j: nat, d: BufDesc)
    requires Consistent(descs, index) && PoolMatches(descs, pool) && j < |descs| && descs[j].valid
    requires d.valid && d.file == descs[j].file && d.pageNo == descs[j].pageNo && d.frameNo == descs[j].frameNo
    ensures Consistent(descs[j := d], index) && PoolMatches(descs[j := d], pool)
  {
    var descs' := descs[j := d];
    forall i | 0 <= i < |descs'|
      ensures FrameOk(descs', index, i) && SlotOk(descs', pool, i)
    {
      assert FrameOk(descs, index, i) && SlotOk(descs, pool, i);
    }
    forall k | k in index
      ensures EntryOk(descs', index, k)
    {
      assert EntryOk(descs, index, k);
    }
  }
}
