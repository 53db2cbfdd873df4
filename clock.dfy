/**
 * The clock (second-chance) replacement policy of `BufMgr::allocBuf`,
 * stated as functions over descriptor values, and what it guarantees.
 */
module Clock {
  import opened Types
  import opened Descriptors

  /** `advanceClock`: the hand moves one frame on, wrapping from the last frame to frame 0. */
  function NextHand(hand: nat, n: nat): (h: FrameId)
    requires n > 0
    ensures h < n
    ensures hand < n ==> h == if hand == n - 1 then 0 else hand + 1
  {
    (hand + 1) % n
  }

  /** Number of frames whose reference bit is set. */
  function RefCount(descs: seq<BufDesc>): nat {
    if descs == [] then 0 else (if descs[0].refbit then 1 else 0) + RefCount(descs[1..])
  }

  /** Turning off one set reference bit lowers the count by exactly one. */
  lemma {:induction false} RefCountClear(descs: seq<BufDesc>, i: nat)
    requires i < |descs| && descs[i].refbit
    ensures RefCount(descs[i := descs[i].(refbit := false)]) == RefCount(descs) - 1
  {
    var d := descs[i := descs[i].(refbit := false)];
    if i == 0 {
      assert d[1..] == descs[1..];
    } else {
      RefCountClear(descs[1..], i - 1);
      assert d[1..] == descs[1..][i - 1 := descs[i].(refbit := false)];
    }
  }

  /**
   * `after` differs from `before` only in reference bits that were on in a
   * valid frame and are now off.
   */
  ghost predicate OnlyRefbitsCleared(before: seq<BufDesc>, after: seq<BufDesc>) {
    |after| == |before|
    && forall i | 0 <= i < |before| ::
         after[i] == before[i] || (before[i].valid && after[i] == before[i].(refbit := false))
  }

  /** Clearing reference bits of valid frames disturbs neither the table invariant nor the pool. */
  lemma {:induction false} RefbitsKeepConsistent(before: seq<BufDesc>, after: seq<BufDesc>, pool: seq<Page>, index: map<Key, FrameId>)
    requires Consistent(before, index) && PoolMatches(before, pool) && OnlyRefbitsCleared(before, after)
    ensures Consistent(after, index) && PoolMatches(after, pool)
  {
    forall i | 0 <= i < |after|
      ensures FrameOk(after, index, i) && SlotOk(after, pool, i)
    {
      assert FrameOk(before, index, i) && SlotOk(before, pool, i);
    }
    forall k | k in index
      ensures EntryOk(after, index, k)
    {
      assert EntryOk(before, index, k);
    }
  }

  /** Where the sweep of allocBuf stopped: the table it left, the hand, and whether it found a frame. */
  datatype Sweep = Sweep(descs: seq<BufDesc>, hand: FrameId, found: bool)

  /**
   * The while loop of allocBuf, one iteration per call: `pinCount` counts the
   * pinned frames met so far and the loop gives up once it exceeds the number
   * of frames. Each stop advances the hand, then takes an invalid frame, or
   * clears a set reference bit and goes on, or takes an unpinned frame, or
   * counts a pinned one. Reference-bit steps do not count toward the limit;
   * they terminate because each one turns a bit off.
   */
  ghost function ClockSweep(descs: seq<BufDesc>, hand: nat, pinCount: nat): (s: Sweep)
    requires hand < |descs|
    ensures |s.descs| == |descs| && s.hand < |descs|
    decreases |descs| + 1 - pinCount, RefCount(descs)
  {
    if pinCount > |descs| then Sweep(descs, hand, false)
    else
      var h := NextHand(hand, |descs|);
      if !descs[h].valid then Sweep(descs, h, true)
      else if descs[h].refbit then
        RefCountClear(descs, h);
        ClockSweep(descs[h := descs[h].(refbit := false)], h, pinCount)
      else if descs[h].pinCnt == 0 then Sweep(descs, h, true)
      else ClockSweep(descs, h, pinCount + 1)
  }

  /**
   * The sweep changes frames only by turning off reference bits of valid
   * frames, and when it finds a frame that frame is invalid, or unpinned with
   * its reference bit off.
   */
  lemma {:induction false} SweepShape(descs: seq<BufDesc>, hand: nat, pinCount: nat)
    requires hand < |descs|
    ensures var s := ClockSweep(descs, hand, pinCount);
      OnlyRefbitsCleared(descs, s.descs)
      && (s.found ==> Free(s.descs[s.hand]))
    decreases |descs| + 1 - pinCount, RefCount(descs)
  {
    if pinCount <= |descs| {
      var h := NextHand(hand, |descs|);
      if descs[h].valid && descs[h].refbit {
        RefCountClear(descs, h);
        SweepShape(descs[h := descs[h].(refbit := false)], h, pinCount);
      } else if descs[h].valid && descs[h].pinCnt != 0 {
        SweepShape(descs, h, pinCount + 1);
      }
    }
  }

  /** Steps the hand needs, from `hand`, to stop at frame `j`. */
  function Distance(hand: nat, j: nat, n: nat): (d: nat)
    requires hand < n && j < n
    ensures 1 <= d <= n
  {
    if hand < j then j - hand else j + n - hand
  }

  /** A frame allocBuf would take the moment the hand reaches it. */
  predicate Free(d: BufDesc) {
    !d.valid || (d.pinCnt == 0 && !d.refbit)
  }

  /**
   * A free frame is reached before the pinned-frame count runs out, so the
   * sweep succeeds when it starts with such a frame in the table.
   */
  lemma {:induction false} SweepReachesFree(descs: seq<BufDesc>, hand: nat, pinCount: nat, j: nat)
    requires hand < |descs| && j < |descs| && Free(descs[j])
    requires pinCount + Distance(hand, j, |descs|) <= |descs| + 1
    ensures ClockSweep(descs, hand, pinCount).found
    decreases |descs| + 1 - pinCount, RefCount(descs)
  {
    var h := NextHand(hand, |descs|);
    if h != j && descs[h].valid {
      assert Distance(h, j, |descs|) == Distance(hand, j, |descs|) - 1;
      if descs[h].refbit {
        RefCountClear(descs, h);
        SweepReachesFree(descs[h := descs[h].(refbit := false)], h, pinCount, j);
      } else if descs[h].pinCnt != 0 {
        SweepReachesFree(descs, h, pinCount + 1, j);
      }
    }
  }

  /** With every frame valid and pinned the sweep gives up. */
  lemma {:induction false} SweepAllPinned(descs: seq<BufDesc>, hand: nat, pinCount: nat)
    requires hand < |descs|
    requires forall i | 0 <= i < |descs| :: descs[i].valid && descs[i].pinCnt > 0
    ensures !ClockSweep(descs, hand, pinCount).found
    decreases |descs| + 1 - pinCount, RefCount(descs)
  {
    if pinCount <= |descs| {
      var h := NextHand(hand, |descs|);
      if descs[h].refbit {
        RefCountClear(descs, h);
        SweepAllPinned(descs[h := descs[h].(refbit := false)], h, pinCount);
      } else {
        SweepAllPinned(descs, h, pinCount + 1);
      }
    }
  }

  /**
   * A sweep that gives up has passed frame `j` at least once on its way to
   * the limit, so it leaves that frame's reference bit off.
   */
  lemma {:induction false} SweepFailClearsRefbit(descs: seq<BufDesc>, hand: nat, pinCount: nat, j: nat)
    requires hand < |descs| && j < |descs|
    requires pinCount + Distance(hand, j, |descs|) <= |descs| + 1
    ensures var s := ClockSweep(descs, hand, pinCount); !s.found ==> !s.descs[j].refbit
    decreases |descs| + 1 - pinCount, RefCount(descs)
  {
    var h := NextHand(hand, |descs|);
    if h == j {
      if descs[h].valid && descs[h].refbit {
        RefCountClear(descs, h);
        SweepShape(descs[h := descs[h].(refbit := false)], h, pinCount);
      } else if descs[h].valid && descs[h].pinCnt != 0 {
        SweepShape(descs, h, pinCount + 1);
      }
    } else if descs[h].valid {
      assert Distance(h, j, |descs|) == Distance(hand, j, |descs|) - 1;
      if descs[h].refbit {
        RefCountClear(descs, h);
        SweepFailClearsRefbit(descs[h := descs[h].(refbit := false)], h, pinCount, j);
      } else if descs[h].pinCnt != 0 {
        SweepFailClearsRefbit(descs, h, pinCount + 1, j);
      }
    }
  }

  /** A sweep from the start that gives up leaves every reference bit off. */
  lemma {:induction false} SweepFailClearsAll(descs: seq<BufDesc>, hand: nat)
    requires hand < |descs|
    ensures var s := ClockSweep(descs, hand, 0);
      !s.found ==> forall i | 0 <= i < |descs| :: !s.descs[i].refbit
  {
    forall i | 0 <= i < |descs|
      ensures var s := ClockSweep(descs, hand, 0); !s.found ==> !s.descs[i].refbit
    {
      SweepFailClearsRefbit(descs, hand, 0, i);
    }
  }

  /** What allocBuf leaves behind: table, index, hand, the write-back it issued, and its outcome. */
  datatype Alloc = Alloc(
    descs: seq<BufDesc>,
    index: map<Key, FrameId>,
    hand: FrameId,
    writeBack: seq<IoEvent>,
    frame: Result<FrameId>)

  /**
   * `allocBuf`: run the sweep; give up with BufferExceeded; return an invalid
   * frame as it is; or write the victim back if dirty, remove its index entry
   * and clear it.
   */
  ghost function AllocBufSpec(descs: seq<BufDesc>, pool: seq<Page>, index: map<Key, FrameId>, hand: nat): (a: Alloc)
    requires hand < |descs| && Consistent(descs, index) && PoolMatches(descs, pool)
    ensures Consistent(a.descs, a.index) && PoolMatches(a.descs, pool) && a.hand < |descs|
    ensures a.index.Keys <= index.Keys
    ensures forall w | w in a.writeBack :: w.Write? && (w.file, w.page.number) in index && (w.file, w.page.number) !in a.index
    ensures a.frame.Err? ==>
      a.frame.error == BufferExceeded && a.index == index && a.writeBack == [] && OnlyRefbitsCleared(descs, a.descs)
      && forall i | 0 <= i < |descs| :: !a.descs[i].refbit
    ensures a.frame.Ok? ==>
      var j := a.frame.value;
      j == a.hand && a.descs[j] == descs[j].Clear()
      && (forall k | k in a.index :: a.index[k] != j)
      && (forall i | 0 <= i < |descs| && i != j ::
            a.descs[i] == descs[i] || (descs[i].valid && a.descs[i] == descs[i].(refbit := false)))
      && (!descs[j].valid ==> a.index == index && a.writeBack == [])
      && (descs[j].valid ==>
            descs[j].file.Some? && descs[j].pinCnt == 0 && a.index == index - {KeyOf(descs[j])}
            && a.writeBack == if descs[j].dirty then [Write(descs[j].file.value, pool[j])] else [])
  {
    var s := ClockSweep(descs, hand, 0);
    SweepShape(descs, hand, 0);
    SweepFailClearsAll(descs, hand);
    RefbitsKeepConsistent(descs, s.descs, pool, index);
    if !s.found then Alloc(s.descs, index, s.hand, [], Err(BufferExceeded))
    else
      var d := s.descs[s.hand];
      assert FrameOk(s.descs, index, s.hand) && SlotOk(s.descs, pool, s.hand);
      if !d.valid then
        NoEntryFor(s.descs, index, s.hand);
        Alloc(s.descs, index, s.hand, [], Ok(d.frameNo))
      else
        EvictKeepsConsistent(s.descs, pool, index, s.hand);
        NoEntryFor(s.descs[s.hand := d.Clear()], index - {KeyOf(d)}, s.hand);
        Alloc(s.descs[s.hand := d.Clear()], index - {KeyOf(d)}, s.hand,
              if d.dirty then [Write(d.file.value, pool[s.hand])] else [], Ok(d.frameNo))
  }

  /** allocBuf succeeds whenever some frame is invalid, or valid, unpinned and with its reference bit off. */
  lemma {:induction false} AllocBufFindsFree(descs: seq<BufDesc>, pool: seq<Page>, index: map<Key, FrameId>, hand: nat, j: nat)
    requires hand < |descs| && Consistent(descs, index) && PoolMatches(descs, pool)
    requires j < |descs| && Free(descs[j])
    ensures AllocBufSpec(descs, pool, index, hand).frame.Ok?
  {
    SweepReachesFree(descs, hand, 0, j);
  }

  /** allocBuf fails with BufferExceeded when every frame is valid and pinned, changing only reference bits. */
  lemma {:induction false} AllocBufAllPinned(descs: seq<BufDesc>, pool: seq<Page>, index: map<Key, FrameId>, hand: nat)
    requires hand < |descs| && Consistent(descs, index) && PoolMatches(descs, pool)
    requires forall i | 0 <= i < |descs| :: descs[i].valid && descs[i].pinCnt > 0
    ensures var a := AllocBufSpec(descs, pool, index, hand);
      a.frame == Err(BufferExceeded) && a.index == index && a.writeBack == [] && OnlyRefbitsCleared(descs, a.descs)
  {
    SweepAllPinned(descs, hand, 0);
  }

  /**
   * After allocBuf has failed, unpinning a frame pinned once (as unPinPage
   * does, possibly marking it dirty) keeps the invariants, and the next
   * allocBuf succeeds: the failed sweep left every reference bit off.
   */
  lemma {:induction false} UnpinThenRetry(descs: seq<BufDesc>, pool: seq<Page>, index: map<Key, FrameId>, hand: nat, j: nat, dirty: bool)
    requires hand < |descs| && Consistent(descs, index) && PoolMatches(descs, pool) && j < |descs|
    requires AllocBufSpec(descs, pool, index, hand).frame.Err?
    requires AllocBufSpec(descs, pool, index, hand).descs[j].valid && AllocBufSpec(descs, pool, index, hand).descs[j].pinCnt == 1
    ensures var a := AllocBufSpec(descs, pool, index, hand);
      var d := a.descs[j];
      var after := a.descs[j := d.(pinCnt := 0, dirty := d.dirty || dirty)];
      Consistent(after, a.index) && PoolMatches(after, pool) && AllocBufSpec(after, pool, a.index, a.hand).frame.Ok?
  {
    var a := AllocBufSpec(descs, pool, index, hand);
    var d := a.descs[j];
    var after := a.descs[j := d.(pinCnt := 0, dirty := d.dirty || dirty)];
    TouchKeepsConsistent(a.descs, pool, a.index, j, d.(pinCnt := 0, dirty := d.dirty || dirty));
    AllocBufFindsFree(after, pool, a.index, a.hand, j);
  }

  /**
   * allocBuf can report BufferExceeded although an unpinned frame exists:
   * with frames A and B pinned and C unpinned but referenced, and the hand on
   * C, the sweep visits A (1), B (2), C (bit cleared, not counted), A (3),
   * B (4 > 3 frames) and gives up before it returns to C.
   */
  lemma PrematureBufferExceeded()
    ensures var descs := [BufDesc(Some(7), 1, 0, 1, false, true, false),
                          BufDesc(Some(7), 2, 1, 1, false, true, false),
                          BufDesc(Some(7), 3, 2, 0, false, true, true)];
            var pool := [Page(1, []), Page(2, []), Page(3, [])];
            var index := map[(7, 1) := 0, (7, 2) := 1, (7, 3) := 2];
            Consistent(descs, index) && PoolMatches(descs, pool)
            && descs[2].valid && descs[2].pinCnt == 0
            && AllocBufSpec(descs, pool, index, 2).frame == Err(BufferExceeded)
  {
    var descs := [BufDesc(Some(7), 1, 0, 1, false, true, false),
                  BufDesc(Some(7), 2, 1, 1, false, true, false),
                  BufDesc(Some(7), 3, 2, 0, false, true, true)];
    var index := map[(7, 1) := 0, (7, 2) := 1, (7, 3) := 2];
    var cleared := descs[2 := descs[2].(refbit := false)];
    assert KeyOf(descs[0]) == (7, 1) && KeyOf(descs[1]) == (7, 2) && KeyOf(descs[2]) == (7, 3);
    assert Consistent(descs, index);
    assert ClockSweep(cleared, 1, 4) == Sweep(cleared, 1, false);
    assert ClockSweep(cleared, 0, 3) == Sweep(cleared, 1, false);
    assert ClockSweep(cleared, 2, 2) == Sweep(cleared, 1, false);
    assert ClockSweep(descs, 1, 2) == Sweep(cleared, 1, false);
    assert ClockSweep(descs, 0, 1) == Sweep(cleared, 1, false);
    assert ClockSweep(descs, 2, 0) == Sweep(cleared, 1, false);
  }
}
