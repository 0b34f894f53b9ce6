/**
 * The ARC replacer operations whose code does something other than what their
 * own doc comments and the ARC policy ask for, modelled as the code is written,
 * each next to a concrete replacer state on which the written code goes wrong
 * while the corrected step function of ArcSpec (which the rest of the model
 * uses) does what was intended.
 */
module ArcAsWritten {
  import opened Wrappers
  import opened Seqs
  import opened ArcSpec
  import opened ArcInvariant

  /** size_t arithmetic wraps around modulo 2^64. */
  const SizeTModulus: nat := 0x1_0000_0000_0000_0000

  // ---------------------------------------------------------------------------
  // The code as written
  // ---------------------------------------------------------------------------

  /**
   * evictFromList as written (src/buffer/arc_replacer.cpp:35-54). Certain: the
   * victim leaves the live index; its page is pushed onto a by-value copy of the
   * ghost list (:46), so mru_ghost_ and mfu_ghost_ do not change; ghost_map_ is
   * never written and curr_size_ never decremented. Not determined: the erase at
   * :43 applies an iterator into a member list to the by-value copy of that list,
   * which C++ leaves undefined; this function takes one reading of it, that
   * mru_ and mfu_ are unchanged.
   */
  function EvictFromAsWritten(st: ArcState, fromMfu: bool): (r: (ArcState, Option<int>))
    ensures r.1 == (match Backmost(if fromMfu then st.mfu else st.mru, st.alive)
                    case None => None
                    case Some(i) => Some((if fromMfu then st.mfu else st.mru)[i]))
    ensures r.0.mru == st.mru && r.0.mfu == st.mfu
    ensures r.0.mruGhost == st.mruGhost && r.0.mfuGhost == st.mfuGhost && r.0.ghosts == st.ghosts
    ensures r.0.currSize == st.currSize
    ensures r.1.Some? ==> r.1.value !in r.0.alive
  {
    var list := if fromMfu then st.mfu else st.mru;
    match Backmost(list, st.alive)
    case None => (st, None)
    case Some(i) => (st.(alive := st.alive - {list[i]}), Some(list[i]))
  }

  /**
   * SetEvictable as written (src/buffer/arc_replacer.cpp:234-241): an untracked
   * frame is an error; otherwise the frame becomes evictable whatever the flag
   * asks, and the size is not touched.
   */
  function SetEvictableAsWritten(st: ArcState, f: int, flag: bool): (r: (ArcState, Outcome))
    ensures r.1 == (if f in st.alive then Ok else Err(InvalidFrame))
    ensures f in st.alive ==> f in r.0.alive && r.0.alive[f].evictable
    ensures r.0.currSize == st.currSize
  {
    if f !in st.alive then (st, Err(InvalidFrame))
    else (st.(alive := st.alive[f := st.alive[f].(evictable := true)]), Ok)
  }

  /**
   * A total miss as written (src/buffer/arc_replacer.cpp:188-214): the ghost
   * trimming and the insertion are as in Miss, but curr_size_ is never
   * incremented (no line of the file writes it after construction).
   */
  function MissAsWritten(st: ArcState, f: int, p: int): (r: ArcState)
    requires Inv(st) && AccessAllowed(st, f, p) && f !in st.alive
    ensures r.currSize == st.currSize
    ensures r == Miss(st, f, p).(currSize := st.currSize)
  {
    MissTrimPossible(st, f, p);
    var trimmed := TrimForMiss(st);
    trimmed.(mru := [f] + trimmed.mru, alive := trimmed.alive[f := FrameStatus(p, f, true, MRU)])
  }

  /**
   * The raised target as written (src/buffer/arc_replacer.cpp:148-153): a size_t
   * sum capped at the capacity.
   */
  function RaisedTargetAsWritten(target: nat, mruGhostLen: nat, mfuGhostLen: nat, capacity: nat): (t: nat)
    requires mruGhostLen > 0 && target < SizeTModulus && capacity < SizeTModulus
    ensures t < SizeTModulus
    ensures target <= capacity && target + TargetStep(mruGhostLen, mfuGhostLen) < SizeTModulus ==>
              t == RaisedTarget(target, mruGhostLen, mfuGhostLen, capacity)
  {
    var raised := (target + TargetStep(mruGhostLen, mfuGhostLen)) % SizeTModulus;
    if raised < capacity then raised else capacity
  }

  /**
   * The lowered target as written (src/buffer/arc_replacer.cpp:156-161). The
   * unit step (:157) is a size_t difference, so from a target of 0 it wraps
   * around to 2^64 - 1, which the max with 0 that follows cannot undo. The ratio
   * step (:159) subtracts a double, and a negative double converted back to
   * size_t is undefined in C++; this function takes the wrap modulo 2^64 as one
   * reading of that branch.
   */
  function LoweredTargetAsWritten(target: nat, mfuGhostLen: nat, mruGhostLen: nat): (t: nat)
    requires mfuGhostLen > 0 && target < SizeTModulus && mruGhostLen < SizeTModulus
    ensures t < SizeTModulus
    ensures TargetStep(mfuGhostLen, mruGhostLen) <= target ==> t == LoweredTarget(target, mfuGhostLen, mruGhostLen)
    ensures target < TargetStep(mfuGhostLen, mruGhostLen) ==> t == SizeTModulus + target - TargetStep(mfuGhostLen, mruGhostLen)
  {
    (target - TargetStep(mfuGhostLen, mruGhostLen)) % SizeTModulus
  }

  /**
   * A ghost hit as written (src/buffer/arc_replacer.cpp:143-173): the target
   * moves in size_t arithmetic; the ghost record is reused for the frame, so it
   * keeps its evictable flag (false for every ghost); the page leaves the ghost
   * index but stays in its ghost list; the size is not touched.
   */
  function GhostHitAsWritten(st: ArcState, f: int, p: int): (r: ArcState)
    requires GhostIndexed(st) && p in st.ghosts
    requires st.target < SizeTModulus && st.capacity < SizeTModulus && |st.mruGhost| < SizeTModulus
    ensures r.mruGhost == st.mruGhost && r.mfuGhost == st.mfuGhost && p !in r.ghosts
    ensures r.mfu == [f] + st.mfu && f in r.alive && !r.alive[f].evictable
    ensures r.currSize == st.currSize
  {
    var record := st.ghosts[p];
    var target :=
      if record.status == MRUGhost then
        assert p in st.mruGhost;
        RaisedTargetAsWritten(st.target, |st.mruGhost|, |st.mfuGhost|, st.capacity)
      else if record.status == MFUGhost then
        assert p in st.mfuGhost;
        LoweredTargetAsWritten(st.target, |st.mfuGhost|, |st.mruGhost|)
      else st.target;
    st.(mfu := [f] + st.mfu,
        alive := st.alive[f := record.(frameId := f, status := MFU)],
        ghosts := st.ghosts - {p},
        target := target)
  }

  // ---------------------------------------------------------------------------
  // Small replacer states (capacity 1, frame 0 holding page 7)
  // ---------------------------------------------------------------------------

  /** Frame 0 is cached in MRU and evictable. */
  function OneEvictable(): ArcState
  {
    ArcState([0], [], [], [], map[0 := FrameStatus(7, 0, true, MRU)], map[], 1, 0, 1)
  }

  /** Frame 0 is cached in MRU and pinned. */
  function OnePinned(): ArcState
  {
    ArcState([0], [], [], [], map[0 := FrameStatus(7, 0, false, MRU)], map[], 0, 0, 1)
  }

  /** Nothing is cached; page 7 is remembered in the given ghost list. */
  function OneGhost(inMfuGhost: bool): ArcState
  {
    ArcState([], [], if inMfuGhost then [] else [7], if inMfuGhost then [7] else [],
             map[], map[7 := FrameStatus(7, 0, false, if inMfuGhost then MFUGhost else MRUGhost)], 0, 0, 1)
  }

  /** Each small state satisfies the replacer invariant. */
  lemma OneEvictableValid()
    ensures Inv(OneEvictable())
  {
    var st := OneEvictable();
    assert AliveIndexed(st);
    assert GhostIndexed(st);
    assert EvictableFrames(st) == {0};
  }

  lemma OnePinnedValid()
    ensures Inv(OnePinned())
  {
    var st := OnePinned();
    assert AliveIndexed(st);
    assert GhostIndexed(st);
    assert EvictableFrames(st) == {};
  }

  lemma OneGhostValid(inMfuGhost: bool)
    ensures Inv(OneGhost(inMfuGhost))
  {
    var st := OneGhost(inMfuGhost);
    assert AliveIndexed(st);
    assert GhostIndexed(st);
    assert EvictableFrames(st) == {};
  }

  // ---------------------------------------------------------------------------
  // The inputs that show each defect
  // ---------------------------------------------------------------------------

  /**
   * Under the reading that the member lists are unchanged, evicting frame 0 as
   * written leaves it in MRU although the live index no longer knows it, so the
   * next scan of MRU looks up a missing frame; whatever the erase does, page 7
   * reaches no member ghost list. The corrected EvictFrom moves page 7 to the
   * MRU ghost list.
   */
  lemma EvictFromAsWrittenLosesFrame()
    ensures EvictFromAsWritten(OneEvictable(), false).1 == Some(0)
    ensures 0 in EvictFromAsWritten(OneEvictable(), false).0.mru
    ensures !AliveIndexed(EvictFromAsWritten(OneEvictable(), false).0)
    ensures Inv(OneEvictable()) && EvictFrom(OneEvictable(), false) == (OneGhost(false), Some(0))
  {
    OneEvictableValid();
    var st := OneEvictable();
    assert Backmost(st.mru, st.alive) == Some(0);
    assert [0][1..] == [];
    assert Without(st.mru, 0) == [];
    assert st.alive - {0} == map[];
    assert Demoted(st, false, 0) == OneGhost(false);
    assert !AliveIndexed(EvictFromAsWritten(st, false).0) by {
      assert 0 in EvictFromAsWritten(st, false).0.mru;
    }
  }

  /**
   * Pinning an evictable frame as written leaves it evictable, and unpinning a
   * pinned one as written leaves the size behind the evictable frames; the
   * corrected SetEvictableStep does both.
   */
  lemma SetEvictableAsWrittenIgnoresFlag()
    ensures SetEvictableAsWritten(OneEvictable(), 0, false).0.alive[0].evictable
    ensures Inv(OneEvictable()) && !SetEvictableStep(OneEvictable(), 0, false).0.alive[0].evictable
    ensures Inv(OnePinned()) && !Inv(SetEvictableAsWritten(OnePinned(), 0, true).0)
    ensures Inv(SetEvictableStep(OnePinned(), 0, true).0)
  {
    OneEvictableValid();
    OnePinnedValid();
    SetEvictableStepInv(OnePinned(), 0, true);
    var after := SetEvictableAsWritten(OnePinned(), 0, true).0;
    assert 0 in EvictableFrames(after);
  }

  /**
   * A miss on an empty replacer as written reports size 0 with one evictable
   * frame; the corrected Miss counts it.
   */
  lemma MissAsWrittenNeverCounts()
    ensures EvictableFrames(MissAsWritten(Empty(1), 0, 7)) == {0}
    ensures MissAsWritten(Empty(1), 0, 7).currSize == 0
    ensures Miss(Empty(1), 0, 7) == OneEvictable()
  {
    var st := Empty(1);
    assert TrimForMiss(st) == st;
    assert EvictableFrames(MissAsWritten(st, 0, 7)) == {0};
  }

  /**
   * A hit on ghost page 7 as written keeps 7 in the MRU ghost list while the
   * ghost index forgets it, and revives frame 0 pinned; the corrected GhostHit
   * keeps the invariant and revives the frame evictable. The start state has a
   * ghost, which only the corrected EvictFrom can produce: as written, no page
   * ever reaches a ghost list or the ghost index, so this defect is latent.
   */
  lemma GhostHitAsWrittenKeepsGhost()
    ensures 7 in GhostHitAsWritten(OneGhost(false), 0, 7).mruGhost
    ensures !GhostIndexed(GhostHitAsWritten(OneGhost(false), 0, 7))
    ensures !GhostHitAsWritten(OneGhost(false), 0, 7).alive[0].evictable
    ensures Inv(GhostHit(OneGhost(false), 0, 7)) && GhostHit(OneGhost(false), 0, 7).alive[0].evictable
  {
    OneGhostValid(false);
    var st := OneGhost(false);
    assert AccessAllowed(st, 0, 7);
    GhostHitInv(st, 0, 7);
  }

  /**
   * A hit on an MFU ghost while the target is 0 wraps the target as written
   * around to 2^64 - 1, far above the capacity 1, after which Evict always
   * prefers MFU; the corrected LoweredTarget floors it at 0. The step here is
   * the unit step (the MFU ghost list is no shorter than the MRU one), whose wrap is
   * certain; like the previous defect it is latent until evictions fill the
   * ghost lists.
   */
  lemma LoweredTargetAsWrittenWraps()
    ensures GhostHitAsWritten(OneGhost(true), 0, 7).target == SizeTModulus - 1
    ensures GhostHitAsWritten(OneGhost(true), 0, 7).target > OneGhost(true).capacity
    ensures GhostHit(OneGhost(true), 0, 7).target == 0
  {
  }
}
