/**
 * What each ARC operation does, stated independently of how the step
 * functions compute it: the eviction choice, the four access cases, the
 * evictable toggle and removal.
 */
module ArcProperties {
  import opened Wrappers
  import opened Seqs
  import opened ArcSpec
  import opened ArcInvariant

  /** Some frame of the list may be evicted. */
  predicate HasEvictable(list: seq<int>, alive: map<int, FrameStatus>)
  {
    exists j :: 0 <= j < |list| && IsEvictable(alive, list[j])
  }

  /** f is the evictable frame nearest the back of the list. */
  ghost predicate IsBackmostEvictable(list: seq<int>, alive: map<int, FrameStatus>, f: int)
  {
    exists i :: 0 <= i < |list| && list[i] == f && IsEvictable(alive, f)
                && forall j :: i < j < |list| ==> !IsEvictable(alive, list[j])
  }

  // ---------------------------------------------------------------------------
  // Evict
  // ---------------------------------------------------------------------------

  /** Evict finds no victim exactly when no frame is evictable, and then changes nothing. */
  lemma EvictNoneIff(st: ArcState)
    requires Inv(st)
    ensures EvictStep(st).1.None? <==> EvictableFrames(st) == {}
    ensures EvictStep(st).1.None? ==> EvictStep(st).0 == st
  {
    var preferMfu := |st.mru| < st.target;
    if EvictStep(st).1.None? {
      assert Backmost(st.mru, st.alive).None? && Backmost(st.mfu, st.alive).None?;
      forall f | f in st.alive ensures !st.alive[f].evictable {
        var list := if f in st.mru then st.mru else st.mfu;
        var j :| 0 <= j < |list| && list[j] == f;
        assert !IsEvictable(st.alive, list[j]);
      }
      assert EvictableFrames(st) == {};
    } else {
      var f := EvictStep(st).1.value;
      var list := if EvictFrom(st, preferMfu).1.Some? == preferMfu then st.mfu else st.mru;
      assert f in EvictableFrames(st);
    }
  }

  /**
   * Evict scans the preferred list (MFU when MRU is below the target, else MRU)
   * from the back, and falls back to the other list only when the preferred one
   * has no evictable frame; either way the victim is the back-most evictable frame.
   */
  lemma EvictPreference(st: ArcState)
    requires Inv(st)
    ensures var preferred := if |st.mru| < st.target then st.mfu else st.mru;
            var other := if |st.mru| < st.target then st.mru else st.mfu;
            var victim := EvictStep(st).1;
            && (HasEvictable(preferred, st.alive) ==>
                  victim.Some? && IsBackmostEvictable(preferred, st.alive, victim.value))
            && (!HasEvictable(preferred, st.alive) && HasEvictable(other, st.alive) ==>
                  victim.Some? && IsBackmostEvictable(other, st.alive, victim.value))
  {
    var preferred := if |st.mru| < st.target then st.mfu else st.mru;
    var other := if |st.mru| < st.target then st.mru else st.mfu;
    var r1 := Backmost(preferred, st.alive);
    var r2 := Backmost(other, st.alive);
    if r1.Some? {
      assert IsEvictable(st.alive, preferred[r1.value]);
    } else if r2.Some? {
      assert IsEvictable(st.alive, other[r2.value]);
    }
  }

  /**
   * An evicted frame is erased from its live list, the others keeping their
   * order, and leaves the live index; the size drops by one, and its page enters
   * the front of the ghost list matching its old list as a non-evictable ghost
   * record. The target, the other list and every other record are untouched.
   */
  lemma DemotedEffects(st: ArcState, fromMfu: bool, f: int)
    requires Inv(st) && IsEvictable(st.alive, f) && st.alive[f].status == (if fromMfu then MFU else MRU)
    ensures var st' := Demoted(st, fromMfu, f);
            && f !in st'.alive && f !in st'.mru && f !in st'.mfu
            && st'.alive == st.alive - {f}
            && st'.currSize == st.currSize - 1
            && st'.target == st.target && st'.capacity == st.capacity
            && var p := st.alive[f].pageId;
               && st'.ghosts == st.ghosts[p := FrameStatus(p, f, false, if fromMfu then MFUGhost else MRUGhost)]
               && (!fromMfu ==> Erased(st'.mru, st.mru, f) && st'.mruGhost == [p] + st.mruGhost
                                && st'.mfuGhost == st.mfuGhost && st'.mfu == st.mfu)
               && (fromMfu ==> Erased(st'.mfu, st.mfu, f) && st'.mfuGhost == [p] + st.mfuGhost
                               && st'.mruGhost == st.mruGhost && st'.mru == st.mru)
  {
    assert f in st.mru ==> st.alive[f].status == MRU;
    if fromMfu {
      assert f in st.mfu;
      WithoutErased(st.mfu, f);
    } else {
      assert f in st.mru;
      WithoutErased(st.mru, f);
    }
  }

  /** Evict's victim is an evictable frame, demoted from the live list it was in. */
  lemma EvictVictim(st: ArcState)
    requires Inv(st) && EvictStep(st).1.Some?
    ensures var f := EvictStep(st).1.value;
            && f in EvictableFrames(st)
            && EvictStep(st).0 == Demoted(st, st.alive[f].status == MFU, f)
  {
    var preferMfu := |st.mru| < st.target;
    var fromMfu := if EvictFrom(st, preferMfu).1.Some? then preferMfu else !preferMfu;
    assert EvictStep(st) == EvictFrom(st, fromMfu);
    var list := if fromMfu then st.mfu else st.mru;
    var i := Backmost(list, st.alive).value;
    var f := list[i];
    assert f in list;
    assert st.alive[f].status == (if fromMfu then MFU else MRU);
  }

  // ---------------------------------------------------------------------------
  // RecordAccess
  // ---------------------------------------------------------------------------

  /**
   * A hit on a live frame never touches the target, the ghost lists or the size:
   * an MRU frame moves to the front of MFU and is erased from MRU, the other MRU
   * frames keeping their order; an MFU frame stays where it is.
   */
  lemma AliveHitEffects(st: ArcState, f: int, p: int)
    requires Inv(st) && f in st.alive
    ensures var st' := AccessStep(st, f, p);
            && st'.target == st.target && st'.currSize == st.currSize
            && st'.mruGhost == st.mruGhost && st'.mfuGhost == st.mfuGhost && st'.ghosts == st.ghosts
            && (st.alive[f].status == MFU ==> st' == st)
            && (st.alive[f].status == MRU ==>
                  && st'.mfu == [f] + st.mfu
                  && Erased(st'.mru, st.mru, f) && f !in st'.mru
                  && st'.alive == st.alive[f := st.alive[f].(status := MFU)])
  {
    assert st.alive[f].status == MRU || st.alive[f].status == MFU;
    if st.alive[f].status == MRU {
      assert f in st.mru;
      WithoutErased(st.mru, f);
    }
  }

  /** Accessing the same frame repeatedly: from the second access on it sits in MFU and further accesses change nothing. */
  lemma RepeatedAccessIdempotent(st: ArcState, f: int, p: int)
    requires Inv(st) && AccessAllowed(st, f, p)
    ensures var st1 := AccessStep(st, f, p);
            && Inv(st1) && f in st1.alive
            && var st2 := AccessStep(st1, f, p);
               Inv(st2) && st2.alive[f].status == MFU && AccessStep(st2, f, p) == st2
  {
    AccessStepInv(st, f, p);
    var st1 := AccessStep(st, f, p);
    assert f in st1.alive;
    AccessStepInv(st1, f, p);
  }

  /**
   * A ghost hit moves the target (up for an MRU ghost, capped at capacity; down
   * for an MFU ghost, floored at 0, by 1 or by the floor of the ratio of the
   * ghost list lengths), erases the page from its ghost list (the other ghosts
   * keeping their order) and from the ghost index, and brings the page back
   * under the new frame, evictable, at the front of MFU.
   */
  lemma GhostHitEffects(st: ArcState, f: int, p: int)
    requires Inv(st) && AccessAllowed(st, f, p) && f !in st.alive && p in st.ghosts
    ensures var st' := AccessStep(st, f, p);
            && st'.mfu == [f] + st.mfu && st'.mru == st.mru
            && st'.alive == st.alive[f := FrameStatus(p, f, true, MFU)]
            && st'.ghosts == st.ghosts - {p}
            && p !in st'.mruGhost && p !in st'.mfuGhost
            && st'.currSize == st.currSize + 1
            && (st.ghosts[p].status == MRUGhost ==>
                  && Erased(st'.mruGhost, st.mruGhost, p) && st'.mfuGhost == st.mfuGhost
                  && (|st.mruGhost| >= |st.mfuGhost| ==>
                        st'.target == if st.target + 1 < st.capacity then st.target + 1 else st.capacity)
                  && (|st.mruGhost| < |st.mfuGhost| ==>
                        var raised := st.target + |st.mfuGhost| / |st.mruGhost|;
                        st'.target == if raised < st.capacity then raised else st.capacity))
            && (st.ghosts[p].status == MFUGhost ==>
                  && Erased(st'.mfuGhost, st.mfuGhost, p) && st'.mruGhost == st.mruGhost
                  && (|st.mfuGhost| >= |st.mruGhost| ==>
                        st'.target == if st.target >= 1 then st.target - 1 else 0)
                  && (|st.mfuGhost| < |st.mruGhost| ==>
                        var lowered := st.target - |st.mruGhost| / |st.mfuGhost|;
                        st'.target == if lowered > 0 then lowered else 0))
  {
    WithoutNoDup(st.mruGhost, p);
    WithoutNoDup(st.mfuGhost, p);
    if st.ghosts[p].status == MRUGhost {
      assert p in st.mruGhost;
      WithoutErased(st.mruGhost, p);
    } else {
      assert p in st.mfuGhost;
      WithoutErased(st.mfuGhost, p);
    }
  }

  /** Which ghost history the trimming before a miss forgets; nothing else changes. */
  lemma TrimForMissEffects(st: ArcState)
    requires |st.mru| + |st.mruGhost| == st.capacity ==> st.mruGhost != []
    requires |st.mru| + |st.mruGhost| != st.capacity && TotalLength(st) == 2 * st.capacity ==> st.mfuGhost != []
    ensures var t := TrimForMiss(st);
            && t.mru == st.mru && t.mfu == st.mfu && t.alive == st.alive
            && t.target == st.target && t.currSize == st.currSize && t.capacity == st.capacity
            && (|st.mru| + |st.mruGhost| == st.capacity ==>
                  && t.mruGhost == DropLast(st.mruGhost) && t.mfuGhost == st.mfuGhost
                  && t.ghosts == st.ghosts - {st.mruGhost[|st.mruGhost| - 1]})
            && (|st.mru| + |st.mruGhost| != st.capacity && TotalLength(st) == 2 * st.capacity ==>
                  && t.mfuGhost == DropLast(st.mfuGhost) && t.mruGhost == st.mruGhost
                  && t.ghosts == st.ghosts - {st.mfuGhost[|st.mfuGhost| - 1]})
            && (|st.mru| + |st.mruGhost| != st.capacity && TotalLength(st) != 2 * st.capacity ==> t == st)
  {
  }

  /**
   * A total miss inserts the frame at the front of MRU, evictable, and leaves
   * the target alone; beforehand it forgets the oldest MRU ghost when MRU and its
   * ghosts fill the capacity, else the oldest MFU ghost when all four lists fill
   * twice the capacity, else no history at all.
   */
  lemma MissEffects(st: ArcState, f: int, p: int)
    requires Inv(st) && AccessAllowed(st, f, p) && f !in st.alive && p !in st.ghosts
    ensures st.mruGhost != [] || |st.mru| + |st.mruGhost| != st.capacity
    ensures st.mfuGhost != [] || |st.mru| + |st.mruGhost| == st.capacity || TotalLength(st) != 2 * st.capacity
    ensures var st' := AccessStep(st, f, p);
            && st'.mru == [f] + st.mru && st'.mfu == st.mfu && st'.target == st.target
            && st'.alive == st.alive[f := FrameStatus(p, f, true, MRU)]
            && st'.currSize == st.currSize + 1
            && st'.mruGhost == TrimForMiss(st).mruGhost
            && st'.mfuGhost == TrimForMiss(st).mfuGhost
            && st'.ghosts == TrimForMiss(st).ghosts
  {
    MissTrimPossible(st, f, p);
  }

  // ---------------------------------------------------------------------------
  // SetEvictable and Remove
  // ---------------------------------------------------------------------------

  /**
   * SetEvictable rejects exactly the untracked frames; otherwise the frame ends
   * with the requested flag, the size moves by one only when the flag changes,
   * and setting the current value changes nothing.
   */
  lemma SetEvictableEffects(st: ArcState, f: int, flag: bool)
    requires Inv(st)
    ensures var (st', outcome) := SetEvictableStep(st, f, flag);
            && (outcome == Err(InvalidFrame) <==> f !in st.alive)
            && (outcome.Err? ==> st' == st)
            && (f in st.alive ==> (f in EvictableFrames(st') <==> flag))
            && (f in st.alive ==> st'.alive == st.alive[f := st.alive[f].(evictable := flag)])
            && (f in st.alive && st.alive[f].evictable == flag ==> st' == st)
            && (f in st.alive && !st.alive[f].evictable && flag ==> st'.currSize == st.currSize + 1)
            && (f in st.alive && st.alive[f].evictable && !flag ==> st'.currSize + 1 == st.currSize)
            && st'.mru == st.mru && st'.mfu == st.mfu && st'.ghosts == st.ghosts
            && st'.mruGhost == st.mruGhost && st'.mfuGhost == st.mfuGhost && st'.target == st.target
            && st'.capacity == st.capacity
  {
  }

  /**
   * Remove ignores an untracked frame, rejects a pinned one, and otherwise
   * erases the frame from its list (the others keeping their order) and from the
   * live index without recording a ghost.
   */
  lemma RemoveEffects(st: ArcState, f: int)
    requires Inv(st)
    ensures var (st', outcome) := RemoveStep(st, f);
            && (f !in st.alive ==> st' == st && outcome == Ok)
            && (f in st.alive && !st.alive[f].evictable ==> st' == st && outcome == Err(FrameNotEvictable))
            && (f in EvictableFrames(st) ==>
                  && outcome == Ok
                  && f !in st'.mru && f !in st'.mfu
                  && st'.alive == st.alive - {f}
                  && (st.alive[f].status == MRU ==> Erased(st'.mru, st.mru, f) && st'.mfu == st.mfu)
                  && (st.alive[f].status == MFU ==> Erased(st'.mfu, st.mfu, f) && st'.mru == st.mru)
                  && st'.currSize == st.currSize - 1
                  && st'.ghosts == st.ghosts && st'.mruGhost == st.mruGhost && st'.mfuGhost == st.mfuGhost
                  && st'.target == st.target && st'.capacity == st.capacity)
  {
    if f in EvictableFrames(st) {
      if st.alive[f].status == MRU {
        assert f in st.mru;
        WithoutErased(st.mru, f);
      } else {
        assert f in st.mfu;
        WithoutErased(st.mfu, f);
      }
    }
  }

  /** After a removal the page is known nowhere: accessing it again, in any free frame, is a total miss. */
  lemma RemovedPageMisses(st: ArcState, f: int, g: int)
    requires Inv(st) && f in EvictableFrames(st)
    ensures var st' := RemoveStep(st, f).0;
            && Inv(st')
            && st.alive[f].pageId !in st'.ghosts
            && (g !in st'.alive && AccessAllowed(st', g, st.alive[f].pageId) ==>
                  AccessStep(st', g, st.alive[f].pageId) == Miss(st', g, st.alive[f].pageId))
  {
    RemoveStepInv(st, f);
  }
}
