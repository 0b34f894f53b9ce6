/**
 * Every operation of the ARC replacer keeps the replacer invariant: the two
 * indices agree with the four lists, pages and frames are never listed twice,
 * the directory stays within its capacity bounds, the target stays in
 * [0, capacity] and the size counter equals the number of evictable frames.
 */
module ArcInvariant {
  import opened Wrappers
  import opened Seqs
  import opened ArcSpec

  /** A promotion from MRU to MFU keeps the invariant. */
  lemma AliveHitInv(st: ArcState, f: int)
    requires Inv(st) && f in st.alive
    ensures Inv(AliveHit(st, f))
  {
    if st.alive[f].status == MRU {
      var st' := AliveHit(st, f);
      WithoutNoDup(st.mru, f);
      NoDupCons(f, st.mfu);
      assert f in st.mru;
      assert EvictableFrames(st') == EvictableFrames(st);
    }
  }

  /** After a ghost hit the live index still matches the live lists. */
  lemma GhostHitAliveIndexed(st: ArcState, f: int, p: int)
    requires Inv(st) && f !in st.alive && p in st.ghosts
    ensures AliveIndexed(GhostHit(st, f, p))
  {
    NoDupCons(f, st.mfu);
  }

  /** After a ghost hit the ghost index still matches the ghost lists. */
  lemma GhostHitGhostIndexed(st: ArcState, f: int, p: int)
    requires Inv(st) && p in st.ghosts
    ensures GhostIndexed(GhostHit(st, f, p))
  {
    WithoutNoDup(st.mruGhost, p);
    WithoutNoDup(st.mfuGhost, p);
  }

  /** After a ghost hit the capacity bounds still hold: one ghost entry became one live entry. */
  lemma GhostHitWithinCapacity(st: ArcState, f: int, p: int)
    requires Inv(st) && AccessAllowed(st, f, p) && f !in st.alive && p in st.ghosts
    ensures WithinCapacity(GhostHit(st, f, p))
  {
    AliveCount(st);
    WithoutNoDup(st.mruGhost, p);
    WithoutNoDup(st.mfuGhost, p);
    var st' := GhostHit(st, f, p);
    if st.ghosts[p].status == MRUGhost {
      assert p in st.mruGhost;
      assert |st'.mruGhost| == |st.mruGhost| - 1;
    } else {
      assert p in st.mfuGhost;
      assert |st'.mfuGhost| == |st.mfuGhost| - 1;
    }
  }

  /** A ghost hit keeps the invariant. */
  lemma GhostHitInv(st: ArcState, f: int, p: int)
    requires Inv(st) && AccessAllowed(st, f, p) && f !in st.alive && p in st.ghosts
    ensures Inv(GhostHit(st, f, p))
  {
    var st' := GhostHit(st, f, p);
    GhostHitAliveIndexed(st, f, p);
    GhostHitGhostIndexed(st, f, p);
    GhostHitWithinCapacity(st, f, p);
    GhostHitPagesDistinct(st, f, p);
    GhostHitEvictable(st, f, p);
  }

  /** The revived page is on no live frame yet, and no other page is touched. */
  lemma GhostHitPagesDistinct(st: ArcState, f: int, p: int)
    requires Inv(st) && AccessAllowed(st, f, p) && f !in st.alive && p in st.ghosts
    ensures PagesDistinct(GhostHit(st, f, p))
  {
  }

  /** A ghost hit adds the new frame, evictable, to the evictable frames. */
  lemma GhostHitEvictable(st: ArcState, f: int, p: int)
    requires Inv(st) && f !in st.alive && p in st.ghosts
    ensures EvictableFrames(GhostHit(st, f, p)) == EvictableFrames(st) + {f}
  {
  }

  /** Forgetting the oldest MRU ghost keeps the invariant and shortens the MRU ghost list by one. */
  lemma DropOldestMruGhostInv(st: ArcState)
    requires Inv(st) && st.mruGhost != []
    ensures Inv(DropOldestMruGhost(st))
    ensures |DropOldestMruGhost(st).mruGhost| == |st.mruGhost| - 1
  {
    var st' := DropOldestMruGhost(st);
    DropLastElems(st.mruGhost);
    assert EvictableFrames(st') == EvictableFrames(st);
  }

  /** Forgetting the oldest MFU ghost keeps the invariant. */
  lemma DropOldestMfuGhostInv(st: ArcState)
    requires Inv(st) && st.mfuGhost != []
    ensures Inv(DropOldestMfuGhost(st))
    ensures |DropOldestMfuGhost(st).mfuGhost| == |st.mfuGhost| - 1
  {
    var st' := DropOldestMfuGhost(st);
    DropLastElems(st.mfuGhost);
    assert EvictableFrames(st') == EvictableFrames(st);
  }

  /** Trimming before a miss keeps the invariant and leaves room for one more MRU entry. */
  lemma TrimForMissInv(st: ArcState, f: int, p: int)
    requires Inv(st) && AccessAllowed(st, f, p) && f !in st.alive
    requires |st.mru| + |st.mruGhost| == st.capacity ==> st.mruGhost != []
    requires |st.mru| + |st.mruGhost| != st.capacity && TotalLength(st) == 2 * st.capacity ==> st.mfuGhost != []
    ensures Inv(TrimForMiss(st))
    ensures |st.mru| + |TrimForMiss(st).mruGhost| < st.capacity
    ensures TotalLength(TrimForMiss(st)) < 2 * st.capacity
  {
    MissTrimPossible(st, f, p);
    AliveCount(st);
    if |st.mru| + |st.mruGhost| == st.capacity {
      DropOldestMruGhostInv(st);
    } else if TotalLength(st) == 2 * st.capacity {
      DropOldestMfuGhostInv(st);
    }
  }

  /** Inserting a fresh frame at the front of MRU keeps the invariant when there is room for it. */
  lemma InsertMruInv(t: ArcState, f: int, p: int)
    requires Inv(t) && f !in t.alive && p !in t.ghosts
    requires forall g :: g in t.alive ==> t.alive[g].pageId != p
    requires |t.mru| + |t.mfu| < t.capacity
    requires |t.mru| + |t.mruGhost| < t.capacity && TotalLength(t) < 2 * t.capacity
    ensures Inv(t.(mru := [f] + t.mru, alive := t.alive[f := FrameStatus(p, f, true, MRU)], currSize := t.currSize + 1))
  {
    var t' := t.(mru := [f] + t.mru, alive := t.alive[f := FrameStatus(p, f, true, MRU)], currSize := t.currSize + 1);
    NoDupCons(f, t.mru);
    assert AliveIndexed(t');
    assert PagesDistinct(t');
    assert EvictableFrames(t') == EvictableFrames(t) + {f};
  }

  /** A total miss keeps the invariant; the ghost trimming is what keeps the capacity bounds. */
  lemma MissInv(st: ArcState, f: int, p: int)
    requires Inv(st) && AccessAllowed(st, f, p) && f !in st.alive && p !in st.ghosts
    ensures Inv(Miss(st, f, p))
  {
    MissTrimPossible(st, f, p);
    TrimForMissInv(st, f, p);
    AliveCount(st);
    var t := TrimForMiss(st);
    TrimForMissFrame(st);
    InsertMruInv(t, f, p);
    assert Miss(st, f, p) == t.(mru := [f] + t.mru, alive := t.alive[f := FrameStatus(p, f, true, MRU)], currSize := t.currSize + 1);
  }

  /** Trimming touches only the ghost lists, and only forgets pages. */
  lemma TrimForMissFrame(st: ArcState)
    requires |st.mru| + |st.mruGhost| == st.capacity ==> st.mruGhost != []
    requires |st.mru| + |st.mruGhost| != st.capacity && TotalLength(st) == 2 * st.capacity ==> st.mfuGhost != []
    ensures var t := TrimForMiss(st);
            t.mru == st.mru && t.mfu == st.mfu && t.alive == st.alive && t.currSize == st.currSize &&
            t.target == st.target && t.capacity == st.capacity && t.ghosts.Keys <= st.ghosts.Keys
  {
  }

  /** RecordAccess keeps the invariant. */
  lemma AccessStepInv(st: ArcState, f: int, p: int)
    requires Inv(st) && AccessAllowed(st, f, p)
    ensures Inv(AccessStep(st, f, p))
  {
    if f in st.alive {
      AliveHitInv(st, f);
    } else if p in st.ghosts {
      GhostHitInv(st, f, p);
    } else {
      MissInv(st, f, p);
    }
  }

  /** After an eviction the live index still matches the live lists. */
  lemma DemotedAliveIndexed(st: ArcState, fromMfu: bool, f: int)
    requires Inv(st) && IsEvictable(st.alive, f) && st.alive[f].status == (if fromMfu then MFU else MRU)
    ensures AliveIndexed(Demoted(st, fromMfu, f))
  {
    WithoutNoDup(if fromMfu then st.mfu else st.mru, f);
  }

  /** After an eviction the ghost index still matches the ghost lists. */
  lemma DemotedGhostIndexed(st: ArcState, fromMfu: bool, f: int)
    requires Inv(st) && IsEvictable(st.alive, f)
    ensures GhostIndexed(Demoted(st, fromMfu, f))
  {
    var p := st.alive[f].pageId;
    assert p !in st.ghosts;
    NoDupCons(p, if fromMfu then st.mfuGhost else st.mruGhost);
  }

  /** Evicting an evictable frame from its own live list keeps the invariant. */
  lemma DemotedInv(st: ArcState, fromMfu: bool, f: int)
    requires Inv(st) && IsEvictable(st.alive, f) && st.alive[f].status == (if fromMfu then MFU else MRU)
    ensures Inv(Demoted(st, fromMfu, f))
  {
    var st' := Demoted(st, fromMfu, f);
    DemotedAliveIndexed(st, fromMfu, f);
    DemotedGhostIndexed(st, fromMfu, f);
    WithoutNoDup(if fromMfu then st.mfu else st.mru, f);
    assert f in (if fromMfu then st.mfu else st.mru);
    assert PagesDistinct(st');
    assert WithinCapacity(st');
    assert EvictableFrames(st') == EvictableFrames(st) - {f};
  }

  /** Evicting from one live list keeps the invariant. */
  lemma EvictFromInv(st: ArcState, fromMfu: bool)
    requires Inv(st)
    ensures Inv(EvictFrom(st, fromMfu).0)
  {
    var list := if fromMfu then st.mfu else st.mru;
    var r := Backmost(list, st.alive);
    if r.Some? {
      var f := list[r.value];
      assert f in list;
      DemotedInv(st, fromMfu, f);
    }
  }

  /** Evict keeps the invariant. */
  lemma EvictStepInv(st: ArcState)
    requires Inv(st)
    ensures Inv(EvictStep(st).0)
  {
    var preferMfu := |st.mru| < st.target;
    EvictFromInv(st, preferMfu);
    EvictFromInv(st, !preferMfu);
  }

  /** SetEvictable keeps the invariant, whichever way the flag goes. */
  lemma SetEvictableStepInv(st: ArcState, f: int, flag: bool)
    requires Inv(st)
    ensures Inv(SetEvictableStep(st, f, flag).0)
  {
    if f in st.alive && st.alive[f].evictable != flag {
      var st' := SetEvictableStep(st, f, flag).0;
      if flag {
        assert EvictableFrames(st') == EvictableFrames(st) + {f};
      } else {
        assert EvictableFrames(st') == EvictableFrames(st) - {f};
      }
    }
  }

  /** Remove keeps the invariant. */
  lemma RemoveStepInv(st: ArcState, f: int)
    requires Inv(st)
    ensures Inv(RemoveStep(st, f).0)
  {
    if f in st.alive && st.alive[f].evictable {
      var st' := RemoveStep(st, f).0;
      WithoutNoDup(st.mru, f);
      WithoutNoDup(st.mfu, f);
      assert AliveIndexed(st');
      assert EvictableFrames(st') == EvictableFrames(st) - {f};
    }
  }
}
