/**
 * The ARC replacer as the buffer pool uses it: an object whose methods update
 * its lists, indices and counters in place. Each method is proved to take the
 * snapshot Model() exactly as the step function of ArcSpec does, so every
 * property proved of those (ArcInvariant, ArcProperties) holds of the object.
 * Every operation is atomic: the replacer's latch is not modelled.
 */
module Replacer {
  import opened Wrappers
  import opened Seqs
  import opened ArcSpec
  import opened ArcInvariant

  class ArcReplacer {
    /** Live frames touched once, front = most recent. */
    var mru: seq<int>
    /** Live frames touched at least twice, front = most recent. */
    var mfu: seq<int>
    /** Pages recently evicted from mru, front = most recent. */
    var mruGhost: seq<int>
    /** Pages recently evicted from mfu, front = most recent. */
    var mfuGhost: seq<int>
    /** Records of the live frames, by frame id. */
    var aliveMap: map<int, FrameStatus>
    /** Records of the ghost pages, by page id. */
    var ghostMap: map<int, FrameStatus>
    /** The number of evictable frames, reported by Size. */
    var currSize: nat
    /** The adaptive target size p of mru. */
    var mruTargetSize: nat
    /** The largest number of frames the replacer is asked to cache. */
    const replacerSize: nat

    /** The replacer's fields as one value. */
    function Model(): ArcState
      reads this
    {
      ArcState(mru, mfu, mruGhost, mfuGhost, aliveMap, ghostMap, currSize, mruTargetSize, replacerSize)
    }

    ghost predicate Valid()
      reads this
    {
      Inv(Model())
    }

    /** A new replacer: empty lists, target size 0 and size 0. */
    constructor (numFrames: nat)
      ensures Valid() && Model() == Empty(numFrames)
    {
      replacerSize := numFrames;
      mru, mfu, mruGhost, mfuGhost := [], [], [], [];
      aliveMap, ghostMap := map[], map[];
      currSize, mruTargetSize := 0, 0;
    }

    /**
     * Scan one live list from the back, skipping pinned frames; demote the first
     * evictable frame to the front of the matching ghost list.
     *
     * Departures from src/buffer/arc_replacer.cpp:35-54, which takes both lists
     * by value: here the member lists themselves lose the frame and gain the
     * page, the page is recorded in the ghost index, and the size drops by one.
     */
    method EvictFromList(fromMfu: bool) returns (victim: Option<int>)
      requires Valid()
      modifies this
      ensures (Model(), victim) == EvictFrom(old(Model()), fromMfu)
    {
      ghost var st := Model();
      LiveListIndexed(st, fromMfu);
      var list := if fromMfu then mfu else mru;
      assert list == (if fromMfu then st.mfu else st.mru) && aliveMap == st.alive;
      var pos := FindBackmost(list);
      if pos.None? {
        return None;
      }
      var frameId := list[pos.value];
      var pageId := aliveMap[frameId].pageId;
      assert frameId in EvictableFrames(st);
      assert EvictFrom(st, fromMfu) == (Demoted(st, fromMfu, frameId), Some(frameId));
      MoveToGhost(fromMfu, frameId, pageId);
      assert Model() == Demoted(st, fromMfu, frameId);
      return Some(frameId);
    }

    /** The list and index updates of an eviction: the frame leaves its live list, its page enters a ghost list. */
    method MoveToGhost(toMfuGhost: bool, frameId: int, pageId: int)
      requires currSize >= 1
      modifies this
      ensures mru == (if toMfuGhost then old(mru) else Without(old(mru), frameId))
      ensures mfu == (if toMfuGhost then Without(old(mfu), frameId) else old(mfu))
      ensures mruGhost == (if toMfuGhost then old(mruGhost) else [pageId] + old(mruGhost))
      ensures mfuGhost == (if toMfuGhost then [pageId] + old(mfuGhost) else old(mfuGhost))
      ensures aliveMap == old(aliveMap) - {frameId}
      ensures ghostMap == old(ghostMap)[pageId := FrameStatus(pageId, frameId, false, if toMfuGhost then MFUGhost else MRUGhost)]
      ensures currSize == old(currSize) - 1 && mruTargetSize == old(mruTargetSize)
    {
      if toMfuGhost {
        mfu := Without(mfu, frameId);
        mfuGhost := [pageId] + mfuGhost;
      } else {
        mru := Without(mru, frameId);
        mruGhost := [pageId] + mruGhost;
      }
      aliveMap := aliveMap - {frameId};
      ghostMap := ghostMap[pageId := FrameStatus(pageId, frameId, false, if toMfuGhost then MFUGhost else MRUGhost)];
      currSize := currSize - 1;
    }

    /** The back-to-front scan of a live list for its first evictable frame (the loop of src/buffer/arc_replacer.cpp:37-52). */
    method FindBackmost(list: seq<int>) returns (pos: Option<nat>)
      requires forall j :: 0 <= j < |list| ==> list[j] in aliveMap
      ensures pos == Backmost(list, aliveMap)
    {
      var i := |list|;
      while i > 0 && !aliveMap[list[i - 1]].evictable
        invariant 0 <= i <= |list|
        invariant forall j :: i <= j < |list| ==> !IsEvictable(aliveMap, list[j])
      {
        i := i - 1;
      }
      if i == 0 {
        return None;
      }
      BackmostAt(list, aliveMap, i - 1);
      return Some(i - 1);
    }

    /** Evict a frame chosen by the balancing policy, or None if every frame is pinned. */
    method Evict() returns (victim: Option<int>)
      requires Valid()
      modifies this
      ensures Valid()
      ensures (Model(), victim) == EvictStep(old(Model()))
    {
      EvictStepInv(Model());
      if |mru| < mruTargetSize {
        victim := EvictFromList(true);
        if victim.None? {
          victim := EvictFromList(false);
        }
      } else {
        victim := EvictFromList(false);
        if victim.None? {
          victim := EvictFromList(true);
        }
      }
    }

    /**
     * Record an access to pageId in frameId: a live hit, a ghost hit in either
     * ghost list, or a total miss (src/buffer/arc_replacer.cpp:120-215).
     */
    method RecordAccess(frameId: int, pageId: int)
      requires Valid() && AccessAllowed(Model(), frameId, pageId)
      modifies this
      ensures Valid()
      ensures Model() == AccessStep(old(Model()), frameId, pageId)
    {
      ghost var st := Model();
      AccessStepInv(st, frameId, pageId);
      if frameId in aliveMap {
        PromoteLive(frameId);
      } else if pageId in ghostMap {
        ReviveGhost(frameId, pageId);
      } else {
        AdmitMiss(frameId, pageId);
      }
      assert Model() == AccessStep(st, frameId, pageId);
    }

    /** Case 4, a miss: trim the ghost history, then track the frame, evictable, at the front of mru. */
    method AdmitMiss(frameId: int, pageId: int)
      requires Valid() && AccessAllowed(Model(), frameId, pageId) && frameId !in aliveMap
      modifies this
      ensures Model() == Miss(old(Model()), frameId, pageId)
    {
      MissTrimPossible(Model(), frameId, pageId);
      TrimGhosts();
      mru := [frameId] + mru;
      aliveMap := aliveMap[frameId := FrameStatus(pageId, frameId, true, MRU)];
      currSize := currSize + 1;
    }

    /** Case 1, a live hit: an MRU frame moves to the front of mfu; an MFU frame stays where it is. */
    method PromoteLive(frameId: int)
      requires frameId in aliveMap
      modifies this
      ensures Model() == AliveHit(old(Model()), frameId)
    {
      var status := aliveMap[frameId];
      if status.status == MRU {
        mfu := [frameId] + mfu;
        aliveMap := aliveMap[frameId := status.(status := MFU)];
        mru := Without(mru, frameId);
      }
    }

    /**
     * Cases 2 and 3, a ghost hit: adapt the target towards the list that was
     * hit, then bring the page back, evictable, at the front of mfu.
     *
     * Departures from src/buffer/arc_replacer.cpp:143-173: the page also leaves
     * its ghost list, the revived frame is evictable and counted in the size,
     * and the lowered target is computed on integers and floored at 0 (the
     * unsigned subtraction there can wrap around).
     */
    method ReviveGhost(frameId: int, pageId: int)
      requires GhostIndexed(Model()) && pageId in ghostMap && mruTargetSize <= replacerSize
      modifies this
      ensures Model() == GhostHit(old(Model()), frameId, pageId)
    {
      var status := ghostMap[pageId];
      if status.status == MRUGhost {
        assert pageId in mruGhost;
        var raised: nat;
        if |mruGhost| >= |mfuGhost| {
          raised := mruTargetSize + 1;
        } else {
          raised := mruTargetSize + |mfuGhost| / |mruGhost|;
        }
        mruTargetSize := if raised < replacerSize then raised else replacerSize;
        mruGhost := Without(mruGhost, pageId);
      } else {
        assert pageId in mfuGhost;
        var lowered: int;
        if |mfuGhost| >= |mruGhost| {
          lowered := mruTargetSize - 1;
        } else {
          lowered := mruTargetSize - |mruGhost| / |mfuGhost|;
        }
        mruTargetSize := if lowered > 0 then lowered else 0;
        mfuGhost := Without(mfuGhost, pageId);
      }
      mfu := [frameId] + mfu;
      aliveMap := aliveMap[frameId := FrameStatus(pageId, frameId, true, MFU)];
      ghostMap := ghostMap - {pageId};
      currSize := currSize + 1;
    }

    /**
     * Case 4, before a miss inserts into mru: forget the oldest MRU ghost when
     * mru and its ghost list fill the capacity, else the oldest MFU ghost when
     * the four lists fill twice the capacity.
     */
    method TrimGhosts()
      requires |mru| + |mruGhost| == replacerSize ==> mruGhost != []
      requires |mru| + |mruGhost| != replacerSize && TotalLength(Model()) == 2 * replacerSize ==> mfuGhost != []
      modifies this
      ensures Model() == TrimForMiss(old(Model()))
    {
      if |mru| + |mruGhost| == replacerSize {
        var ghostPageId := mruGhost[|mruGhost| - 1];
        ghostMap := ghostMap - {ghostPageId};
        mruGhost := mruGhost[..|mruGhost| - 1];
      } else if |mru| + |mruGhost| + |mfu| + |mfuGhost| == 2 * replacerSize {
        var ghostPageId := mfuGhost[|mfuGhost| - 1];
        ghostMap := ghostMap - {ghostPageId};
        mfuGhost := mfuGhost[..|mfuGhost| - 1];
      }
    }

    /**
     * Set whether a live frame is evictable, moving the size by one when the
     * flag changes; an untracked frame is an error.
     *
     * Departure from src/buffer/arc_replacer.cpp:234-241, which always sets the
     * flag to true and never touches the size: this is the toggle its doc
     * comment at :220-229 describes.
     */
    method SetEvictable(frameId: int, setEvictable: bool) returns (outcome: Outcome)
      requires Valid()
      modifies this
      ensures Valid()
      ensures (Model(), outcome) == SetEvictableStep(old(Model()), frameId, setEvictable)
    {
      SetEvictableStepInv(Model(), frameId, setEvictable);
      if frameId !in aliveMap {
        return Err(InvalidFrame);
      }
      var status := aliveMap[frameId];
      if status.evictable != setEvictable {
        assert status.evictable ==> frameId in EvictableFrames(Model());
        aliveMap := aliveMap[frameId := status.(evictable := setEvictable)];
        currSize := if setEvictable then currSize + 1 else currSize - 1;
      }
      return Ok;
    }

    /**
     * Remove an evictable frame without leaving a ghost; an untracked frame is
     * ignored and a pinned one is an error. Unlike src/buffer/arc_replacer.cpp:259-275,
     * the size drops by one, as the doc comment at :247 asks.
     */
    method Remove(frameId: int) returns (outcome: Outcome)
      requires Valid()
      modifies this
      ensures Valid()
      ensures (Model(), outcome) == RemoveStep(old(Model()), frameId)
    {
      ghost var st := Model();
      RemoveStepInv(st, frameId);
      if frameId in aliveMap {
        var status := aliveMap[frameId];
        if !status.evictable {
          return Err(FrameNotEvictable);
        }
        assert frameId in EvictableFrames(st);
        if status.status == MRU {
          mru := Without(mru, frameId);
        } else {
          assert status.status == MFU;
          mfu := Without(mfu, frameId);
        }
        aliveMap := aliveMap - {frameId};
        currSize := currSize - 1;
        assert Model() == RemoveStep(st, frameId).0;
      }
      return Ok;
    }

    /** The number of evictable frames currently tracked. */
    method Size() returns (n: nat)
      requires Valid()
      ensures n == |EvictableFrames(Model())|
    {
      n := currSize;
    }
  }
}
