/**
 * The Adaptive Replacement Cache policy of the buffer pool, as a pure state
 * machine. ArcState is a snapshot of the replacer's fields; each public
 * operation of the replacer is a step function from one snapshot to the next,
 * and Inv is the invariant every step keeps.
 *
 * Lists are sequences ordered front (index 0, most recently touched) to back
 * (last index, next victim). The live lists hold frame ids, the ghost lists
 * page ids. A record's position in its list is its index there.
 */
module ArcSpec {
  import opened Wrappers
  import opened Seqs

  /** The list a record belongs to. */
  datatype ArcStatus = MRU | MFU | MRUGhost | MFUGhost

  /** The record shared by the live index (by frame) and the ghost index (by page). */
  datatype FrameStatus = FrameStatus(pageId: int, frameId: int, evictable: bool, status: ArcStatus)

  /** The two ways a caller can misuse the replacer. */
  datatype ReplacerError = InvalidFrame | FrameNotEvictable

  /** The result of an operation that may reject its argument. */
  datatype Outcome = Ok | Err(error: ReplacerError)

  /** A snapshot of the replacer's fields; target is the adaptive MRU target size p. */
  datatype ArcState = ArcState(
    mru: seq<int>, mfu: seq<int>, mruGhost: seq<int>, mfuGhost: seq<int>,
    alive: map<int, FrameStatus>, ghosts: map<int, FrameStatus>,
    currSize: nat, target: nat, capacity: nat)

  // ---------------------------------------------------------------------------
  // The invariant
  // ---------------------------------------------------------------------------

  /** The live index holds exactly the frames of the two live lists, each with its own list's status. */
  ghost predicate AliveIndexed(st: ArcState)
  {
    && NoDup(st.mru) && NoDup(st.mfu)
    && (forall f :: f in st.alive <==> f in st.mru || f in st.mfu)
    && (forall f :: f in st.mru ==> f in st.alive && st.alive[f].status == MRU)
    && (forall f :: f in st.mfu ==> f in st.alive && st.alive[f].status == MFU)
    && (forall f :: f in st.alive ==> st.alive[f].frameId == f)
  }

  /** The ghost index holds exactly the pages of the two ghost lists; ghosts are never evictable. */
  ghost predicate GhostIndexed(st: ArcState)
  {
    && NoDup(st.mruGhost) && NoDup(st.mfuGhost)
    && (forall p :: p in st.ghosts <==> p in st.mruGhost || p in st.mfuGhost)
    && (forall p :: p in st.mruGhost ==> p in st.ghosts && st.ghosts[p].status == MRUGhost)
    && (forall p :: p in st.mfuGhost ==> p in st.ghosts && st.ghosts[p].status == MFUGhost)
    && (forall p :: p in st.ghosts ==> st.ghosts[p].pageId == p && !st.ghosts[p].evictable)
  }

  /** A page is resident in at most one frame, and a resident page has no ghost entry. */
  ghost predicate PagesDistinct(st: ArcState)
  {
    && (forall f, g :: f in st.alive && g in st.alive && f != g ==> st.alive[f].pageId != st.alive[g].pageId)
    && (forall f :: f in st.alive ==> st.alive[f].pageId !in st.ghosts)
  }

  /** The capacity bounds of the ARC directory and the range of the target. */
  ghost predicate WithinCapacity(st: ArcState)
  {
    && |st.mru| + |st.mfu| <= st.capacity
    && |st.mru| + |st.mruGhost| <= st.capacity
    && |st.mru| + |st.mfu| + |st.mruGhost| + |st.mfuGhost| <= 2 * st.capacity
    && st.target <= st.capacity
  }

  /** The frames a caller may currently have evicted. */
  function EvictableFrames(st: ArcState): set<int>
  {
    set f | f in st.alive && st.alive[f].evictable
  }

  /** The replacer invariant; currSize is the number of evictable frames. */
  ghost predicate Inv(st: ArcState)
  {
    && AliveIndexed(st)
    && GhostIndexed(st)
    && PagesDistinct(st)
    && WithinCapacity(st)
    && st.currSize == |EvictableFrames(st)|
  }

  /** A fresh replacer: empty lists, target 0, size 0. */
  function Empty(capacity: nat): (st: ArcState)
    ensures Inv(st)
    ensures st.capacity == capacity && st.target == 0 && st.currSize == 0
    ensures st.alive == map[] && st.ghosts == map[]
  {
    var st := ArcState([], [], [], [], map[], map[], 0, 0, capacity);
    assert EvictableFrames(st) == {};
    st
  }

  /** The number of tracked live frames is the total length of the two live lists. */
  lemma AliveCount(st: ArcState)
    requires AliveIndexed(st)
    ensures |st.alive| == |st.mru| + |st.mfu|
  {
    var a, b := Elems(st.mru), Elems(st.mfu);
    NoDupCard(st.mru);
    NoDupCard(st.mfu);
    forall f ensures f in st.alive.Keys <==> f in a + b {
      assert f in a <==> f in st.mru;
      assert f in b <==> f in st.mfu;
    }
    assert st.alive.Keys == a + b;
    forall f | f in a ensures f !in b {
      assert st.alive[f].status == MRU;
    }
    assert a * b == {};
  }

  /** Every position of a live list holds a frame of the live index. */
  lemma LiveListIndexed(st: ArcState, fromMfu: bool)
    requires Inv(st)
    ensures var list := if fromMfu then st.mfu else st.mru;
            forall j :: 0 <= j < |list| ==> list[j] in st.alive
  {
    var list := if fromMfu then st.mfu else st.mru;
    forall j | 0 <= j < |list| ensures list[j] in st.alive {
      var f := list[j];
      assert f in list;
      assert f in st.mru || f in st.mfu;
    }
  }

  /** The four lists never share an entry: a frame is in one live list, a page in one ghost list. */
  lemma ListsDisjoint(st: ArcState)
    requires Inv(st)
    ensures forall f :: f in st.mru ==> f !in st.mfu
    ensures forall p :: p in st.mruGhost ==> p !in st.mfuGhost
    ensures forall f :: f in st.alive ==> st.alive[f].pageId !in st.mruGhost && st.alive[f].pageId !in st.mfuGhost
  {
  }

  // ---------------------------------------------------------------------------
  // RecordAccess
  // ---------------------------------------------------------------------------

  /**
   * What the buffer pool guarantees when it reports an access on a frame the
   * replacer does not track: there is a free frame (the replacer is never asked
   * to cache more than capacity frames) and the page is not resident elsewhere.
   */
  ghost predicate AccessAllowed(st: ArcState, f: int, p: int)
  {
    f !in st.alive ==>
      && |st.alive| < st.capacity
      && forall g :: g in st.alive ==> st.alive[g].pageId != p
  }

  /** How far a ghost hit moves the target: 1 if the hit list is at least as long as the other, else the floor of their ratio. */
  function TargetStep(hitLen: nat, otherLen: nat): (d: nat)
    requires hitLen > 0
    ensures d >= 1
    ensures hitLen >= otherLen ==> d == 1
    ensures hitLen < otherLen ==> d * hitLen <= otherLen < (d + 1) * hitLen
  {
    if hitLen >= otherLen then 1 else otherLen / hitLen
  }

  /** The target after a hit in the MRU ghost list: raised by the step, capped at capacity. */
  function RaisedTarget(target: nat, mruGhostLen: nat, mfuGhostLen: nat, capacity: nat): (t: nat)
    requires mruGhostLen > 0 && target <= capacity
    ensures target <= t <= capacity
    ensures t - target <= TargetStep(mruGhostLen, mfuGhostLen)
    ensures t < capacity ==> t - target == TargetStep(mruGhostLen, mfuGhostLen)
  {
    var raised := target + TargetStep(mruGhostLen, mfuGhostLen);
    if raised < capacity then raised else capacity
  }

  /** The target after a hit in the MFU ghost list: lowered by the step, floored at 0. */
  function LoweredTarget(target: nat, mfuGhostLen: nat, mruGhostLen: nat): (t: nat)
    requires mfuGhostLen > 0
    ensures t <= target
    ensures target - t <= TargetStep(mfuGhostLen, mruGhostLen)
    ensures t > 0 ==> target - t == TargetStep(mfuGhostLen, mruGhostLen)
  {
    var lowered := target - TargetStep(mfuGhostLen, mruGhostLen);
    if lowered > 0 then lowered else 0
  }

  /** Case 1: a hit on a live frame promotes an MRU frame to the front of MFU; an MFU frame is left as it is. */
  function AliveHit(st: ArcState, f: int): ArcState
    requires f in st.alive
  {
    if st.alive[f].status == MRU then
      st.(mru := Without(st.mru, f), mfu := [f] + st.mfu,
          alive := st.alive[f := st.alive[f].(status := MFU)])
    else
      st
  }

  /** Cases 2 and 3: a hit on a ghost page adapts the target and brings the page back, evictable, at the front of MFU. */
  function GhostHit(st: ArcState, f: int, p: int): ArcState
    requires GhostIndexed(st) && p in st.ghosts && st.target <= st.capacity
  {
    var fromMru := st.ghosts[p].status == MRUGhost;
    var target :=
      if fromMru then RaisedTarget(st.target, |st.mruGhost|, |st.mfuGhost|, st.capacity)
      else LoweredTarget(st.target, |st.mfuGhost|, |st.mruGhost|);
    st.(mfu := [f] + st.mfu,
        mruGhost := if fromMru then Without(st.mruGhost, p) else st.mruGhost,
        mfuGhost := if fromMru then st.mfuGhost else Without(st.mfuGhost, p),
        alive := st.alive[f := FrameStatus(p, f, true, MFU)],
        ghosts := st.ghosts - {p},
        currSize := st.currSize + 1,
        target := target)
  }

  /** The total number of entries in the four lists. */
  function TotalLength(st: ArcState): nat
  {
    |st.mru| + |st.mfu| + |st.mruGhost| + |st.mfuGhost|
  }

  /** Forget the oldest page of the MRU ghost list. */
  function DropOldestMruGhost(st: ArcState): ArcState
    requires st.mruGhost != []
  {
    st.(mruGhost := DropLast(st.mruGhost), ghosts := st.ghosts - {st.mruGhost[|st.mruGhost| - 1]})
  }

  /** Forget the oldest page of the MFU ghost list. */
  function DropOldestMfuGhost(st: ArcState): ArcState
    requires st.mfuGhost != []
  {
    st.(mfuGhost := DropLast(st.mfuGhost), ghosts := st.ghosts - {st.mfuGhost[|st.mfuGhost| - 1]})
  }

  /** The ghost list a miss must trim before inserting; the trimmed list is never empty. */
  lemma MissTrimPossible(st: ArcState, f: int, p: int)
    requires Inv(st) && AccessAllowed(st, f, p) && f !in st.alive
    ensures |st.mru| + |st.mruGhost| == st.capacity ==> st.mruGhost != []
    ensures |st.mru| + |st.mruGhost| < st.capacity && TotalLength(st) == 2 * st.capacity ==> st.mfuGhost != []
  {
    AliveCount(st);
  }

  /**
   * Before a miss inserts into MRU: if MRU and its ghost list fill the capacity,
   * forget the oldest MRU ghost; else if the four lists fill twice the capacity,
   * forget the oldest MFU ghost; else keep all history.
   */
  function TrimForMiss(st: ArcState): ArcState
    requires |st.mru| + |st.mruGhost| == st.capacity ==> st.mruGhost != []
    requires |st.mru| + |st.mruGhost| != st.capacity && TotalLength(st) == 2 * st.capacity ==> st.mfuGhost != []
  {
    if |st.mru| + |st.mruGhost| == st.capacity then DropOldestMruGhost(st)
    else if TotalLength(st) == 2 * st.capacity then DropOldestMfuGhost(st)
    else st
  }

  /** Case 4: a page known nowhere enters the front of MRU, evictable, after trimming ghost history. */
  function Miss(st: ArcState, f: int, p: int): ArcState
    requires Inv(st) && AccessAllowed(st, f, p) && f !in st.alive
  {
    MissTrimPossible(st, f, p);
    var trimmed := TrimForMiss(st);
    trimmed.(mru := [f] + trimmed.mru,
             alive := trimmed.alive[f := FrameStatus(p, f, true, MRU)],
             currSize := trimmed.currSize + 1)
  }

  /** RecordAccess(f, p): the four-way classification of an access. */
  function AccessStep(st: ArcState, f: int, p: int): ArcState
    requires Inv(st) && AccessAllowed(st, f, p)
  {
    if f in st.alive then AliveHit(st, f)
    else if p in st.ghosts then GhostHit(st, f, p)
    else Miss(st, f, p)
  }

  // ---------------------------------------------------------------------------
  // Evict
  // ---------------------------------------------------------------------------

  /** The frame is tracked and may be evicted. */
  predicate IsEvictable(alive: map<int, FrameStatus>, f: int)
  {
    f in alive && alive[f].evictable
  }

  /** The position of the evictable frame nearest the back of the list, if any. */
  function Backmost(list: seq<int>, alive: map<int, FrameStatus>): (r: Option<nat>)
    ensures r.None? <==> forall j :: 0 <= j < |list| ==> !IsEvictable(alive, list[j])
    ensures r.Some? ==> r.value < |list| && IsEvictable(alive, list[r.value])
    ensures r.Some? ==> forall j :: r.value < j < |list| ==> !IsEvictable(alive, list[j])
    decreases |list|
  {
    if list == [] then None
    else if IsEvictable(alive, list[|list| - 1]) then Some(|list| - 1)
    else Backmost(DropLast(list), alive)
  }

  /** A position holding an evictable frame with only pinned frames behind it is the one Backmost finds. */
  lemma {:induction false} BackmostAt(list: seq<int>, alive: map<int, FrameStatus>, i: nat)
    requires i < |list| && IsEvictable(alive, list[i])
    requires forall j :: i < j < |list| ==> !IsEvictable(alive, list[j])
    ensures Backmost(list, alive) == Some(i)
    decreases |list|
  {
    if i < |list| - 1 {
      BackmostAt(DropLast(list), alive, i);
    }
  }

  /**
   * The state once the evictable live frame f has been evicted from the MFU list
   * (fromMfu) or the MRU list: f leaves its list and the live index, and its page
   * enters the front of the matching ghost list as a non-evictable ghost record.
   */
  function Demoted(st: ArcState, fromMfu: bool, f: int): ArcState
    requires Inv(st) && IsEvictable(st.alive, f)
  {
    var p := st.alive[f].pageId;
    assert f in EvictableFrames(st);
    ArcState(if fromMfu then st.mru else Without(st.mru, f),
             if fromMfu then Without(st.mfu, f) else st.mfu,
             if fromMfu then st.mruGhost else [p] + st.mruGhost,
             if fromMfu then [p] + st.mfuGhost else st.mfuGhost,
             st.alive - {f},
             st.ghosts[p := FrameStatus(p, f, false, if fromMfu then MFUGhost else MRUGhost)],
             st.currSize - 1, st.target, st.capacity)
  }

  /** Evict from one live list (MFU if fromMfu, else MRU): the back-most evictable frame is demoted, if any. */
  function EvictFrom(st: ArcState, fromMfu: bool): (ArcState, Option<int>)
    requires Inv(st)
  {
    var list := if fromMfu then st.mfu else st.mru;
    match Backmost(list, st.alive)
    case None => (st, None)
    case Some(i) => (Demoted(st, fromMfu, list[i]), Some(list[i]))
  }

  /** Evict(): prefer MFU when MRU is below target, else MRU; fall back to the other list. */
  function EvictStep(st: ArcState): (ArcState, Option<int>)
    requires Inv(st)
  {
    var preferMfu := |st.mru| < st.target;
    var first := EvictFrom(st, preferMfu);
    if first.1.Some? then first else EvictFrom(st, !preferMfu)
  }

  // ---------------------------------------------------------------------------
  // SetEvictable, Remove, Size
  // ---------------------------------------------------------------------------

  /** SetEvictable(f, flag): reject an untracked frame; otherwise set the flag, adjusting the size only on a change. */
  function SetEvictableStep(st: ArcState, f: int, flag: bool): (ArcState, Outcome)
    requires Inv(st)
  {
    if f !in st.alive then (st, Err(InvalidFrame))
    else if st.alive[f].evictable == flag then (st, Ok)
    else
      assert !flag ==> f in EvictableFrames(st);
      (st.(alive := st.alive[f := st.alive[f].(evictable := flag)],
           currSize := if flag then st.currSize + 1 else st.currSize - 1),
       Ok)
  }

  /** Remove(f): nothing for an untracked frame, an error for a pinned one, else erase it without leaving a ghost. */
  function RemoveStep(st: ArcState, f: int): (ArcState, Outcome)
    requires Inv(st)
  {
    if f !in st.alive then (st, Ok)
    else if !st.alive[f].evictable then (st, Err(FrameNotEvictable))
    else
      assert f in EvictableFrames(st);
      (st.(mru := if st.alive[f].status == MRU then Without(st.mru, f) else st.mru,
           mfu := if st.alive[f].status == MRU then st.mfu else Without(st.mfu, f),
           alive := st.alive - {f},
           currSize := st.currSize - 1),
       Ok)
  }
}
