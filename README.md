# ARC replacer and Count-Min sketch of the BusTub buffer pool

This project models two components of the BusTub teaching database:

- **The ARC replacer** (`src/buffer/arc_replacer.cpp`). The buffer pool asks it which frame to evict. It keeps four lists:
  - `mru_` and `mfu_` hold live frames touched once and more than once;
  - `mru_ghost_` and `mfu_ghost_` hold pages recently evicted from them.

  Two indices go with the lists: `alive_map_` by frame and `ghost_map_` by page. There is also an adaptive target size for `mru_`, and a counter of evictable frames.
- **The Count-Min sketch** (`src/primer/count_min_sketch.cpp`). It is a `depth x width` matrix of counters with one seeded hash per row:
  - `Insert` bumps one counter per row;
  - `Count` is the least of an item's counters;
  - `Clear` zeroes the matrix, and `Merge` adds another sketch cell by cell;
  - `TopK` ranks candidates by their counts through a bounded min-heap.

Each component is split the same way: a pure model, plus a class that mirrors the source object.

- **`ArcSpec`** (`arc_spec.dfy`) is the ARC policy as a state machine. `ArcState` is a snapshot of the replacer's fields, and each public operation is a step function.
- **`ArcInvariant`** (`arc_invariant.dfy`) proves that every step keeps the replacer invariant `Inv`:
  - the indices agree with the lists;
  - no frame or page is listed twice;
  - the directory stays within its ARC capacity bounds;
  - the target stays in `[0, capacity]`;
  - the size counter equals the number of evictable frames.
- **`ArcProperties`** (`arc_properties.dfy`) states what each step does, independently of how it is computed.
- **`Replacer.ArcReplacer`** (`arc_replacer.dfy`) is the replacer as an object. Its fields are the source's members. Each method is proved to move the snapshot `Model()` exactly as the matching step function does, so every lemma about the steps holds of the object.
- **`ArcAsWritten`** (`arc_as_written.dfy`) models the operations whose code departs from its own doc comments. Each is shown on a concrete state (see Findings).
- **`CountMinSpec`** (`count_min_spec.dfy`) is the sketch as a counter matrix. It holds:
  - the row hash `Column`;
  - the matrix updates `Bump`, `Zero` and `Sum`;
  - the estimate `Estimate`, which is the minimum over the rows;
  - the guarantee that the estimate never falls below the true count.
- **`TopKSpec`** (`top_k.dfy`) is the bounded min-heap of `TopK`. The heap is an ascending sequence, which is its pop order.
- **`CountMin.CountMinSketch`** (`count_min_sketch.dfy`) is the sketch as an object over an `array2`. Each method is proved against the matrix functions through the snapshot `Cells()`.
- **`Wrappers` and `Seqs`** (`wrappers.dfy`, `seqs.dfy`) provide `Option` and the `std::list` operations the replacer uses.

Errors the source reports by throwing are values here: `Outcome` and `Option`.

## Model

| member | source | states |
|---|---|---|
| ArcSpec.Empty | src/buffer/arc_replacer.cpp:26-33 | A new replacer satisfies the invariant and has the given capacity. Its target, its size and both indices are empty or zero. |
| ArcSpec.AliveCount | src/include/buffer/arc_replacer.h:53-59 | When the live index matches the live lists, it holds exactly as many frames as the two live lists together. |
| ArcSpec.LiveListIndexed | src/buffer/arc_replacer.cpp:37-40 | Every position of a live list holds a frame the live index knows, so the lookup during the eviction scan always finds a record. |
| ArcSpec.ListsDisjoint | src/include/buffer/arc_replacer.h:53-61 | Under the invariant the two live lists share no frame and the two ghost lists share no page. No resident page is also a ghost. |
| ArcSpec.TargetStep | src/buffer/arc_replacer.cpp:148-160 | A ghost hit moves the target by at least 1. The move is exactly 1 when the hit list is at least as long as the other; otherwise it is the floor of their ratio. |
| ArcSpec.RaisedTarget | src/buffer/arc_replacer.cpp:148-153 | After an MRU-ghost hit the target never decreases and never exceeds capacity. It rises by the full step unless the cap cuts it short. |
| ArcSpec.LoweredTarget | src/buffer/arc_replacer.cpp:156-161 | After an MFU-ghost hit the target never increases. It falls by the full step unless it is floored at 0. |
| ArcSpec.MissTrimPossible | src/buffer/arc_replacer.cpp:188-204 | Whenever a miss must forget the oldest ghost of a list, that list is non-empty. This makes `back()`/`pop_back()` safe. |
| ArcSpec.Backmost | src/buffer/arc_replacer.cpp:37-53 | The back-to-front scan finds nothing iff no frame of the list is evictable. Otherwise it returns an evictable frame with only pinned frames behind it. |
| ArcSpec.BackmostAt | src/buffer/arc_replacer.cpp:37-51 | An evictable position with only pinned frames behind it is the one the scan returns. |
| ArcInvariant.AliveHitInv | src/buffer/arc_replacer.cpp:124-137 | Promoting a live frame from MRU to MFU keeps the invariant. |
| ArcInvariant.GhostHitAliveIndexed | src/buffer/arc_replacer.cpp:164-169 | After a ghost hit the live index still matches the live lists. |
| ArcInvariant.GhostHitGhostIndexed | src/buffer/arc_replacer.cpp:171 | After a ghost hit the ghost index still matches the ghost lists. |
| ArcInvariant.GhostHitWithinCapacity | src/buffer/arc_replacer.cpp:143-173 | After a ghost hit the capacity bounds and the target range still hold. |
| ArcInvariant.GhostHitPagesDistinct | src/buffer/arc_replacer.cpp:164-171 | After a ghost hit the revived page is resident once and is no longer a ghost. |
| ArcInvariant.GhostHitEvictable | src/buffer/arc_replacer.cpp:164-169 | A ghost hit adds exactly the new frame to the evictable frames. |
| ArcInvariant.GhostHitInv | src/buffer/arc_replacer.cpp:143-173 | A ghost hit keeps the invariant. |
| ArcInvariant.DropOldestMruGhostInv | src/buffer/arc_replacer.cpp:190-192 | Forgetting the oldest MRU ghost keeps the invariant and shortens that list by one. |
| ArcInvariant.DropOldestMfuGhostInv | src/buffer/arc_replacer.cpp:202-204 | Forgetting the oldest MFU ghost keeps the invariant and shortens that list by one. |
| ArcInvariant.TrimForMissInv | src/buffer/arc_replacer.cpp:181-204 | Trimming before a miss keeps the invariant and leaves room for one more MRU entry within both directory bounds. |
| ArcInvariant.TrimForMissFrame | src/buffer/arc_replacer.cpp:188-204 | Trimming leaves both live lists, the live index, the size, the target and the capacity unchanged. The ghost index only loses pages. |
| ArcInvariant.InsertMruInv | src/buffer/arc_replacer.cpp:212-214 | Inserting a fresh evictable frame at the front of MRU keeps the invariant when there is room for it. |
| ArcInvariant.MissInv | src/buffer/arc_replacer.cpp:181-214 | A total miss keeps the invariant. |
| ArcInvariant.AccessStepInv | src/buffer/arc_replacer.cpp:120-215 | RecordAccess keeps the invariant in all four cases. |
| ArcInvariant.DemotedAliveIndexed | src/buffer/arc_replacer.cpp:42-44 | After an eviction the live index still matches the live lists. |
| ArcInvariant.DemotedGhostIndexed | src/buffer/arc_replacer.cpp:45-49 | After an eviction the ghost index still matches the ghost lists. |
| ArcInvariant.DemotedInv | src/buffer/arc_replacer.cpp:41-50 | Evicting an evictable frame from its own list keeps the invariant. |
| ArcInvariant.EvictFromInv | src/buffer/arc_replacer.cpp:35-54 | Evicting from one live list keeps the invariant. |
| ArcInvariant.EvictStepInv | src/buffer/arc_replacer.cpp:73-89 | Evict keeps the invariant. |
| ArcInvariant.SetEvictableStepInv | src/buffer/arc_replacer.cpp:220-241 | SetEvictable keeps the invariant, including size == number of evictable frames, for either flag. |
| ArcInvariant.RemoveStepInv | src/buffer/arc_replacer.cpp:243-275 | Remove keeps the invariant. |
| ArcProperties.EvictNoneIff | src/buffer/arc_replacer.cpp:71-89 | Evict returns no victim iff no frame is evictable, and in that case it changes nothing. |
| ArcProperties.EvictPreference | src/buffer/arc_replacer.cpp:73-89 | Evict takes the back-most evictable frame of the preferred list. That is MFU when MRU is shorter than the target, else MRU. It falls back to the other list only when the preferred list has no evictable frame. |
| ArcProperties.DemotedEffects | src/buffer/arc_replacer.cpp:41-50 | The victim is erased from its list, and the other frames keep their order. The live index loses exactly the victim, and the size drops by one. The ghost index gains exactly the page's pinned ghost record, and the page enters the front of the matching ghost list. The other lists, the target and the capacity are unchanged. |
| ArcProperties.EvictVictim | src/buffer/arc_replacer.cpp:73-89 | The victim was evictable, and Evict's new state is that frame demoted from the list it was in. |
| ArcProperties.AliveHitEffects | src/buffer/arc_replacer.cpp:121-137 | A live hit leaves the target, the ghosts and the size alone. An MRU frame moves to the front of MFU and is erased from MRU, and the other MRU frames keep their order. Only its status changes in the live index. On an MFU frame nothing changes. |
| ArcProperties.RepeatedAccessIdempotent | src/buffer/arc_replacer.cpp:121-137 | From the second access on the frame is in MFU, and further accesses change nothing. |
| ArcProperties.GhostHitEffects | src/buffer/arc_replacer.cpp:138-173 | A ghost hit revives the page under the new frame, evictable, at the front of MFU. It erases the page from its ghost list, and the other ghosts keep their order. The other ghost list is unchanged. For an MRU ghost the target rises by 1, or by the MFU ghost list's length divided by the MRU ghost list's, capped at capacity. For an MFU ghost it falls by 1, or by the inverse ratio, floored at 0. |
| ArcProperties.TrimForMissEffects | src/buffer/arc_replacer.cpp:181-204 | Before a miss, the oldest MRU ghost is forgotten when MRU and its ghosts fill the capacity. Otherwise the oldest MFU ghost is forgotten when all four lists fill twice the capacity. Otherwise nothing is forgotten. |
| ArcProperties.MissEffects | src/buffer/arc_replacer.cpp:181-214 | A total miss puts the frame, evictable, at the front of MRU after that trimming. The target is unchanged and the size grows by one. |
| ArcProperties.SetEvictableEffects | src/buffer/arc_replacer.cpp:217-241 | An untracked frame is rejected and nothing changes. Otherwise the frame's record changes only in its evictable flag, which becomes the flag asked for, and the size moves by one exactly when the flag changes. The lists, the ghosts, the target and the capacity are unchanged. Setting the current value changes nothing. |
| ArcProperties.RemoveEffects | src/buffer/arc_replacer.cpp:243-275 | An untracked frame is ignored and a pinned frame is rejected, both without change. An evictable frame is erased from its own list, and the others keep their order; the other list is unchanged. The live index loses exactly that frame. No ghost is recorded, and the size drops by one. |
| ArcProperties.RemovedPageMisses | src/buffer/arc_replacer.cpp:259-275 | After a removal the page is known nowhere: accessing it again is a total miss. |
| Seqs.Without | src/buffer/arc_replacer.cpp:134 | Erasing x keeps every other element, and only those. A list without x is unchanged. |
| Seqs.WithoutAt | src/buffer/arc_replacer.cpp:134 | In a duplicate-free list holding x at position k, erasing x splices out position k and keeps the rest in order. |
| Seqs.WithoutErased | src/buffer/arc_replacer.cpp:267-269 | Erasing a present element of a duplicate-free list removes it at its position, and the others keep their order. |
| Seqs.DropLast | src/buffer/arc_replacer.cpp:192 | `pop_back` keeps the front elements in order. |
| Replacer.ArcReplacer.constructor | src/buffer/arc_replacer.cpp:33 | The new replacer's state is `Empty(num_frames)`. |
| Replacer.ArcReplacer.FindBackmost | src/buffer/arc_replacer.cpp:37-52 | The scan loop returns the position `Backmost` specifies. |
| Replacer.ArcReplacer.MoveToGhost | src/buffer/arc_replacer.cpp:42-49 | The frame leaves its list and the live index, and its page enters the front of the ghost list. The size drops by one. |
| Replacer.ArcReplacer.EvictFromList | src/buffer/arc_replacer.cpp:35-54 | The new state and the victim are those of `EvictFrom`. |
| Replacer.ArcReplacer.Evict | src/buffer/arc_replacer.cpp:73-89 | The invariant is kept, and the new state and the victim are those of `EvictStep`. |
| Replacer.ArcReplacer.RecordAccess | src/buffer/arc_replacer.cpp:120-215 | The invariant is kept, and the new state is `AccessStep`'s. |
| Replacer.ArcReplacer.PromoteLive | src/buffer/arc_replacer.cpp:124-137 | The new state is `AliveHit`'s. |
| Replacer.ArcReplacer.ReviveGhost | src/buffer/arc_replacer.cpp:143-173 | The new state is `GhostHit`'s. |
| Replacer.ArcReplacer.TrimGhosts | src/buffer/arc_replacer.cpp:188-204 | The new state is `TrimForMiss`'s. |
| Replacer.ArcReplacer.AdmitMiss | src/buffer/arc_replacer.cpp:188-214 | The new state is `Miss`'s. |
| Replacer.ArcReplacer.SetEvictable | src/buffer/arc_replacer.cpp:220-241 | The invariant is kept, and the new state and outcome are those of `SetEvictableStep`. |
| Replacer.ArcReplacer.Remove | src/buffer/arc_replacer.cpp:243-275 | The invariant is kept, and the new state and outcome are those of `RemoveStep`. |
| Replacer.ArcReplacer.Size | src/buffer/arc_replacer.cpp:280-284 | Returns the number of evictable frames. |
| ArcAsWritten.EvictFromAsWritten | src/buffer/arc_replacer.cpp:35-54 | As written, the victim leaves the live index. The ghost lists, the ghost index and the size are unchanged, because the page goes onto a copy. The erase from a by-value copy with a member iterator is undefined, and the member lists are taken as unchanged, as one reading of it. |
| ArcAsWritten.SetEvictableAsWritten | src/buffer/arc_replacer.cpp:234-241 | As written, a tracked frame always becomes evictable and the size never moves. |
| ArcAsWritten.MissAsWritten | src/buffer/arc_replacer.cpp:188-214 | As written, a miss does what `Miss` does except that the size is not incremented. |
| ArcAsWritten.RaisedTargetAsWritten | src/buffer/arc_replacer.cpp:148-153 | The `size_t` raise agrees with `RaisedTarget` whenever it does not overflow. |
| ArcAsWritten.LoweredTargetAsWritten | src/buffer/arc_replacer.cpp:156-161 | The `size_t` lowering agrees with `LoweredTarget` when the step fits under the target. Otherwise it wraps to 2^64 + target - step. This is exact for the `-= 1` branch (:157). For the `double` branch (:159) it is one reading of undefined behaviour. |
| ArcAsWritten.GhostHitAsWritten | src/buffer/arc_replacer.cpp:143-173 | As written, a ghost hit keeps the page in its ghost list and revives the frame pinned. The size does not move. |
| ArcAsWritten.EvictFromAsWrittenLosesFrame | src/buffer/arc_replacer.cpp:35-54 | With one evictable frame, the written eviction leaves the frame in MRU while the live index forgets it, under the "unchanged" reading of the undefined erase. The corrected step moves the page to the MRU ghost list. |
| ArcAsWritten.SetEvictableAsWrittenIgnoresFlag | src/buffer/arc_replacer.cpp:234-241 | The written code cannot pin a frame, and unpinning breaks size == evictable frames. The corrected step does neither. |
| ArcAsWritten.MissAsWrittenNeverCounts | src/buffer/arc_replacer.cpp:188-214 | The first miss on an empty replacer leaves one evictable frame, and the written code reports size 0. |
| ArcAsWritten.GhostHitAsWrittenKeepsGhost | src/buffer/arc_replacer.cpp:143-173 | As written, a hit on a ghost page leaves it in its ghost list while the ghost index forgets it, and the revived frame is pinned. |
| ArcAsWritten.LoweredTargetAsWrittenWraps | src/buffer/arc_replacer.cpp:156-161 | An MFU-ghost hit at target 0 wraps the written target to 2^64 - 1, above the capacity. The corrected target is 0. |
| CountMinSpec.Column | src/include/primer/count_min_sketch.h:45-53 | The column a row picks for an item, built from the item hash and the row's seed combined with 15445, is below the width. |
| CountMinSpec.Columns | src/primer/count_min_sketch.cpp:28-33 | There is one column per row, each from that row's own seeded hash and below the width. |
| CountMinSpec.Zero | src/primer/count_min_sketch.cpp:20-26 | A `depth x width` matrix whose counters are all 0. |
| CountMinSpec.Bump | src/primer/count_min_sketch.cpp:64-71 | Each row's picked counter goes up by exactly one, and every other counter is unchanged. |
| CountMinSpec.Sum | src/primer/count_min_sketch.cpp:92-102 | Every counter of the merge is the sum of the two counters in that cell. |
| CountMinSpec.RowMinIsMin | src/primer/count_min_sketch.cpp:73-81 | The running minimum is at most every picked counter and equals one of them. |
| CountMinSpec.RowMinBumpOwn | src/primer/count_min_sketch.cpp:64-81 | Inserting an item raises its own running minimum by exactly one. |
| CountMinSpec.RowMinBumpOther | src/primer/count_min_sketch.cpp:64-81 | Inserting an item never lowers the running minimum of any column choice. |
| CountMinSpec.EstimateBump | src/primer/count_min_sketch.cpp:64-81 | After `Insert(x)`, `Count(x)` is one more than before, and no other count decreases. |
| CountMinSpec.EstimateZero | src/primer/count_min_sketch.cpp:83-90 | A cleared sketch counts every item 0. |
| CountMinSpec.RowMinSum | src/primer/count_min_sketch.cpp:92-102 | A merged running minimum is at least the sum of the two running minima. |
| CountMinSpec.EstimateSum | src/primer/count_min_sketch.cpp:92-102 | After a merge every count is at least the sum of the two sketches' counts. |
| CountMinSpec.BumpEstimate | src/primer/count_min_sketch.cpp:64-81 | One insertion adds at least one to the inserted item's count and lowers no count. |
| CountMinSpec.NeverUnderestimates | src/primer/count_min_sketch.cpp:64-81 | After inserting a sequence of items, every item's count has grown by at least the number of times it was inserted. |
| TopKSpec.InsertPos | src/primer/count_min_sketch.cpp:108-115 | The push position has smaller counts before it and a count at least as large at it. |
| TopKSpec.InsertAsc | src/primer/count_min_sketch.cpp:108-115 | A push keeps the heap in pop order and adds exactly the pushed entry. The front becomes the least entry. |
| TopKSpec.Reversed | src/primer/count_min_sketch.cpp:126 | `std::reverse`: position i holds the element i places from the back. |
| TopKSpec.ReversedDescending | src/primer/count_min_sketch.cpp:121-126 | Draining and reversing an ascending heap gives the same entries with non-increasing counts. |
| TopKSpec.PushPopDominates | src/primer/count_min_sketch.cpp:115-118 | Pushing and then popping the least entry keeps every dropped entry at or below every kept one. |
| TopKSpec.PopFront | src/primer/count_min_sketch.cpp:116-118 | A pop keeps the rest in pop order and moves exactly the front entry to the dropped entries. |
| TopKSpec.OfferKeeps | src/primer/count_min_sketch.cpp:113-119 | One candidate's push-and-pop keeps the heap in pop order, at most k long, and at or above every dropped entry. The heap and the dropped entries together hold all entries offered so far. |
| TopKSpec.FillingStep | src/primer/count_min_sketch.cpp:113-119 | Each pass of the first loop keeps its invariant: the heap holds `min(k, n)` entries in pop order, the rest were dropped, and nothing dropped outranks anything kept. |
| TopKSpec.Drained | src/primer/count_min_sketch.cpp:121-127 | The reversed heap is ordered by non-increasing count and drawn from the scored candidates. It outranks every entry left out. |
| TopKSpec.PushBounded | src/primer/count_min_sketch.cpp:115-118 | The push-then-maybe-pop statements yield the heap of `Offer`, the function that specifies them and that `OfferKeeps` is about. |
| TopKSpec.DrainReversed | src/primer/count_min_sketch.cpp:121-126 | The pop loop and the reversal yield the heap reversed. |
| CountMin.CountMinSketch.ColumnsOf | src/primer/count_min_sketch.cpp:28-33 | One column per row, each below the width. |
| CountMin.CountMinSketch.constructor | src/primer/count_min_sketch.cpp:15-34 | A valid sketch with the given dimensions and hashes. Its counters are all 0. |
| CountMin.NewSketch | src/primer/count_min_sketch.cpp:15-19 | No sketch iff the width or the depth is 0, where the source throws `invalid_argument`. Otherwise a fresh sketch of zero counters. |
| CountMin.CountMinSketch.Insert | src/primer/count_min_sketch.cpp:64-71 | The counters become `Bump` of the old ones at the item's columns. |
| CountMin.CountMinSketch.Count | src/primer/count_min_sketch.cpp:73-81 | Returns the item's estimate, the minimum of its counters over the rows. |
| CountMin.CountMinSketch.CountOfIsMin | src/primer/count_min_sketch.cpp:73-81 | The estimate is at most each of the item's counters in the array and equals one of them. |
| CountMin.CountMinSketch.Clear | src/primer/count_min_sketch.cpp:83-90 | All counters become 0, and every item's count is then 0. |
| CountMin.CountMinSketch.Merge | src/primer/count_min_sketch.cpp:92-102 | The counters become the cell-wise sum of both sketches' old counters. This holds even when `other` is this sketch. |
| CountMin.CountMinSketch.ScoredIn | src/primer/count_min_sketch.cpp:113-114 | One (candidate, count) pair per candidate. |
| CountMin.CountMinSketch.ScoredInPairs | src/primer/count_min_sketch.cpp:113-114 | The i-th pair is the i-th candidate with its estimate. |
| CountMin.CountMinSketch.Scored | src/primer/count_min_sketch.cpp:113-114 | The candidates scored against the current counters, one pair each. |
| CountMin.CountMinSketch.OfferCounted | src/primer/count_min_sketch.cpp:114-118 | Counting one candidate and offering it keeps the first loop's invariant, with the candidate's estimate added. |
| CountMin.CountMinSketch.FillHeap | src/primer/count_min_sketch.cpp:109-119 | After the first loop, the heap holds the `min(k, n)` best-scored candidates in pop order. Every dropped entry counts no more than every kept one. |
| CountMin.CountMinSketch.TopK | src/primer/count_min_sketch.cpp:104-128 | The result holds min(k, number of candidates) (candidate, count) pairs with non-increasing counts, drawn from the scored candidates. No candidate left out counts more than any candidate returned. |

## Left out

- Concurrency: the replacer's `latch_` and the sketch's per-row mutexes are left out. Every operation is atomic in the model.
- `AccessType` is ignored by the source apart from leaderboard tests. It is not a parameter.
- `shared_ptr<FrameStatus>` aliasing and the `list_it_` iterators are not modelled. A record is a value in a map, and a list position is an index into a sequence.
- Replacer.ArcReplacer.RecordAccess: requires `AccessAllowed`. When the frame is new, the replacer must have a free frame and the page must not be resident in another frame. The source's doc comment promises this of the buffer pool ("the maximum number of frames the ArcReplacer will be required to cache"), and its miss path relies on it.
- The doc comment of `RecordAccess` (`src/buffer/arc_replacer.cpp:94-96`) says an access brings the page to the front of `mfu_` if it is in any list. The code at `src/buffer/arc_replacer.cpp:126-136` moves only an MRU frame and leaves an MFU frame where it is. The model follows the code (`AliveHit`).
- `src/buffer/arc_replacer.cpp` uses a `list_it_` field and a five-argument `FrameStatus` constructor (for example at :43 and :195). The header `src/include/buffer/arc_replacer.h:16-23` declares neither. The model assumes the record the `.cpp` uses: page, frame, evictable flag, status, and a list position.
- The corrections listed under Findings change four things:
  - evictions change the member lists, not copies;
  - SetEvictable toggles the flag;
  - a ghost hit removes the page from its ghost list;
  - `curr_size_` tracks the evictable frames.

  The rest of the model uses the corrected operations.
- Replacer.ArcReplacer.Remove: the source never decrements `curr_size_`. The model decrements it, as the doc comment at `src/buffer/arc_replacer.cpp:247` asks.
- Replacer.ArcReplacer.Size: in the source `curr_size_` is never written after construction, so `Size` always returns 0. The model returns the number of evictable frames.
- Remove's `Exception` for a record in neither live list (`src/buffer/arc_replacer.cpp:270-272`) is unreachable under the invariant. It is not a separate outcome.
- `std::hash` and `HashUtil::CombineHashes` are not part of this model. They are the two functions of a `RowHash` value, about which nothing is assumed. The row seed `combine(row, 15445)` and the reduction mod width are modelled.
- CountMin.CountMinSketch.Insert: counters are unbounded `nat`. The `uint32_t` wrap-around of a counter past 2^32 - 1 is not modelled.
- CountMin.CountMinSketch.Merge: adding two `uint32_t` counters can wrap, which is not modelled. The width and depth agreement the source only `assert`s is a precondition. As in the source, the two sketches' hashes are not compared.
- CountMin.CountMinSketch.TopK: `k` is `nat`, not `uint16_t`. The order of entries that tie on the count, which `std::priority_queue` decides, is not modelled: the contract allows any order of ties and any choice among tied entries at the cut.
- The move constructor and move assignment (`src/primer/count_min_sketch.cpp:36-62`) transfer ownership of the array and the hash functions. Ownership and deallocation are not part of this model.
- `src/countMinSketch/count_min_sketch.h` and `.cpp` are an older, separate copy of the sketch and are not part of this model.

## Findings

| source | as written | input that shows it | evidently intended | confidence | as-written member | corrected member |
|---|---|---|---|---|---|---|
| src/buffer/arc_replacer.cpp:35-54 | `evictFromList` takes the live and ghost lists by value. The page is pushed onto a copy of the ghost list (:46), `ghost_map_` is never written, and `curr_size_` is not decremented. The erase at :43 applies an iterator into a member list to the copy, which C++ leaves undefined, so the effect on `mru_` and `mfu_` is undefined. The as-written member takes "unchanged" as one reading. | Capacity 1, frame 0 (page 7) evictable in MRU, then `Evict()`. Page 7 reaches neither `mru_ghost_` nor `ghost_map_`. Under the "unchanged" reading, frame 0 also stays in `mru_` while `alive_map_` forgets it. | The victim leaves `mru_`, page 7 enters `mru_ghost_` and `ghost_map_`, and the size drops. | not executed | ArcAsWritten.EvictFromAsWrittenLosesFrame | ArcSpec.EvictFrom |
| src/buffer/arc_replacer.cpp:234-241 | `SetEvictable` always sets `evictable_ = true` and never updates `curr_size_`. | `SetEvictable(0, false)` on evictable frame 0 leaves it evictable. `SetEvictable(0, true)` on pinned frame 0 leaves the size at 0. | The flag is set to `set_evictable`, and the size moves on a change, as the doc comment at :220-229 says. | not executed | ArcAsWritten.SetEvictableAsWrittenIgnoresFlag | ArcSpec.SetEvictableStep |
| src/buffer/arc_replacer.cpp:188-214 | A miss inserts an evictable frame without incrementing `curr_size_`. | `RecordAccess(0, 7)` on an empty replacer of capacity 1 leaves one evictable frame, and `Size()` is 0. | The size counts the new evictable frame. | not executed | ArcAsWritten.MissAsWrittenNeverCounts | ArcSpec.Miss |
| src/buffer/arc_replacer.cpp:164-171 | A ghost hit erases the page from `ghost_map_` only, reusing the ghost record with `evictable_ = false`. | Page 7 in `mru_ghost_` and `RecordAccess(0, 7)`. Page 7 stays in `mru_ghost_` without an index entry, and frame 0 is pinned. This is latent: as written, nothing puts a page into `ghost_map_` or a ghost list until the first row is corrected. | The page leaves its ghost list, and the revived frame is evictable and counted. | not executed | ArcAsWritten.GhostHitAsWrittenKeepsGhost | ArcSpec.GhostHit |
| src/buffer/arc_replacer.cpp:156-161 | `mru_target_size_ -= 1` (:157) on a `size_t`, then `max` with 0. The ratio branch (:159) subtracts a `double`, and converting a negative `double` to `size_t` is undefined in C++; the as-written member takes the wrap modulo 2^64 as one reading of it. | Page 7 in `mfu_ghost_`, target 0, `RecordAccess(0, 7)`. The `-= 1` branch wraps the target to 2^64 - 1. This is latent: as written, nothing puts a page into a ghost list until the first row is corrected. | The target is floored at 0. | not executed | ArcAsWritten.LoweredTargetAsWrittenWraps | ArcSpec.LoweredTarget |
