/**
 * The Count-Min sketch as an object: a depth x width array of counters that
 * Insert, Clear and Merge update in place, and Count and TopK read. Each
 * method is proved against the matrix functions of CountMinSpec through the
 * snapshot Cells(), so what is proved there holds of the object.
 */
module CountMin {
  import opened Wrappers
  import opened CountMinSpec
  import opened TopKSpec

  class CountMinSketch<K(==)> {
    /** Counters per row. */
    const width: nat
    /** Number of rows, one seeded hash each. */
    const depth: nat
    /** The hashes every row's seeded hash is built from. */
    const hashes: RowHash<K>
    /** The counters, indexed [row, column]. */
    const table: array2<nat>

    ghost predicate Valid()
    {
      width > 0 && depth > 0 && table.Length0 == depth && table.Length1 == width
    }

    /** The counters as one value. */
    ghost function Cells(): (m: Matrix)
      reads table
      ensures |m| == table.Length0
      ensures forall r :: 0 <= r < table.Length0 ==> |m[r]| == table.Length1
      ensures forall r, c :: 0 <= r < table.Length0 && 0 <= c < table.Length1 ==> m[r][c] == table[r, c]
    {
      seq(table.Length0, r requires 0 <= r < table.Length0 reads table =>
        seq(table.Length1, c requires 0 <= c < table.Length1 reads table => table[r, c]))
    }

    /** The column each row bumps for item. */
    function ColumnsOf(item: K): (cols: seq<nat>)
      requires Valid()
      ensures |cols| == depth && forall r :: 0 <= r < depth ==> cols[r] < width
    {
      Columns(hashes, width, depth, item)
    }

    /** The estimated frequency of item: the least of its counters. */
    ghost function CountOf(item: K): nat
      requires Valid()
      reads table
    {
      Estimate(Cells(), ColumnsOf(item))
    }

    /** A sketch of zero counters (the loops of src/primer/count_min_sketch.cpp:20-26). */
    constructor (width: nat, depth: nat, hashes: RowHash<K>)
      requires width > 0 && depth > 0
      ensures Valid() && fresh(table)
      ensures this.width == width && this.depth == depth && this.hashes == hashes
      ensures Cells() == Zero(depth, width)
    {
      this.width := width;
      this.depth := depth;
      this.hashes := hashes;
      table := new nat[depth, width];
      new;
      var i := 0;
      while i < depth
        invariant 0 <= i <= depth
        invariant forall r, c :: 0 <= r < i && 0 <= c < width ==> table[r, c] == 0
      {
        var j := 0;
        while j < width
          invariant 0 <= j <= width
          invariant forall r, c :: 0 <= r < i && 0 <= c < width ==> table[r, c] == 0
          invariant forall c :: 0 <= c < j ==> table[i, c] == 0
        {
          table[i, j] := 0;
          j := j + 1;
        }
        i := i + 1;
      }
      assert forall r | 0 <= r < depth :: Cells()[r] == Zero(depth, width)[r];
    }

    /**
     * Count one occurrence of item: each row's counter for it goes up by one
     * (EstimateBump then gives the item's estimate one more, no other estimate less).
     */
    method Insert(item: K)
      requires Valid()
      modifies table
      ensures Cells() == Bump(old(Cells()), ColumnsOf(item))
    {
      ghost var before := Cells();
      ghost var cols := ColumnsOf(item);
      var row := 0;
      while row < depth
        invariant 0 <= row <= depth
        invariant forall r, c :: 0 <= r < depth && 0 <= c < width ==>
                    table[r, c] == before[r][c] + (if r < row && c == cols[r] then 1 else 0)
      {
        var col := Column(hashes, width, row, item);
        table[row, col] := table[row, col] + 1;
        row := row + 1;
      }
      assert forall r | 0 <= r < depth :: Cells()[r] == Bump(before, cols)[r];
    }

    /** The estimated frequency of item: the minimum of its counters over the rows. */
    method Count(item: K) returns (c: nat)
      requires Valid()
      ensures c == CountOf(item)
    {
      ghost var m := Cells();
      ghost var cols := ColumnsOf(item);
      assert Picks(m, cols);
      c := table[0, Column(hashes, width, 0, item)];
      var row := 1;
      while row < depth
        invariant 1 <= row <= depth
        invariant c == RowMin(m, cols, row)
      {
        var col := Column(hashes, width, row, item);
        assert table[row, col] == m[row][cols[row]];
        c := Min(c, table[row, col]);
        row := row + 1;
      }
    }

    /** The estimate is the least of the item's counters: no counter is below it, and one equals it. */
    lemma CountOfIsMin(item: K)
      requires Valid()
      ensures forall r :: 0 <= r < depth ==> CountOf(item) <= table[r, Column(hashes, width, r, item)]
      ensures exists r :: 0 <= r < depth && CountOf(item) == table[r, Column(hashes, width, r, item)]
    {
      var m := Cells();
      var cols := ColumnsOf(item);
      assert Picks(m, cols);
      RowMinIsMin(m, cols, depth);
      forall r | 0 <= r < depth
        ensures m[r][cols[r]] == table[r, Column(hashes, width, r, item)]
      {
      }
      var least :| 0 <= least < depth && Estimate(m, cols) == m[least][cols[least]];
      assert CountOf(item) == table[least, Column(hashes, width, least, item)];
    }

    /** Reset every counter to zero. */
    method Clear()
      requires Valid()
      modifies table
      ensures Cells() == Zero(depth, width)
      ensures forall y :: CountOf(y) == 0
    {
      var r := 0;
      while r < depth
        invariant 0 <= r <= depth
        invariant forall i, j :: 0 <= i < r && 0 <= j < width ==> table[i, j] == 0
      {
        var c := 0;
        while c < width
          invariant 0 <= c <= width
          invariant forall i, j :: 0 <= i < r && 0 <= j < width ==> table[i, j] == 0
          invariant forall j :: 0 <= j < c ==> table[r, j] == 0
        {
          table[r, c] := 0;
          c := c + 1;
        }
        r := r + 1;
      }
      assert forall i | 0 <= i < depth :: Cells()[i] == Zero(depth, width)[i];
      forall y
        ensures CountOf(y) == 0
      {
        EstimateZero(depth, width, ColumnsOf(y));
      }
    }

    /**
     * Add other's counters to this sketch's, cell by cell. The dimensions must
     * agree; other may be this sketch itself, which doubles every counter.
     */
    method Merge(other: CountMinSketch<K>)
      requires Valid() && other.Valid()
      requires other.depth == depth && other.width == width
      modifies table
      ensures Cells() == Sum(old(Cells()), old(other.Cells()))
    {
      ghost var before := Cells();
      ghost var added := other.Cells();
      var r := 0;
      while r < depth
        invariant 0 <= r <= depth
        invariant forall i, j :: 0 <= i < depth && 0 <= j < width ==>
                    table[i, j] == before[i][j] + (if i < r then added[i][j] else 0)
        invariant forall i, j :: r <= i < depth && 0 <= j < width ==> other.table[i, j] == added[i][j]
      {
        var c := 0;
        while c < width
          invariant 0 <= c <= width
          invariant forall i, j :: 0 <= i < depth && 0 <= j < width ==>
                      table[i, j] == before[i][j] + (if i < r || (i == r && j < c) then added[i][j] else 0)
          invariant forall i, j :: r <= i < depth && 0 <= j < width && (i > r || j >= c) ==>
                      other.table[i, j] == added[i][j]
        {
          table[r, c] := table[r, c] + other.table[r, c];
          c := c + 1;
        }
        r := r + 1;
      }
      assert forall i | 0 <= i < depth :: Cells()[i] == Sum(before, added)[i];
    }

    /** The candidates paired with their estimates in counter matrix m, in order. */
    ghost function ScoredIn(m: Matrix, candidates: seq<K>): (s: seq<(K, nat)>)
      requires Valid() && Shaped(m, depth, width)
      ensures |s| == |candidates|
    {
      if candidates == [] then []
      else
        var last := candidates[|candidates| - 1];
        ScoredIn(m, candidates[..|candidates| - 1]) + [(last, Estimate(m, ColumnsOf(last)))]
    }

    /** Each candidate is paired with its own estimate, in the candidates' order. */
    lemma {:induction false} ScoredInPairs(m: Matrix, candidates: seq<K>)
      requires Valid() && Shaped(m, depth, width)
      ensures forall i :: 0 <= i < |candidates| ==>
                ScoredIn(m, candidates)[i] == (candidates[i], Estimate(m, ColumnsOf(candidates[i])))
    {
      if candidates != [] {
        var init := candidates[..|candidates| - 1];
        ScoredInPairs(m, init);
        forall i | 0 <= i < |init|
          ensures ScoredIn(m, candidates)[i] == (candidates[i], Estimate(m, ColumnsOf(candidates[i])))
        {
          assert ScoredIn(m, candidates)[i] == ScoredIn(m, init)[i];
          assert init[i] == candidates[i];
        }
      }
    }

    /** Scoring one more candidate appends its pair. */
    lemma ScoredNext(m: Matrix, candidates: seq<K>, i: nat)
      requires Valid() && Shaped(m, depth, width) && i < |candidates|
      ensures ScoredIn(m, candidates[..i + 1]) == ScoredIn(m, candidates[..i]) + [(candidates[i], Estimate(m, ColumnsOf(candidates[i])))]
    {
      assert candidates[..i + 1][..i] == candidates[..i];
    }

    /** The candidates paired with their estimated counts, in order. */
    ghost function Scored(candidates: seq<K>): (s: seq<(K, nat)>)
      requires Valid()
      reads table
      ensures |s| == |candidates|
    {
      ScoredIn(Cells(), candidates)
    }

    /**
     * The k candidates with the largest estimated counts, largest first, each
     * with its count; fewer when there are fewer candidates. Entries that tie on
     * the count may come in any order, and of tied entries at the cut any may be
     * kept.
     */
    method TopK(k: nat, candidates: seq<K>) returns (res: seq<(K, nat)>)
      requires Valid()
      ensures |res| == (if k < |candidates| then k else |candidates|)
      ensures Descending(res)
      ensures multiset(res) <= multiset(Scored(candidates))
      ensures forall a, b :: a in multiset(Scored(candidates)) - multiset(res) && b in res ==> a.1 <= b.1
    {
      var heap;
      ghost var dropped;
      heap, dropped := FillHeap(k, candidates);
      res := DrainReversed(heap);
      Drained(heap, dropped, Scored(candidates));
    }

    /**
     * The first loop of TopK: every candidate is pushed with its count onto a
     * min-heap that pops its least entry whenever it holds more than k. The
     * heap is returned in pop order, with the entries it popped.
     */
    method FillHeap(k: nat, candidates: seq<K>) returns (heap: seq<(K, nat)>, ghost dropped: seq<(K, nat)>)
      requires Valid()
      ensures Filling(heap, dropped, Scored(candidates), k)
    {
      heap := [];
      dropped := [];
      ghost var m := Cells();
      var i := 0;
      while i < |candidates|
        invariant 0 <= i <= |candidates|
        invariant Cells() == m
        invariant Filling(heap, dropped, ScoredIn(m, candidates[..i]), k)
      {
        ScoredNext(m, candidates, i);
        heap, dropped := OfferCounted(k, candidates[i], heap, dropped, ScoredIn(m, candidates[..i]));
        i := i + 1;
      }
      assert candidates[..i] == candidates;
    }

    /** One pass of TopK's first loop: count item, then offer it with its count to the heap. */
    method OfferCounted(k: nat, item: K, heap: seq<(K, nat)>, ghost dropped: seq<(K, nat)>, ghost scored: seq<(K, nat)>)
      returns (heap': seq<(K, nat)>, ghost dropped': seq<(K, nat)>)
      requires Valid() && Filling(heap, dropped, scored, k)
      ensures Filling(heap', dropped', scored + [(item, CountOf(item))], k)
    {
      var count := Count(item);
      dropped' := FillingStep(heap, dropped, scored, (item, count), k);
      heap' := PushBounded(heap, (item, count), k);
    }
  }

  /**
   * Build a sketch of the given dimensions, or None where the source throws
   * invalid_argument: a zero width or depth (src/primer/count_min_sketch.cpp:16-19).
   */
  method NewSketch<K(==)>(width: nat, depth: nat, hashes: RowHash<K>) returns (r: Option<CountMinSketch<K>>)
    ensures r.None? <==> width == 0 || depth == 0
    ensures r.Some? ==> fresh(r.value) && fresh(r.value.table) && r.value.Valid()
    ensures r.Some? ==> r.value.width == width && r.value.depth == depth && r.value.hashes == hashes
    ensures r.Some? ==> r.value.Cells() == Zero(depth, width)
  {
    if width == 0 || depth == 0 {
      return None;
    }
    var sketch := new CountMinSketch(width, depth, hashes);
    return Some(sketch);
  }
}
