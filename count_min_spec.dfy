/**
 * The Count-Min sketch as values: a depth x width matrix of counters, one
 * seeded hash per row choosing the column an item bumps in that row, and the
 * estimate of an item's frequency as the least of its counters.
 *
 * std::hash and HashUtil::CombineHashes are not part of this model: they are
 * the two functions of a RowHash value, about which nothing is assumed.
 */
module CountMinSpec {

  /** The fixed seed every row combines with its own index (SEED_BASE). */
  const SeedBase: nat := 15445

  /** The hash family of a sketch: the item hash and the hash combiner it is built from. */
  datatype RowHash<-K> = RowHash(itemHash: K -> nat, combine: (nat, nat) -> nat)

  /** A counter matrix, row by row. */
  type Matrix = seq<seq<nat>>

  /** The column that row `row` bumps for `item`: the item hash combined with the row's seed, reduced mod width. */
  function Column<K>(h: RowHash<K>, width: nat, row: nat, item: K): (c: nat)
    requires width > 0
    ensures c < width
  {
    h.combine(h.itemHash(item), h.combine(row, SeedBase)) % width
  }

  /** The columns an item bumps, one per row. */
  function Columns<K>(h: RowHash<K>, width: nat, depth: nat, item: K): (cols: seq<nat>)
    requires width > 0
    ensures |cols| == depth
    ensures forall r :: 0 <= r < depth ==> cols[r] == Column(h, width, r, item) && cols[r] < width
  {
    seq(depth, r requires 0 <= r => Column(h, width, r, item))
  }

  /** m has depth rows of width counters. */
  ghost predicate Shaped(m: Matrix, depth: nat, width: nat)
  {
    |m| == depth && forall r :: 0 <= r < depth ==> |m[r]| == width
  }

  /** cols picks one column of each row of m. */
  ghost predicate Picks(m: Matrix, cols: seq<nat>)
  {
    |cols| == |m| && forall r :: 0 <= r < |m| ==> cols[r] < |m[r]|
  }

  /** A matrix of zero counters. */
  function Zero(depth: nat, width: nat): (m: Matrix)
    ensures Shaped(m, depth, width)
    ensures forall r, c :: 0 <= r < depth && 0 <= c < width ==> m[r][c] == 0
  {
    seq(depth, _ => seq(width, _ => 0))
  }

  /** One insertion: each row's picked counter goes up by one. */
  function Bump(m: Matrix, cols: seq<nat>): (m': Matrix)
    requires Picks(m, cols)
    ensures |m'| == |m| && forall r :: 0 <= r < |m| ==> |m'[r]| == |m[r]|
    ensures forall r, c :: 0 <= r < |m| && 0 <= c < |m[r]| ==>
              m'[r][c] == m[r][c] + (if c == cols[r] then 1 else 0)
  {
    seq(|m|, r requires 0 <= r < |m| => m[r][cols[r] := m[r][cols[r]] + 1])
  }

  /** Cell-by-cell sum of two matrices of the same shape. */
  function Sum(a: Matrix, b: Matrix): (s: Matrix)
    requires |a| == |b| && forall r :: 0 <= r < |a| ==> |a[r]| == |b[r]|
    ensures |s| == |a| && forall r :: 0 <= r < |a| ==> |s[r]| == |a[r]|
    ensures forall r, c :: 0 <= r < |a| && 0 <= c < |a[r]| ==> s[r][c] == a[r][c] + b[r][c]
  {
    seq(|a|, r requires 0 <= r < |a| => seq(|a[r]|, c requires 0 <= c < |a[r]| => a[r][c] + b[r][c]))
  }

  function Min(x: nat, y: nat): nat
  {
    if x <= y then x else y
  }

  /** The least picked counter among the first n rows, taken in row order. */
  function RowMin(m: Matrix, cols: seq<nat>, n: nat): nat
    requires Picks(m, cols) && 1 <= n <= |m|
  {
    if n == 1 then m[0][cols[0]] else Min(RowMin(m, cols, n - 1), m[n - 1][cols[n - 1]])
  }

  /** The row minimum is a lower bound of the picked counters and is one of them. */
  lemma {:induction false} RowMinIsMin(m: Matrix, cols: seq<nat>, n: nat)
    requires Picks(m, cols) && 1 <= n <= |m|
    ensures forall r :: 0 <= r < n ==> RowMin(m, cols, n) <= m[r][cols[r]]
    ensures exists r :: 0 <= r < n && RowMin(m, cols, n) == m[r][cols[r]]
  {
    if n == 1 {
      assert RowMin(m, cols, n) == m[0][cols[0]];
    } else {
      RowMinIsMin(m, cols, n - 1);
      var r :| 0 <= r < n - 1 && RowMin(m, cols, n - 1) == m[r][cols[r]];
      var last := m[n - 1][cols[n - 1]];
      assert RowMin(m, cols, n) == Min(RowMin(m, cols, n - 1), last);
      if RowMin(m, cols, n) == last {
        assert 0 <= n - 1 < n && RowMin(m, cols, n) == m[n - 1][cols[n - 1]];
      } else {
        assert 0 <= r < n && RowMin(m, cols, n) == m[r][cols[r]];
      }
    }
  }

  /** The frequency estimate: the least of the item's counters over all rows. */
  function Estimate(m: Matrix, cols: seq<nat>): nat
    requires Picks(m, cols) && |m| >= 1
  {
    RowMin(m, cols, |m|)
  }

  /** An insertion raises the item's own row minimum by exactly one. */
  lemma {:induction false} RowMinBumpOwn(m: Matrix, cols: seq<nat>, n: nat)
    requires Picks(m, cols) && 1 <= n <= |m|
    ensures RowMin(Bump(m, cols), cols, n) == RowMin(m, cols, n) + 1
  {
    var m' := Bump(m, cols);
    assert m'[n - 1][cols[n - 1]] == m[n - 1][cols[n - 1]] + 1;
    if n > 1 {
      RowMinBumpOwn(m, cols, n - 1);
      assert RowMin(m', cols, n) == Min(RowMin(m', cols, n - 1), m'[n - 1][cols[n - 1]]);
      assert RowMin(m, cols, n) == Min(RowMin(m, cols, n - 1), m[n - 1][cols[n - 1]]);
    }
  }

  /** An insertion never lowers the row minimum of any item. */
  lemma {:induction false} RowMinBumpOther(m: Matrix, cols: seq<nat>, other: seq<nat>, n: nat)
    requires Picks(m, cols) && Picks(m, other) && 1 <= n <= |m|
    ensures RowMin(Bump(m, cols), other, n) >= RowMin(m, other, n)
  {
    var m' := Bump(m, cols);
    assert m'[n - 1][other[n - 1]] >= m[n - 1][other[n - 1]];
    if n > 1 {
      RowMinBumpOther(m, cols, other, n - 1);
      assert RowMin(m', other, n) == Min(RowMin(m', other, n - 1), m'[n - 1][other[n - 1]]);
      assert RowMin(m, other, n) == Min(RowMin(m, other, n - 1), m[n - 1][other[n - 1]]);
    }
  }

  /** After Insert(x), Count(x) is one more than before and Count(y) has not decreased. */
  lemma EstimateBump(m: Matrix, cols: seq<nat>, other: seq<nat>)
    requires Picks(m, cols) && Picks(m, other) && |m| >= 1
    ensures Estimate(Bump(m, cols), cols) == Estimate(m, cols) + 1
    ensures Estimate(Bump(m, cols), other) >= Estimate(m, other)
  {
    RowMinBumpOwn(m, cols, |m|);
    RowMinBumpOther(m, cols, other, |m|);
  }

  /** A cleared sketch estimates every item at 0. */
  lemma EstimateZero(depth: nat, width: nat, cols: seq<nat>)
    requires depth >= 1 && |cols| == depth && forall r :: 0 <= r < depth ==> cols[r] < width
    ensures Estimate(Zero(depth, width), cols) == 0
  {
    var m := Zero(depth, width);
    RowMinIsMin(m, cols, depth);
    var r :| 0 <= r < |m| && Estimate(m, cols) == m[r][cols[r]];
  }

  /** The merged sketch estimates an item at least at the sum of the two estimates. */
  lemma {:induction false} RowMinSum(a: Matrix, b: Matrix, cols: seq<nat>, n: nat)
    requires |a| == |b| && forall r :: 0 <= r < |a| ==> |a[r]| == |b[r]|
    requires Picks(a, cols) && 1 <= n <= |a|
    ensures RowMin(Sum(a, b), cols, n) >= RowMin(a, cols, n) + RowMin(b, cols, n)
  {
    if n > 1 {
      RowMinSum(a, b, cols, n - 1);
    }
  }

  lemma EstimateSum(a: Matrix, b: Matrix, cols: seq<nat>)
    requires |a| == |b| && forall r :: 0 <= r < |a| ==> |a[r]| == |b[r]|
    requires Picks(a, cols) && |a| >= 1
    ensures Estimate(Sum(a, b), cols) >= Estimate(a, cols) + Estimate(b, cols)
  {
    RowMinSum(a, b, cols, |a|);
  }

  /** The matrix after inserting every item of items, in order, into m. */
  function InsertAll<K>(h: RowHash<K>, m: Matrix, width: nat, items: seq<K>): (m': Matrix)
    requires width > 0 && Shaped(m, |m|, width)
    ensures Shaped(m', |m|, width)
    decreases |items|
  {
    if items == [] then m
    else InsertAll(h, Bump(m, Columns(h, width, |m|, items[0])), width, items[1..])
  }

  /** One insertion adds one to the estimate of the inserted item's columns and lowers no estimate. */
  lemma BumpEstimate(m: Matrix, c0: seq<nat>, cx: seq<nat>)
    requires Picks(m, c0) && Picks(m, cx) && |m| >= 1
    ensures Estimate(Bump(m, c0), cx) >= Estimate(m, cx) + (if c0 == cx then 1 else 0)
  {
    if c0 == cx {
      RowMinBumpOwn(m, cx, |m|);
    } else {
      RowMinBumpOther(m, c0, cx, |m|);
    }
  }

  /** Unfolds InsertAll once. */
  lemma InsertAllFirst<K>(h: RowHash<K>, m: Matrix, width: nat, items: seq<K>)
    requires width > 0 && Shaped(m, |m|, width) && items != []
    ensures var m1 := Bump(m, Columns(h, width, |m|, items[0]));
            Shaped(m1, |m|, width) && InsertAll(h, m, width, items) == InsertAll(h, m1, width, items[1..])
  {
  }

  /** Count never underestimates: an item inserted c times since the last Clear is estimated at least c. */
  lemma {:induction false} NeverUnderestimates<K>(h: RowHash<K>, m: Matrix, width: nat, items: seq<K>, x: K)
    requires width > 0 && |m| >= 1 && Shaped(m, |m|, width)
    ensures Estimate(InsertAll(h, m, width, items), Columns(h, width, |m|, x))
              >= Estimate(m, Columns(h, width, |m|, x)) + multiset(items)[x]
    decreases |items|
  {
    if items != [] {
      var cx := Columns(h, width, |m|, x);
      var c0 := Columns(h, width, |m|, items[0]);
      InsertAllFirst(h, m, width, items);
      var m1 := Bump(m, c0);
      NeverUnderestimates(h, m1, width, items[1..], x);
      BumpEstimate(m, c0, cx);
      assert items[0] == x ==> c0 == cx;
      assert items == [items[0]] + items[1..];
      assert multiset(items)[x] == multiset(items[1..])[x] + (if items[0] == x then 1 else 0);
    }
  }
}
