/**
 * The bounded min-heap behind CountMinSketch::TopK, modelled by the order in
 * which it pops its entries: an ascending sequence of (item, count) pairs.
 * Pushing inserts by count, popping removes the front.
 */
module TopKSpec {

  /** Counts never decrease from front to back: the heap's pop order. */
  ghost predicate Ascending<K>(s: seq<(K, nat)>)
  {
    forall i, j :: 0 <= i < j < |s| ==> s[i].1 <= s[j].1
  }

  /** Counts never increase from front to back: the order TopK returns. */
  ghost predicate Descending<K>(s: seq<(K, nat)>)
  {
    forall i, j :: 0 <= i < j < |s| ==> s[i].1 >= s[j].1
  }

  /** Every dropped entry counts no more than every kept one. */
  ghost predicate Dominates<K>(kept: seq<(K, nat)>, dropped: seq<(K, nat)>)
  {
    forall a, b :: a in dropped && b in kept ==> a.1 <= b.1
  }

  /** Where a push puts e: after the leading entries whose counts are smaller than its own. */
  function InsertPos<K>(s: seq<(K, nat)>, e: (K, nat)): (pos: nat)
    ensures pos <= |s|
    ensures forall j :: 0 <= j < pos ==> s[j].1 < e.1
    ensures pos < |s| ==> e.1 <= s[pos].1
  {
    if s == [] || e.1 <= s[0].1 then 0 else 1 + InsertPos(s[1..], e)
  }

  /** Splicing e in adds exactly e. */
  lemma SpliceContents<K>(s: seq<(K, nat)>, e: (K, nat), pos: nat)
    requires pos <= |s|
    ensures multiset(s[..pos] + [e] + s[pos..]) == multiset(s) + multiset{e}
  {
    assert s == s[..pos] + s[pos..];
  }

  /** Splicing e in at a position that fits the order keeps the order and adds exactly e. */
  lemma SpliceFits<K>(s: seq<(K, nat)>, e: (K, nat), pos: nat)
    requires Ascending(s) && pos <= |s|
    requires forall j :: 0 <= j < pos ==> s[j].1 < e.1
    requires pos < |s| ==> e.1 <= s[pos].1
    ensures var r := s[..pos] + [e] + s[pos..];
            Ascending(r) && multiset(r) == multiset(s) + multiset{e}
  {
    var r := s[..pos] + [e] + s[pos..];
    SpliceContents(s, e, pos);
    forall i, j | 0 <= i < j < |r|
      ensures r[i].1 <= r[j].1
    {
      var ri := if i < pos then s[i] else if i == pos then e else s[i - 1];
      var rj := if j < pos then s[j] else if j == pos then e else s[j - 1];
      assert r[i] == ri && r[j] == rj;
      if i == pos {
        assert e.1 <= s[pos].1;
      }
    }
  }

  /** The front of the spliced sequence is e, followed by s, or it is the front of s. */
  lemma SpliceFront<K>(s: seq<(K, nat)>, e: (K, nat), pos: nat)
    requires pos <= |s|
    ensures var r := s[..pos] + [e] + s[pos..];
            (forall i :: 0 <= i < |r| ==> r[i] in s || r[i] == e) &&
            ((r[0] == e && r[1..] == s) || (s != [] && r[0] == s[0]))
  {
    var r := s[..pos] + [e] + s[pos..];
    assert forall i :: 0 <= i < |r| ==> r[i] == (if i < pos then s[i] else if i == pos then e else s[i - 1]);
    assert pos == 0 ==> r[1..] == s;
  }

  /** A push onto the min-heap: e goes before the first entry whose count is at least its own. */
  function InsertAsc<K>(s: seq<(K, nat)>, e: (K, nat)): (r: seq<(K, nat)>)
    requires Ascending(s)
    ensures |r| == |s| + 1
    ensures Ascending(r)
    ensures multiset(r) == multiset(s) + multiset{e}
    ensures forall i :: 0 <= i < |r| ==> r[i] in s || r[i] == e
    ensures (r[0] == e && r[1..] == s) || (s != [] && r[0] == s[0])
  {
    var pos := InsertPos(s, e);
    SpliceFits(s, e, pos);
    SpliceFront(s, e, pos);
    s[..pos] + [e] + s[pos..]
  }

  /** The sequence back to front (std::reverse). */
  function Reversed<T>(s: seq<T>): (r: seq<T>)
    ensures |r| == |s|
    ensures forall i :: 0 <= i < |s| ==> r[i] == s[|s| - 1 - i]
  {
    if s == [] then [] else Reversed(s[1..]) + [s[0]]
  }

  /** Reversal keeps the entries and turns the pop order into a non-increasing one. */
  lemma {:induction false} ReversedDescending<K>(s: seq<(K, nat)>)
    requires Ascending(s)
    ensures Descending(Reversed(s))
    ensures multiset(Reversed(s)) == multiset(s)
  {
    if s != [] {
      var r := Reversed(s);
      assert Ascending(s[1..]) by {
        forall i, j | 0 <= i < j < |s[1..]|
          ensures s[1..][i].1 <= s[1..][j].1
        {
          assert s[1..][i] == s[i + 1] && s[1..][j] == s[j + 1];
        }
      }
      ReversedDescending(s[1..]);
      assert r == Reversed(s[1..]) + [s[0]];
      forall i, j | 0 <= i < j < |r|
        ensures r[i].1 >= r[j].1
      {
        assert r[i] == s[|s| - 1 - i] && r[j] == s[|s| - 1 - j];
      }
      assert s == [s[0]] + s[1..];
    }
  }

  /**
   * Pushing e and then popping the least entry keeps every dropped entry at or
   * below every kept one. pushed is the heap after the push, as InsertAsc
   * describes it.
   */
  lemma PushPopDominates<K>(heap: seq<(K, nat)>, dropped: seq<(K, nat)>, e: (K, nat), pushed: seq<(K, nat)>)
    requires Ascending(heap) && Dominates(heap, dropped)
    requires Ascending(pushed) && |pushed| == |heap| + 1
    requires forall i :: 0 <= i < |pushed| ==> pushed[i] in heap || pushed[i] == e
    requires (pushed[0] == e && pushed[1..] == heap) || (heap != [] && pushed[0] == heap[0])
    ensures Dominates(pushed[1..], dropped + [pushed[0]])
  {
    forall a, b | a in dropped + [pushed[0]] && b in pushed[1..]
      ensures a.1 <= b.1
    {
      var j :| 0 <= j < |pushed[1..]| && pushed[1..][j] == b;
      assert pushed[j + 1] == b;
      assert pushed[0].1 <= b.1;
      if a in dropped && pushed[1..] != heap {
        // The popped entry is the old heap's least, which bounds every dropped entry.
        assert pushed[0] == heap[0];
      }
    }
  }

  /** Popping the front keeps the rest in pop order and moves the front to the dropped entries. */
  lemma PopFront<K>(pushed: seq<(K, nat)>, dropped: seq<(K, nat)>)
    requires Ascending(pushed) && pushed != []
    ensures Ascending(pushed[1..])
    ensures multiset(pushed[1..]) + multiset(dropped + [pushed[0]]) == multiset(pushed) + multiset(dropped)
  {
    assert pushed == [pushed[0]] + pushed[1..];
    forall i, j | 0 <= i < j < |pushed[1..]|
      ensures pushed[1..][i].1 <= pushed[1..][j].1
    {
      assert pushed[1..][i] == pushed[i + 1] && pushed[1..][j] == pushed[j + 1];
    }
  }

  /** One candidate offered to a heap bounded by k: push it, then pop the least entry if the heap outgrew k. */
  function Offer<K>(heap: seq<(K, nat)>, e: (K, nat), k: nat): (h: seq<(K, nat)>)
    requires Ascending(heap)
  {
    var pushed := InsertAsc(heap, e);
    if |pushed| > k then pushed[1..] else pushed
  }

  /**
   * Offering keeps the heap in pop order, at most k long, and at or above
   * every entry dropped so far; dropped' is what has been popped after it.
   */
  lemma OfferKeeps<K>(heap: seq<(K, nat)>, dropped: seq<(K, nat)>, e: (K, nat), k: nat)
    returns (dropped': seq<(K, nat)>)
    requires Ascending(heap) && Dominates(heap, dropped)
    requires |heap| <= k && (|heap| < k ==> dropped == [])
    ensures var h := Offer(heap, e, k);
            Ascending(h) && Dominates(h, dropped') &&
            multiset(h) + multiset(dropped') == multiset(heap) + multiset(dropped) + multiset{e} &&
            |h| == (if |heap| < k then |heap| + 1 else k) &&
            (|h| < k ==> dropped' == [])
  {
    var pushed := InsertAsc(heap, e);
    if |pushed| > k {
      PushPopDominates(heap, dropped, e, pushed);
      PopFront(pushed, dropped);
      dropped' := dropped + [pushed[0]];
    } else {
      dropped' := dropped;
    }
  }

  /**
   * The state of TopK's first loop after offering the entries of scored: the
   * heap holds min(k, |scored|) of them in pop order, the rest were dropped,
   * and nothing dropped counts more than anything kept.
   */
  ghost predicate Filling<K>(heap: seq<(K, nat)>, dropped: seq<(K, nat)>, scored: seq<(K, nat)>, k: nat)
  {
    |heap| == (if k < |scored| then k else |scored|) &&
    (|heap| < k ==> dropped == []) &&
    Ascending(heap) && Dominates(heap, dropped) &&
    multiset(heap) + multiset(dropped) == multiset(scored)
  }

  /** Offering one more entry keeps the loop's state; dropped' is what has been dropped after it. */
  lemma FillingStep<K>(heap: seq<(K, nat)>, dropped: seq<(K, nat)>, scored: seq<(K, nat)>, e: (K, nat), k: nat)
    returns (dropped': seq<(K, nat)>)
    requires Filling(heap, dropped, scored, k)
    ensures Filling(Offer(heap, e, k), dropped', scored + [e], k)
  {
    dropped' := OfferKeeps(heap, dropped, e, k);
  }

  /** What is left of all once the kept entries are taken out is exactly what was dropped. */
  lemma LeftOut<K>(kept: multiset<(K, nat)>, dropped: multiset<(K, nat)>, all: multiset<(K, nat)>)
    requires kept + dropped == all
    ensures kept <= all && all - kept == dropped
  {
  }

  /**
   * Draining the heap and reversing it gives the kept entries largest first:
   * drawn from all, and at or above every entry left out.
   */
  lemma Drained<K>(heap: seq<(K, nat)>, dropped: seq<(K, nat)>, all: seq<(K, nat)>)
    requires Ascending(heap) && Dominates(heap, dropped)
    requires multiset(heap) + multiset(dropped) == multiset(all)
    ensures var res := Reversed(heap);
            Descending(res) && multiset(res) <= multiset(all) &&
            forall a, b :: a in multiset(all) - multiset(res) && b in res ==> a.1 <= b.1
  {
    var res := Reversed(heap);
    ReversedDescending(heap);
    LeftOut(multiset(heap), multiset(dropped), multiset(all));
    forall a, b | a in multiset(all) - multiset(res) && b in res
      ensures a.1 <= b.1
    {
      assert a in dropped;
      assert b in multiset(heap);
    }
  }

  /**
   * The push-then-maybe-pop statements of TopK's first loop, as the object code
   * runs them (a push, then a pop when the heap outgrew k). Offer is the
   * function that specifies them, and the lemmas about the heap are stated on
   * Offer; this method is its imperative counterpart, proved equal to it.
   */
  method PushBounded<K>(heap: seq<(K, nat)>, e: (K, nat), k: nat) returns (h: seq<(K, nat)>)
    requires Ascending(heap)
    ensures h == Offer(heap, e, k)
  {
    h := InsertAsc(heap, e);
    if |h| > k {
      h := h[1..];
    }
  }

  /** TopK's second loop and the reversal: pop every entry in turn, then reverse what was popped. */
  method DrainReversed<K>(heap: seq<(K, nat)>) returns (res: seq<(K, nat)>)
    ensures res == Reversed(heap)
  {
    var rest := heap;
    var popped: seq<(K, nat)> := [];
    while rest != []
      invariant popped + rest == heap
    {
      popped := popped + [rest[0]];
      rest := rest[1..];
    }
    assert popped == heap;
    res := Reversed(popped);
  }
}
