/**
 * Sequences of identifiers standing in for std::list: index 0 is the front
 * (most recently touched), the last index is the back (next victim).
 */
module Seqs {

  /** No identifier occurs twice in the list. */
  predicate NoDup(s: seq<int>)
  {
    forall i, j :: 0 <= i < j < |s| ==> s[i] != s[j]
  }

  /** The set of identifiers held by the list. */
  function Elems(s: seq<int>): set<int>
  {
    set x | x in s
  }

  /** The list with the element x erased (std::list::erase at x's position). */
  function Without(s: seq<int>, x: int): (r: seq<int>)
    ensures forall y :: y in r <==> y in s && y != x
    ensures |r| <= |s|
    ensures x !in s ==> r == s
  {
    if s == [] then []
    else if s[0] == x then Without(s[1..], x)
    else [s[0]] + Without(s[1..], x)
  }

  /** r is s with the x at one of its positions erased; the elements before and after it keep their order. */
  ghost predicate Erased(r: seq<int>, s: seq<int>, x: int)
  {
    exists k :: 0 <= k < |s| && s[k] == x && r == s[..k] + s[k + 1..]
  }

  /** In a duplicate-free list, erasing x splices it out at its position. */
  lemma {:induction false} WithoutAt(s: seq<int>, x: int, k: nat)
    requires NoDup(s) && k < |s| && s[k] == x
    ensures Without(s, x) == s[..k] + s[k + 1..]
  {
    NoDupCons(s[0], s[1..]);
    assert s == [s[0]] + s[1..];
    if k == 0 {
      assert x !in s[1..];
    } else {
      WithoutAt(s[1..], x, k - 1);
      assert s[..k] + s[k + 1..] == [s[0]] + (s[1..][..k - 1] + s[1..][k..]);
    }
  }

  /** Erasing a present element of a duplicate-free list keeps the others in order. */
  lemma WithoutErased(s: seq<int>, x: int)
    requires NoDup(s) && x in s
    ensures Erased(Without(s, x), s, x)
  {
    var k :| 0 <= k < |s| && s[k] == x;
    WithoutAt(s, x, k);
  }

  /** The list with its back element removed (std::list::pop_back). */
  function DropLast(s: seq<int>): (r: seq<int>)
    requires s != []
    ensures |r| == |s| - 1
    ensures forall i :: 0 <= i < |r| ==> r[i] == s[i]
  {
    s[..|s| - 1]
  }

  /** Consing onto a list keeps it duplicate-free exactly when the new head is fresh. */
  lemma NoDupCons(x: int, s: seq<int>)
    ensures NoDup([x] + s) <==> x !in s && NoDup(s)
  {
    var t := [x] + s;
    if x !in s && NoDup(s) {
      forall i, j | 0 <= i < j < |t| ensures t[i] != t[j] {
        if i == 0 {
          assert t[j] == s[j - 1];
        } else {
          assert t[i] == s[i - 1] && t[j] == s[j - 1];
        }
      }
    }
    if NoDup(t) {
      forall i, j | 0 <= i < j < |s| ensures s[i] != s[j] {
        assert s[i] == t[i + 1] && s[j] == t[j + 1];
      }
      forall k | 0 <= k < |s| ensures s[k] != x {
        assert s[k] == t[k + 1] && x == t[0];
      }
    }
  }

  /** Erasing keeps a list duplicate-free and removes exactly one element when present. */
  lemma {:induction false} WithoutNoDup(s: seq<int>, x: int)
    requires NoDup(s)
    ensures NoDup(Without(s, x))
    ensures x in s ==> |Without(s, x)| == |s| - 1
    ensures x !in s ==> Without(s, x) == s
  {
    if s != [] {
      NoDupCons(s[0], s[1..]);
      assert s == [s[0]] + s[1..];
      WithoutNoDup(s[1..], x);
      if s[0] != x {
        NoDupCons(s[0], Without(s[1..], x));
      }
    }
  }

  /** Popping the back of a duplicate-free list removes exactly the back element. */
  lemma DropLastElems(s: seq<int>)
    requires s != [] && NoDup(s)
    ensures NoDup(DropLast(s))
    ensures forall y :: y in DropLast(s) <==> y in s && y != s[|s| - 1]
  {
    var r := DropLast(s);
    forall y ensures y in r <==> y in s && y != s[|s| - 1] {
      if y in r {
        var k :| 0 <= k < |r| && r[k] == y;
        assert s[k] == y;
      }
      if y in s && y != s[|s| - 1] {
        var k :| 0 <= k < |s| && s[k] == y;
        assert r[k] == y;
      }
    }
  }

  /** A duplicate-free list has as many distinct elements as it is long. */
  lemma {:induction false} NoDupCard(s: seq<int>)
    requires NoDup(s)
    ensures |Elems(s)| == |s|
  {
    if s != [] {
      NoDupCons(s[0], s[1..]);
      assert s == [s[0]] + s[1..];
      NoDupCard(s[1..]);
      assert Elems(s) == {s[0]} + Elems(s[1..]);
    }
  }
}
