/**
 The pivot heap of the compressed pivot search: the candidate pivots reachable
 at a point of the search, kept as a min-heap. A heap read back in order is a
 non-decreasing sequence; that sequence is the model. A heap that has not been
 created yet (Java null) is None.
 */
module PivotHeap {
  import opened Basics

  /** A live heap is never empty (the source asserts this after every union). */
  predicate HeapOk(heap: Option<seq<int>>)
  {
    heap.Some? ==> |heap.value| > 0 && Ascending(heap.value)
  }

  /** The candidate pivots a heap stands for; a missing heap stands for pivot 0 (nothing emitted yet). */
  function Candidates(heap: Option<seq<int>>): set<int>
  {
    match heap
    case None => {0}
    case Some(h) => Elems(h)
  }

  /** Every way of extending a candidate with an emitted item: the pivots after the step. */
  function MaxSet(current: set<int>, add: set<int>): set<int>
  {
    set c, a | c in current && a in add :: Max(c, a)
  }

  lemma AscendingHead(h: seq<int>, x: int)
    requires Ascending(h) && x in h
    ensures h[0] <= x
  {
    var i :| 0 <= i < |h| && h[i] == x;
    assert i == 0 || h[0] <= h[i];
  }

  /** dequeueInt while the head is below `a`: the suffix of the elements that are at least `a`. */
  function DropBelow(h: seq<int>, a: int): (r: seq<int>)
    requires Ascending(h)
    ensures Ascending(r)
    ensures |r| <= |h| && r == h[|h| - |r|..]
    ensures forall i | 0 <= i < |h| - |r| :: h[i] < a
    ensures forall x | x in r :: x >= a
  {
    if |h| > 0 && h[0] < a then
      DropBelow(h[1..], a)
    else
      assert forall x | x in h :: x >= a by {
        forall x | x in h ensures x >= a {
          AscendingHead(h, x);
        }
      }
      h
  }

  /** DropBelow keeps exactly the elements that are at least `a`. */
  lemma DropBelowMembers(h: seq<int>, a: int, x: int)
    requires Ascending(h)
    ensures x in DropBelow(h, a) <==> x in h && x >= a
  {
    var r := DropBelow(h, a);
    var k := |h| - |r|;
    if x in h && x >= a {
      var i :| 0 <= i < |h| && h[i] == x;
      assert i >= k;
      assert r[i - k] == x;
    }
  }

  /** enqueue: inserts an item, keeping the order. */
  function Enqueue(h: seq<int>, x: int): (r: seq<int>)
    requires Ascending(h)
    ensures Ascending(r)
    ensures forall y :: y in r <==> y in h || y == x
    ensures |r| == |h| + 1
  {
    if |h| == 0 || x <= h[0] then
      assert forall y | y in h :: x <= y by {
        forall y | y in h ensures x <= y {
          AscendingHead(h, y);
        }
      }
      [x] + h
    else
      var t := Enqueue(h[1..], x);
      assert h == [h[0]] + h[1..];
      assert forall y | y in t :: h[0] <= y by {
        forall y | y in t ensures h[0] <= y {
          if y in h[1..] {
            AscendingHead(h, y);
          }
        }
      }
      assert forall i | 0 <= i < |t| :: t[i] in t;
      [h[0]] + t
  }

  /** Enqueues the items one after another. */
  function EnqueueAll(h: seq<int>, xs: seq<int>): (r: seq<int>)
    requires Ascending(h)
    ensures Ascending(r)
    ensures forall y :: y in r <==> y in h || y in xs
    decreases |xs|
  {
    if |xs| == 0 then h
    else
      assert xs == [xs[0]] + xs[1..];
      EnqueueAll(Enqueue(h, xs[0]), xs[1..])
  }

  /** The items of `s` in the closed range [lo, hi], in order: headSet(hi + 1).tailSet(lo). */
  function Between(s: seq<int>, lo: int, hi: int): (r: seq<int>)
    ensures forall y :: y in r <==> y in s && lo <= y <= hi
    decreases |s|
  {
    if |s| == 0 then []
    else
      assert s == [s[0]] + s[1..];
      var t := Between(s[1..], lo, hi);
      if lo <= s[0] <= hi then [s[0]] + t else t
  }

  /**
   Union of the heap with one emitted item `a` (CONSTANT or SELF label):
   current[>= a] plus `a` itself when a >= min(current) and `a` is not already
   the new head. A missing heap becomes the one-item heap [a].
   */
  function UnionItem(current: Option<seq<int>>, a: int): (r: seq<int>)
    requires HeapOk(current)
    ensures Ascending(r) && |r| > 0
    ensures current.None? ==> r == [a]
    ensures current.Some? ==> forall x ::
              x in r <==> (x in current.value && x >= a) || (x == a && a >= current.value[0])
    ensures current.Some? && StrictlyAscending(current.value) ==> StrictlyAscending(r)
  {
    match current
    case None => [a]
    case Some(c) => UnionItemInto(c, a)
  }

  function UnionItemInto(c: seq<int>, a: int): (r: seq<int>)
    requires |c| > 0 && Ascending(c)
    ensures Ascending(r) && |r| > 0
    ensures forall x :: x in r <==> (x in c && x >= a) || (x == a && a >= c[0])
    ensures StrictlyAscending(c) ==> StrictlyAscending(r)
  {
    var n := DropBelow(c, a);
    DropBelowAllMembers(c, a);
    if a >= c[0] && (|n| == 0 || a != n[0]) then
      PrependedItem(c, a);
      [a] + n
    else
      KeptSuffix(c, a);
      DropBelowStrict(c, a);
      n
  }

  /** `a` enters the heap in front of the kept suffix when it is not already its head. */
  lemma PrependedItem(c: seq<int>, a: int)
    requires |c| > 0 && Ascending(c)
    requires |DropBelow(c, a)| == 0 || a != DropBelow(c, a)[0]
    ensures Ascending([a] + DropBelow(c, a))
    ensures StrictlyAscending(c) ==> StrictlyAscending([a] + DropBelow(c, a))
  {
    var n := DropBelow(c, a);
    DropBelowAllMembers(c, a);
    assert |n| == 0 || n[0] in n;
    PrependBelow(c, n, a);
  }

  /** Otherwise the kept suffix is not empty: `a` is its head already, or `a` lies below every candidate. */
  lemma KeptSuffix(c: seq<int>, a: int)
    requires |c| > 0 && Ascending(c)
    requires !(a >= c[0] && (|DropBelow(c, a)| == 0 || a != DropBelow(c, a)[0]))
    ensures |DropBelow(c, a)| > 0
  {
    if a < c[0] {
      DropBelowMembers(c, a, c[0]);
    }
  }

  lemma DropBelowStrict(c: seq<int>, a: int)
    requires Ascending(c)
    ensures StrictlyAscending(c) ==> StrictlyAscending(DropBelow(c, a))
  {
    if StrictlyAscending(c) {
      SuffixStrict(c, |c| - |DropBelow(c, a)|);
    }
  }

  lemma SuffixStrict(c: seq<int>, k: int)
    requires StrictlyAscending(c) && 0 <= k <= |c|
    ensures StrictlyAscending(c[k..])
  {
    var t := c[k..];
    forall i, j | 0 <= i < j < |t| ensures t[i] < t[j] {
      assert t[i] == c[k + i] && t[j] == c[k + j];
    }
  }

  lemma DropBelowAllMembers(h: seq<int>, a: int)
    requires Ascending(h)
    ensures forall x :: x in DropBelow(h, a) <==> x in h && x >= a
  {
    forall x ensures x in DropBelow(h, a) <==> x in h && x >= a {
      DropBelowMembers(h, a, x);
    }
  }

  /** Putting `a` in front of the kept suffix `n` keeps the order (strict when `c` is strict). */
  lemma PrependBelow(c: seq<int>, n: seq<int>, a: int)
    requires Ascending(c) && |n| <= |c| && n == c[|c| - |n|..]
    requires forall x | x in n :: x >= a
    requires |n| == 0 || a != n[0]
    ensures Ascending([a] + n)
    ensures StrictlyAscending(c) ==> StrictlyAscending([a] + n)
  {
    var r := [a] + n;
    assert forall j | 0 < j < |r| :: r[j] == n[j - 1] && n[j - 1] in n;
    if StrictlyAscending(c) {
      assert |n| == 0 || n[0] in n;
      PrependStrict(c, n, a);
    }
  }

  lemma PrependStrict(c: seq<int>, n: seq<int>, a: int)
    requires StrictlyAscending(c) && |n| <= |c| && n == c[|c| - |n|..]
    requires |n| == 0 || a < n[0]
    ensures StrictlyAscending([a] + n)
  {
    var r := [a] + n;
    var k := |c| - |n|;
    forall i, j | 0 <= i < j < |r| ensures r[i] < r[j] {
      if i == 0 {
        assert n[0] == c[k] && r[j] == c[k + j - 1];
      } else {
        assert r[i] == c[k + i - 1] && r[j] == c[k + j - 1];
      }
    }
  }

  /**
   Union of the heap with the ascendant set of a SELF_GENERALIZE label, keeping
   only frequent ascendants (ids at most `lff`): current[>= min(asc)] plus
   asc[<= lff][>= min(current)]. A missing heap becomes asc[<= lff].
   */
  function UnionAscendants(current: Option<seq<int>>, asc: seq<int>, lff: int): (r: seq<int>)
    requires HeapOk(current)
    requires |asc| > 0 && StrictlyAscending(asc) && asc[0] <= lff
    ensures Ascending(r) && |r| > 0
    ensures current.None? ==> forall x :: x in r <==> x in asc && x <= lff
    ensures current.Some? ==> forall x ::
              x in r <==> (x in current.value && x >= asc[0]) || (x in asc && current.value[0] <= x <= lff)
  {
    match current
    case None =>
      var r := EnqueueAll([], Between(asc, asc[0], lff));
      assert forall x | x in asc :: asc[0] <= x by {
        forall x | x in asc ensures asc[0] <= x {
          var i :| 0 <= i < |asc| && asc[i] == x;
          assert i == 0 || asc[0] < asc[i];
        }
      }
      assert asc[0] in r;
      r
    case Some(c) =>
      var n := DropBelow(c, asc[0]);
      DropBelowAllMembers(c, asc[0]);
      var r := EnqueueAll(n, Between(asc, c[0], lff));
      assert |r| > 0 by {
        if asc[0] <= c[0] {
          assert c[0] in r;
        } else {
          assert asc[0] in r;
        }
      }
      r
  }

  // -- the union rule ------------------------------------------------------------------------------------------------

  /**
   The heap-union rule: with minima mc of `current` and ma of `add`, the pivots
   reachable by extending a candidate with an added item are exactly
   current[>= ma] plus add[>= mc].
   */
  lemma UnionRule(current: set<int>, add: set<int>, mc: int, ma: int, x: int)
    requires mc in current && forall c | c in current :: mc <= c
    requires ma in add && forall a | a in add :: ma <= a
    ensures x in MaxSet(current, add) <==> (x in current && x >= ma) || (x in add && x >= mc)
  {
    if x in MaxSet(current, add) {
      var c, a :| c in current && a in add && x == Max(c, a);
      if c >= a {
        assert c >= ma;
      } else {
        assert a >= mc;
      }
    }
    if x in current && x >= ma {
      assert x == Max(x, ma);
    } else if x in add && x >= mc {
      assert x == Max(mc, x);
    }
  }

  /** The heap after a CONSTANT or SELF step holds exactly max(candidate, a) for every candidate. */
  lemma UnionItemMeaning(current: Option<seq<int>>, a: int)
    requires HeapOk(current) && a > 0
    ensures Candidates(Some(UnionItem(current, a))) == MaxSet(Candidates(current), {a})
  {
    match current
    case None =>
      assert Max(0, a) == a;
      assert Elems([a]) == {a};
    case Some(c) =>
      forall x ensures x in Elems(UnionItemInto(c, a)) <==> x in MaxSet(Elems(c), {a}) {
        UnionItemPoint(c, a, x);
      }
  }

  lemma UnionItemPoint(c: seq<int>, a: int, x: int)
    requires |c| > 0 && Ascending(c)
    ensures x in Elems(UnionItemInto(c, a)) <==> x in MaxSet(Elems(c), {a})
  {
    forall y | y in Elems(c) ensures c[0] <= y {
      AscendingHead(c, y);
    }
    UnionRule(Elems(c), {a}, c[0], a, x);
  }

  /** The heap after a SELF_GENERALIZE step holds max(candidate, g) for every candidate and frequent ascendant g. */
  lemma UnionAscendantsMeaning(current: Option<seq<int>>, asc: seq<int>, lff: int)
    requires HeapOk(current)
    requires |asc| > 0 && StrictlyAscending(asc) && asc[0] <= lff && AllPositive(asc)
    ensures Candidates(Some(UnionAscendants(current, asc, lff)))
            == MaxSet(Candidates(current), set x | x in asc && x <= lff)
  {
    var add := set x | x in asc && x <= lff;
    var r := UnionAscendants(current, asc, lff);
    FrequentAscendantsMin(asc, lff);
    match current
    case None =>
      forall x ensures x in Elems(r) <==> x in MaxSet({0}, add) {
        if x in add {
          assert x == Max(0, x);
        }
      }
    case Some(c) =>
      forall x ensures x in Elems(r) <==> x in MaxSet(Elems(c), add) {
        UnionAscendantsPoint(c, asc, lff, x);
      }
  }

  /** The smallest ascendant is the smallest frequent one. */
  lemma FrequentAscendantsMin(asc: seq<int>, lff: int)
    requires |asc| > 0 && StrictlyAscending(asc) && asc[0] <= lff
    ensures asc[0] in (set x | x in asc && x <= lff)
    ensures forall x | x in asc :: asc[0] <= x
  {
    forall x | x in asc ensures asc[0] <= x {
      var i :| 0 <= i < |asc| && asc[i] == x;
      assert i == 0 || asc[0] < asc[i];
    }
  }

  lemma UnionAscendantsPoint(c: seq<int>, asc: seq<int>, lff: int, x: int)
    requires |c| > 0 && Ascending(c)
    requires |asc| > 0 && StrictlyAscending(asc) && asc[0] <= lff
    ensures x in Elems(UnionAscendants(Some(c), asc, lff)) <==> x in MaxSet(Elems(c), set y | y in asc && y <= lff)
  {
    FrequentAscendantsMin(asc, lff);
    forall y | y in Elems(c) ensures c[0] <= y {
      AscendingHead(c, y);
    }
    var add := set y | y in asc && y <= lff;
    UnionRule(Elems(c), add, c[0], asc[0], x);
  }
}
