/**
 The pivot item of an output sequence: its largest item. Items are
 frequency-ordered ids (a smaller id is a more frequent item), so the pivot is
 the least frequent item of the sequence, and every output sequence is mined
 in the partition of its pivot.
 */
module Pivots {
  import opened Basics

  /**
   DesqDfs.pivot: a running maximum that starts at 0, so the empty sequence has
   pivot 0 ("no pivot").
   */
  function Pivot(s: seq<int>): (p: int)
    ensures p >= 0
    ensures forall i | 0 <= i < |s| :: s[i] <= p
    ensures |s| == 0 ==> p == 0
    ensures p == 0 || p in s
  {
    if |s| == 0 then 0 else Max(s[|s| - 1], Pivot(s[..|s| - 1]))
  }

  /** Over positive items a non-empty sequence has a positive pivot that is one of its items. */
  lemma PivotOfPositive(s: seq<int>)
    requires AllPositive(s)
    requires |s| > 0
    ensures Pivot(s) > 0 && Pivot(s) in s
  {
    assert s[0] <= Pivot(s);
  }

  lemma PivotSnoc(s: seq<int>, x: int)
    ensures Pivot(s + [x]) == Max(Pivot(s), x)
  {
    assert (s + [x])[..|s|] == s;
  }

  /** The pivot of a concatenation is the larger of the two pivots. */
  lemma {:induction false} PivotConcat(a: seq<int>, b: seq<int>)
    ensures Pivot(a + b) == Max(Pivot(a), Pivot(b))
  {
    if |b| == 0 {
      assert a + b == a;
    } else {
      var b' := b[..|b| - 1];
      var x := b[|b| - 1];
      assert b == b' + [x];
      assert a + b == (a + b') + [x];
      PivotConcat(a, b');
      PivotSnoc(a + b', x);
      PivotSnoc(b', x);
    }
  }

  /**
   Prepending an item: the step taken by piStepOnePass, which passes
   max(pivot, outputItem) down the recursion.
   */
  lemma PivotCons(x: int, w: seq<int>)
    ensures Pivot([x] + w) == Max(Max(x, 0), Pivot(w))
  {
    PivotConcat([x], w);
    assert [x][..0] == [];
  }

  /**
   The pivot filter applied when a pattern is emitted for partition `pivotItem`
   (0 means no partition, everything passes).
   */
  predicate PivotFilter(pivotItem: int, pattern: seq<int>)
  {
    pivotItem == 0 || Pivot(pattern) == pivotItem
  }

  /**
   Every non-empty pattern over positive items passes the filter of exactly one
   positive partition: the one of its pivot. So the union of the partitioned
   runs emits every pattern once.
   */
  lemma PivotPartitionUnique(pattern: seq<int>, pivotItem: int)
    requires AllPositive(pattern) && |pattern| > 0
    requires pivotItem > 0
    ensures PivotFilter(pivotItem, pattern) <==> pivotItem == Pivot(pattern)
    ensures PivotFilter(Pivot(pattern), pattern) && Pivot(pattern) > 0
  {
    PivotOfPositive(pattern);
  }
}
