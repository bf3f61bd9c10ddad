/**
 incStepOnePassTraditional: one incremental step of the search over a plain
 input sequence. From a snapshot (state, pos) the transducer runs through
 epsilon outputs until the next output item; each output item the one-pass
 filter admits becomes a move, and the step reports whether a final state
 was reached without further output.
 */
module TraditionalStep {
  import opened Basics
  import opened Transducer
  import opened Pivots
  import opened IncSteps

  /** What is left of the input from `pos` on: the measure of the step's recursion. */
  function Left(input: seq<int>, pos: nat): nat
  {
    if pos < |input| then |input| - pos else 0
  }

  /**
   The step from (state, pos). At or behind the end of the input it reports
   the state's finality and expands nothing. Otherwise it reports a final
   state only if full match is not required, then walks the (output item,
   next state) pairs of the next input item: an epsilon pair continues the
   run one position further, any other pair is expanded if admitted.
   */
  function StepTraditional(fst: Fst, pivotItem: int, input: seq<int>, pos: nat, state: nat): (r: StepResult)
    ensures forall m | m in r.moves :: pos < m.pos <= |input| && m.item != 0 && OnePassAdmits(pivotItem, m.item)
    ensures pos >= |input| ==> r.moves == [] && (r.reached <==> fst.isFinal(state))
    decreases Left(input, pos), 1, 0
  {
    if pos >= |input| then StepResult(fst.isFinal(state), [])
    else
      var r := StepPairs(fst, pivotItem, input, pos, Consume(fst, state, input[pos]));
      StepResult((fst.isFinal(state) && !fst.requireFullMatch) || r.reached, r.moves)
  }

  /** The loop over the pairs of one input item. */
  function StepPairs(fst: Fst, pivotItem: int, input: seq<int>, pos: nat, its: seq<ItemState>): (r: StepResult)
    requires pos < |input|
    ensures forall m | m in r.moves :: pos < m.pos <= |input| && m.item != 0 && OnePassAdmits(pivotItem, m.item)
    decreases Left(input, pos), 0, |its|
  {
    if |its| == 0 then NoMoves
    else Join(PairStep(fst, pivotItem, input, pos, its[0]), StepPairs(fst, pivotItem, input, pos, its[1..]))
  }

  /** One pair: epsilon continues the run at the next position, an admitted item becomes a move. */
  function PairStep(fst: Fst, pivotItem: int, input: seq<int>, pos: nat, it: ItemState): (r: StepResult)
    requires pos < |input|
    ensures forall m | m in r.moves :: pos < m.pos <= |input| && m.item != 0 && OnePassAdmits(pivotItem, m.item)
    decreases Left(input, pos), 0, 0
  {
    if it.item == 0 then StepTraditional(fst, pivotItem, input, pos + 1, it.to)
    else if OnePassAdmits(pivotItem, it.item) then StepResult(false, [Move(it.item, it.to, pos + 1)])
    else NoMoves
  }

  lemma StepPairsAppend(fst: Fst, pivotItem: int, input: seq<int>, pos: nat, a: seq<ItemState>, b: seq<ItemState>)
    requires pos < |input|
    ensures StepPairs(fst, pivotItem, input, pos, a + b)
            == Join(StepPairs(fst, pivotItem, input, pos, a), StepPairs(fst, pivotItem, input, pos, b))
    decreases |a|
  {
    if |a| == 0 {
      assert a + b == b;
    } else {
      assert (a + b)[0] == a[0];
      assert (a + b)[1..] == a[1..] + b;
      StepPairsAppend(fst, pivotItem, input, pos, a[1..], b);
      var x := PairStep(fst, pivotItem, input, pos, a[0]);
      var y := StepPairs(fst, pivotItem, input, pos, a[1..]);
      var z := StepPairs(fst, pivotItem, input, pos, b);
      assert x.moves + (y.moves + z.moves) == (x.moves + y.moves) + z.moves;
    }
  }

  // -- what a step computes --------------------------------------------------------------------------------------------

  /** Some move for item `o` continues at a snapshot from which `w` can be output. */
  ghost predicate Continues(fst: Fst, pivotItem: int, input: seq<int>, moves: seq<Move>, o: int, w: seq<int>)
  {
    exists m | m in moves :: m.item == o && m.pos <= |input| && w in Outputs(fst, pivotItem, input, m.pos, m.state)
  }

  /**
   A step result accounts for the set of outputs `outs`: it reports a final
   state exactly when the empty output is among them, and the outputs
   starting with item o are exactly o followed by an output of a snapshot
   some move for o continues at.
   */
  ghost predicate Decomposes(fst: Fst, pivotItem: int, input: seq<int>, r: StepResult, outs: set<seq<int>>)
  {
    && (r.reached <==> [] in outs)
    && (forall o, w :: [o] + w in outs <==> Continues(fst, pivotItem, input, r.moves, o, w))
  }

  lemma JoinDecomposes(fst: Fst, pivotItem: int, input: seq<int>, a: StepResult, outsA: set<seq<int>>,
                       b: StepResult, outsB: set<seq<int>>)
    requires Decomposes(fst, pivotItem, input, a, outsA) && Decomposes(fst, pivotItem, input, b, outsB)
    ensures Decomposes(fst, pivotItem, input, Join(a, b), outsA + outsB)
  {
    var j := Join(a, b);
    forall o, w
      ensures [o] + w in outsA + outsB <==> Continues(fst, pivotItem, input, j.moves, o, w)
    {
      if Continues(fst, pivotItem, input, j.moves, o, w) {
        var m :| m in j.moves && m.item == o && m.pos <= |input| && w in Outputs(fst, pivotItem, input, m.pos, m.state);
        if m in a.moves {
          assert Continues(fst, pivotItem, input, a.moves, o, w);
        } else {
          assert Continues(fst, pivotItem, input, b.moves, o, w);
        }
      }
      if [o] + w in outsA {
        var m :| m in a.moves && m.item == o && m.pos <= |input| && w in Outputs(fst, pivotItem, input, m.pos, m.state);
        assert m in j.moves;
      } else if [o] + w in outsB {
        var m :| m in b.moves && m.item == o && m.pos <= |input| && w in Outputs(fst, pivotItem, input, m.pos, m.state);
        assert m in j.moves;
      }
    }
  }

  /**
   The step is exact against the reference semantics with the pivot item as
   the frequency bound: it reaches a final state exactly when the empty
   sequence is an output from (state, pos), and its moves for item o
   continue at exactly the snapshots whose outputs, after o, are the outputs
   from (state, pos) that start with o.
   */
  lemma {:induction false} StepTraditionalCorrect(fst: Fst, pivotItem: int, input: seq<int>, pos: nat, state: nat)
    requires WellFormed(fst, input) && pos <= |input|
    ensures Decomposes(fst, pivotItem, input, StepTraditional(fst, pivotItem, input, pos, state),
                       Outputs(fst, pivotItem, input, pos, state))
    decreases |input| - pos, 2, 0
  {
    var outs := Outputs(fst, pivotItem, input, pos, state);
    var acc: set<seq<int>> := if Accepts(fst, input, pos, state) then {[]} else {};
    var base := StepResult(fst.isFinal(state) && !fst.requireFullMatch, []);
    if pos == |input| {
      assert outs == acc;
      forall o, w ensures [o] + w !in outs { assert |[o] + w| > 0; }
    } else {
      var trs := fst.consumeCompressed(state, input[pos]);
      assert TransitionsOk(fst, trs, input[pos]);
      ViaCorrect(fst, pivotItem, input, pos, trs);
      forall o, w ensures [o] + w !in acc { assert |[o] + w| > 0; }
      assert Decomposes(fst, pivotItem, input, base, acc);
      JoinDecomposes(fst, pivotItem, input, base, acc,
                     StepPairs(fst, pivotItem, input, pos, Flatten(fst, trs, input[pos])),
                     OutputsVia(fst, pivotItem, input, pos, trs));
    }
  }

  lemma {:induction false} ViaCorrect(fst: Fst, pivotItem: int, input: seq<int>, pos: nat, trs: seq<Transition>)
    requires WellFormed(fst, input) && pos < |input| && TransitionsOk(fst, trs, input[pos])
    ensures Decomposes(fst, pivotItem, input, StepPairs(fst, pivotItem, input, pos, Flatten(fst, trs, input[pos])),
                       OutputsVia(fst, pivotItem, input, pos, trs))
    decreases |input| - pos, 1, |trs|
  {
    if |trs| == 0 {
      assert Flatten(fst, trs, input[pos]) == [];
      assert Decomposes(fst, pivotItem, input, NoMoves, {});
    } else {
      var tr := trs[0];
      var its := ItemStatesOf(fst, tr, input[pos]);
      var restIts := Flatten(fst, trs[1..], input[pos]);
      StepPairsAppend(fst, pivotItem, input, pos, its, restIts);
      TransitionsOkTail(fst, trs, input[pos]);
      ViaCorrect(fst, pivotItem, input, pos, trs[1..]);
      if tr.kind.Epsilon? {
        StepTraditionalCorrect(fst, pivotItem, input, pos + 1, tr.to);
        var sub := StepTraditional(fst, pivotItem, input, pos + 1, tr.to);
        assert StepPairs(fst, pivotItem, input, pos, its) == Join(sub, NoMoves) by {
          assert its[1..] == [];
          assert PairStep(fst, pivotItem, input, pos, its[0]) == sub;
        }
        assert Join(sub, NoMoves) == sub;
      } else {
        OutputItemsPositive(fst, trs, input[pos], 0);
        OutsCorrect(fst, pivotItem, input, pos, tr, 0);
        assert its[0..] == its;
        assert OutputItems(fst, tr.number, tr.kind, input[pos])[0..] == OutputItems(fst, tr.number, tr.kind, input[pos]);
      }
      JoinDecomposes(fst, pivotItem, input,
                     StepPairs(fst, pivotItem, input, pos, its), OutputsOf(fst, pivotItem, input, pos, tr),
                     StepPairs(fst, pivotItem, input, pos, restIts), OutputsVia(fst, pivotItem, input, pos, trs[1..]));
    }
  }

  /** The pairs of one non-epsilon transition, from its k-th output item on. */
  lemma {:induction false} OutsCorrect(fst: Fst, pivotItem: int, input: seq<int>, pos: nat, tr: Transition, k: nat)
    requires WellFormed(fst, input) && pos < |input| && !tr.kind.Epsilon?
    requires AllPositive(OutputItems(fst, tr.number, tr.kind, input[pos]))
    requires k <= |OutputItems(fst, tr.number, tr.kind, input[pos])|
    ensures Decomposes(fst, pivotItem, input, StepPairs(fst, pivotItem, input, pos, ItemStatesOf(fst, tr, input[pos])[k..]),
                       Prefixed(Frequent(OutputItems(fst, tr.number, tr.kind, input[pos])[k..], pivotItem),
                                Outputs(fst, pivotItem, input, pos + 1, tr.to)))
    decreases |OutputItems(fst, tr.number, tr.kind, input[pos])| - k
  {
    var outs := OutputItems(fst, tr.number, tr.kind, input[pos]);
    var its := ItemStatesOf(fst, tr, input[pos]);
    var rest := Outputs(fst, pivotItem, input, pos + 1, tr.to);
    if k == |outs| {
      assert Frequent(outs[k..], pivotItem) == {};
      assert Prefixed({}, rest) == {};
      assert its[k..] == [];
      assert Decomposes(fst, pivotItem, input, NoMoves, {});
    } else {
      var o := outs[k];
      var head: set<int> := if o <= pivotItem then {o} else {};
      var tail := Frequent(outs[k + 1..], pivotItem);
      assert its[k..][0] == ItemState(o, tr.to);
      assert its[k..][1..] == its[k + 1..];
      OutsCorrect(fst, pivotItem, input, pos, tr, k + 1);
      ItemCorrect(fst, pivotItem, input, pos, o, tr.to);
      assert Frequent(outs[k..], pivotItem) == head + tail by {
        assert outs[k..] == [o] + outs[k + 1..];
      }
      PrefixedUnion(head, tail, rest);
      JoinDecomposes(fst, pivotItem, input,
                     PairStep(fst, pivotItem, input, pos, ItemState(o, tr.to)), Prefixed(head, rest),
                     StepPairs(fst, pivotItem, input, pos, its[k + 1..]), Prefixed(tail, rest));
    }
  }

  /** One pair with a positive output item: a single move if admitted, nothing otherwise. */
  lemma ItemCorrect(fst: Fst, pivotItem: int, input: seq<int>, pos: nat, o: int, to: nat)
    requires pos < |input| && o > 0
    ensures Decomposes(fst, pivotItem, input, PairStep(fst, pivotItem, input, pos, ItemState(o, to)),
                       Prefixed(if o <= pivotItem then {o} else {}, Outputs(fst, pivotItem, input, pos + 1, to)))
  {
    var rest := Outputs(fst, pivotItem, input, pos + 1, to);
    var r := PairStep(fst, pivotItem, input, pos, ItemState(o, to));
    assert r.moves == if o <= pivotItem then [Move(o, to, pos + 1)] else [];
    var outs := Prefixed(if o <= pivotItem then {o} else {}, rest);
    forall o2, w
      ensures [o2] + w in outs <==> Continues(fst, pivotItem, input, r.moves, o2, w)
    {
      if [o2] + w in outs {
        var o3, w3 :| o3 in (if o <= pivotItem then {o} else {}) && w3 in rest && [o2] + w == [o3] + w3;
        assert ([o2] + w)[0] == o2 && ([o3] + w3)[0] == o3;
        assert w == ([o2] + w)[1..] && w3 == ([o3] + w3)[1..];
        assert Move(o, to, pos + 1) in r.moves;
      }
      if Continues(fst, pivotItem, input, r.moves, o2, w) {
        var m :| m in r.moves && m.item == o2 && m.pos <= |input| && w in Outputs(fst, pivotItem, input, m.pos, m.state);
        assert m == Move(o, to, pos + 1);
      }
    }
  }

  // -- the one-pass filter against the two-pass filter -----------------------------------------------------------------

  /**
   Inside a partition (0 < pivot item <= largest frequent id) the one-pass
   step, which filters by the pivot item alone, explores exactly the frequent
   outputs that stay within the partition, and every child it expands passes
   the two-pass filter too.
   */
  lemma StepWithinPartition(fst: Fst, pivotItem: int, lff: int, input: seq<int>, pos: nat, state: nat)
    requires WellFormed(fst, input) && pos <= |input| && 0 < pivotItem <= lff
    ensures Decomposes(fst, pivotItem, input, StepTraditional(fst, pivotItem, input, pos, state),
                       Below(Outputs(fst, lff, input, pos, state), pivotItem))
    ensures forall m | m in StepTraditional(fst, pivotItem, input, pos, state).moves :: TwoPassAdmits(pivotItem, lff, m.item)
  {
    StepTraditionalCorrect(fst, pivotItem, input, pos, state);
    OutputsBelow(fst, lff, pivotItem, input, pos, state);
    forall m | m in StepTraditional(fst, pivotItem, input, pos, state).moves ensures TwoPassAdmits(pivotItem, lff, m.item) {
      FiltersAgreeInPartition(pivotItem, lff, m.item);
    }
  }

  /**
   Without a partition (pivot item 0) the one-pass step expands no child for
   any output: the only output it accounts for is the empty one, where the
   two-pass filter would explore every frequent output.
   */
  lemma StepWithoutPartition(fst: Fst, lff: int, input: seq<int>, pos: nat, state: nat)
    requires WellFormed(fst, input) && pos <= |input| && 0 <= lff
    ensures Decomposes(fst, 0, input, StepTraditional(fst, 0, input, pos, state),
                       Below(Outputs(fst, lff, input, pos, state), 0))
    ensures Below(Outputs(fst, lff, input, pos, state), 0) <= {[]}
  {
    StepTraditionalCorrect(fst, 0, input, pos, state);
    OutputsBelow(fst, lff, 0, input, pos, state);
    forall w | w in Below(Outputs(fst, lff, input, pos, state), 0) ensures w == [] {
      OutputsPositive(fst, lff, input, pos, state, w);
      if w != [] {
        PivotOfPositive(w);
      }
    }
  }
}
