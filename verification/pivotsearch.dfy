/**
 The pivot search of the one-pass miner: for one input sequence, the set of
 pivot items of its frequent output sequences. The plain search
 (piStepOnePass) walks the uncompressed transitions carrying the pivot of the
 output so far; the compressed search (piStepOnePassCompressed) walks the
 compressed transitions carrying the heap of every pivot still possible.
 Both are proved equal to the pivots read off the reference semantics
 Transducer.Outputs, and hence to each other.
 */
module PivotSearch {
  import opened Basics
  import opened Pivots
  import opened Transducer
  import opened PivotHeap

  /**
   The pivots of the output sequences `outs` when the output so far may have
   any pivot of `cands`: max(candidate, pivot(w)), leaving out 0 (no output at all).
   */
  function LiftSet(cands: set<int>, outs: set<seq<int>>): set<int>
  {
    set c, w | c in cands && w in outs && Max(c, Pivot(w)) != 0 :: Max(c, Pivot(w))
  }

  /** The pivot items of all frequent output sequences of `input`. */
  function SequencePivots(fst: Fst, lff: int, input: seq<int>): set<int>
  {
    LiftSet({0}, Outputs(fst, lff, input, 0, fst.initial))
  }

  // -- piStepOnePass ---------------------------------------------------------------------------------------------------

  /**
   piStepOnePass without the max-pivot and skip-non-pivot optimisations: the
   pivot items it adds to the sequence's pivot set. `pivot` is the pivot of the
   output so far (0 for none).
   */
  function PiStepOnePass(fst: Fst, lff: int, input: seq<int>, pivot: int, pos: nat, state: nat): set<int>
    requires pos <= |input|
    decreases |input| - pos, 1, 0
  {
    (if Accepts(fst, input, pos, state) && pivot != 0 then {pivot} else {})
    + (if pos == |input| then {}
       else PiItems(fst, lff, input, pivot, pos, Consume(fst, state, input[pos])))
  }

  /** The loop over the (output item, next state) pairs; item 0 is an epsilon output. */
  function PiItems(fst: Fst, lff: int, input: seq<int>, pivot: int, pos: nat, its: seq<ItemState>): set<int>
    requires pos < |input|
    decreases |input| - pos, 0, |its|
  {
    if |its| == 0 then {}
    else PiPair(fst, lff, input, pivot, pos, its[0]) + PiItems(fst, lff, input, pivot, pos, its[1..])
  }

  /** One pair: epsilon keeps the pivot, a frequent item raises it to the item if larger, an infrequent one ends the path. */
  function PiPair(fst: Fst, lff: int, input: seq<int>, pivot: int, pos: nat, it: ItemState): set<int>
    requires pos < |input|
    decreases |input| - pos, 0, 0
  {
    if it.item == 0 then PiStepOnePass(fst, lff, input, pivot, pos + 1, it.to)
    else if lff >= it.item then
      PiStepOnePass(fst, lff, input, if it.item > pivot then it.item else pivot, pos + 1, it.to)
    else {}
  }

  // -- piStepOnePassCompressed -----------------------------------------------------------------------------------------

  /**
   The pivots recorded on reaching a configuration: the whole heap at an
   accepting configuration. A missing heap (nothing emitted yet) records
   nothing; see FinalCheckAsWritten for what the source does instead.
   */
  function FinalPivots(fst: Fst, input: seq<int>, heap: Option<seq<int>>, pos: nat, state: nat): (r: set<int>)
    ensures r != {} ==> Accepts(fst, input, pos, state) && heap.Some?
    ensures Accepts(fst, input, pos, state) && heap.Some? ==> r == Elems(heap.value)
  {
    if Accepts(fst, input, pos, state) && heap.Some? then Elems(heap.value) else {}
  }

  /** piStepOnePassCompressed: the pivot items it adds, starting from the candidate heap `heap`. */
  function PiStepCompressed(fst: Fst, lff: int, input: seq<int>, heap: Option<seq<int>>, pos: nat, state: nat): set<int>
    requires WellFormed(fst, input) && pos <= |input| && HeapOk(heap)
    decreases |input| - pos, 1, 0
  {
    FinalPivots(fst, input, heap, pos, state)
    + (if pos == |input| then {}
       else PiTransitions(fst, lff, input, heap, pos, fst.consumeCompressed(state, input[pos])))
  }

  function PiTransitions(fst: Fst, lff: int, input: seq<int>, heap: Option<seq<int>>, pos: nat, trs: seq<Transition>): set<int>
    requires WellFormed(fst, input) && pos < |input| && HeapOk(heap)
    requires TransitionsOk(fst, trs, input[pos])
    decreases |input| - pos, 0, |trs|
  {
    if |trs| == 0 then {}
    else
      TransitionsOkTail(fst, trs, input[pos]);
      PiTransition(fst, lff, input, heap, pos, trs[0])
      + PiTransitions(fst, lff, input, heap, pos, trs[1..])
  }

  /** One compressed transition: the heap union of its label kind, if it emits a frequent item. */
  function PiTransition(fst: Fst, lff: int, input: seq<int>, heap: Option<seq<int>>, pos: nat, tr: Transition): set<int>
    requires WellFormed(fst, input) && pos < |input| && HeapOk(heap)
    requires TransitionsOk(fst, [tr], input[pos])
    decreases |input| - pos, 0, 0
  {
    match tr.kind
    case Epsilon => PiStepCompressed(fst, lff, input, heap, pos + 1, tr.to)
    case Constant(c) =>
      if lff >= c then PiStepCompressed(fst, lff, input, Some(UnionItem(heap, c)), pos + 1, tr.to) else {}
    case Self =>
      var a := input[pos];
      if lff >= a then PiStepCompressed(fst, lff, input, Some(UnionItem(heap, a)), pos + 1, tr.to) else {}
    case SelfGeneralize =>
      var asc := fst.ascendants(tr.number, input[pos]);
      assert TransitionsOk(fst, [tr], input[pos]) && [tr][0] == tr;
      if lff >= asc[0] then
        PiStepCompressed(fst, lff, input, Some(UnionAscendants(heap, asc, lff)), pos + 1, tr.to)
      else {}
  }

  // -- the final check as written --------------------------------------------------------------------------------------

  datatype CheckOutcome = NullHeap | Recorded(pivots: set<int>)

  /**
   The final-state check of piStepOnePassCompressed as written: the heap size
   is read as soon as the state is final, before the match condition, and the
   heap is still null when no output item has been emitted yet.
   */
  function FinalCheckAsWritten(fst: Fst, input: seq<int>, heap: Option<seq<int>>, pos: nat, state: nat): (r: CheckOutcome)
    ensures r.NullHeap? <==> fst.isFinal(state) && heap.None?
    ensures r.Recorded? ==> r.pivots == FinalPivots(fst, input, heap, pos, state)
  {
    if !fst.isFinal(state) then Recorded({})
    else if heap.None? then NullHeap
    else if |heap.value| != 0 && (!fst.requireFullMatch || pos == |input|) then Recorded(Elems(heap.value))
    else Recorded({})
  }

  /** A transducer whose initial state is final: it accepts any input with the empty output. */
  function AcceptEverything(): Fst
  {
    Fst(0, (s: nat) => true, false, (s: nat, item: int) => [], (n: int) => Epsilon, (n: int, item: int) => [item])
  }

  /**
   The very first check of a search over such a transducer dereferences the
   null heap, although the sequence simply has no pivot.
   */
  lemma FinalCheckNullHeapExample()
    ensures FinalCheckAsWritten(AcceptEverything(), [7], None, 0, AcceptEverything().initial) == NullHeap
    ensures Outputs(AcceptEverything(), 10, [7], 0, AcceptEverything().initial) == {[]}
    ensures SequencePivots(AcceptEverything(), 10, [7]) == {}
    ensures PiStepCompressed(AcceptEverything(), 10, [7], None, 0, AcceptEverything().initial) == {}
  {
    var fst := AcceptEverything();
    assert WellFormed(fst, [7]);
    assert Outputs(fst, 10, [7], 1, 0) == {[]};
    assert Outputs(fst, 10, [7], 0, 0) == {[]};
    assert LiftSet({0}, {[]}) == {} by {
      assert Pivot([]) == 0;
    }
  }

  // -- lemmas about LiftSet --------------------------------------------------------------------------------------------

  lemma LiftSetUnion(cands: set<int>, a: set<seq<int>>, b: set<seq<int>>)
    ensures LiftSet(cands, a + b) == LiftSet(cands, a) + LiftSet(cands, b)
  {
  }

  lemma LiftSetCandidatesUnion(c1: set<int>, c2: set<int>, outs: set<seq<int>>)
    ensures LiftSet(c1 + c2, outs) == LiftSet(c1, outs) + LiftSet(c2, outs)
  {
  }

  /** At an accepting configuration the empty remainder contributes the candidates themselves. */
  lemma LiftSetAccept(cands: set<int>)
    requires forall c | c in cands :: c >= 0
    ensures LiftSet(cands, {[]}) == set c | c in cands && c != 0
  {
    assert Pivot([]) == 0;
    forall c | c in cands && c != 0 ensures c in LiftSet(cands, {[]}) {
      assert Max(c, Pivot([])) == c;
    }
  }

  /**
   Extending the candidates by an emitted item is the same as putting that
   item in front of the remaining outputs: the step both searches take.
   */
  lemma LiftSetStep(cands: set<int>, add: set<int>, outs: set<seq<int>>)
    requires forall c | c in cands :: c >= 0
    requires forall a | a in add :: a > 0
    ensures LiftSet(MaxSet(cands, add), outs) == LiftSet(cands, Prefixed(add, outs))
  {
    forall x | x in LiftSet(MaxSet(cands, add), outs) ensures x in LiftSet(cands, Prefixed(add, outs)) {
      var m, w :| m in MaxSet(cands, add) && w in outs && Max(m, Pivot(w)) != 0 && x == Max(m, Pivot(w));
      var c, a :| c in cands && a in add && m == Max(c, a);
      PivotCons(a, w);
      assert [a] + w in Prefixed(add, outs);
      assert x == Max(c, Pivot([a] + w));
    }
    forall x | x in LiftSet(cands, Prefixed(add, outs)) ensures x in LiftSet(MaxSet(cands, add), outs) {
      var c, v :| c in cands && v in Prefixed(add, outs) && Max(c, Pivot(v)) != 0 && x == Max(c, Pivot(v));
      var a, w :| a in add && w in outs && v == [a] + w;
      PivotCons(a, w);
      assert Max(c, a) in MaxSet(cands, add);
      assert x == Max(Max(c, a), Pivot(w));
    }
  }

  // -- correctness of the plain search ---------------------------------------------------------------------------------

  lemma PiItemsAppend(fst: Fst, lff: int, input: seq<int>, pivot: int, pos: nat, a: seq<ItemState>, b: seq<ItemState>)
    requires pos < |input|
    ensures PiItems(fst, lff, input, pivot, pos, a + b)
            == PiItems(fst, lff, input, pivot, pos, a) + PiItems(fst, lff, input, pivot, pos, b)
    decreases |a|
  {
    if |a| == 0 {
      assert a + b == b;
    } else {
      assert (a + b)[0] == a[0];
      assert (a + b)[1..] == a[1..] + b;
      PiItemsAppend(fst, lff, input, pivot, pos, a[1..], b);
    }
  }

  /**
   The plain search finds exactly the pivots of the frequent outputs, each
   combined with the pivot of the output so far.
   */
  lemma {:induction false} PiStepOnePassCorrect(fst: Fst, lff: int, input: seq<int>, pivot: int, pos: nat, state: nat)
    requires WellFormed(fst, input) && pos <= |input| && pivot >= 0
    ensures PiStepOnePass(fst, lff, input, pivot, pos, state)
            == LiftSet({pivot}, Outputs(fst, lff, input, pos, state))
    decreases |input| - pos, 2, 0
  {
    var acc: set<seq<int>> := if Accepts(fst, input, pos, state) then {[]} else {};
    LiftSetAccept({pivot});
    assert LiftSet({pivot}, acc) == (if Accepts(fst, input, pos, state) && pivot != 0 then {pivot} else {});
    if pos < |input| {
      var trs := fst.consumeCompressed(state, input[pos]);
      PiViaCorrect(fst, lff, input, pivot, pos, trs);
      LiftSetUnion({pivot}, acc, OutputsVia(fst, lff, input, pos, trs));
    }
  }

  lemma {:induction false} PiViaCorrect(fst: Fst, lff: int, input: seq<int>, pivot: int, pos: nat, trs: seq<Transition>)
    requires WellFormed(fst, input) && pos < |input| && pivot >= 0
    requires TransitionsOk(fst, trs, input[pos])
    ensures PiItems(fst, lff, input, pivot, pos, Flatten(fst, trs, input[pos]))
            == LiftSet({pivot}, OutputsVia(fst, lff, input, pos, trs))
    decreases |input| - pos, 1, |trs|
  {
    if |trs| > 0 {
      var tr := trs[0];
      var its := ItemStatesOf(fst, tr, input[pos]);
      PiItemsAppend(fst, lff, input, pivot, pos, its, Flatten(fst, trs[1..], input[pos]));
      TransitionsOkTail(fst, trs, input[pos]);
      PiViaCorrect(fst, lff, input, pivot, pos, trs[1..]);
      LiftSetUnion({pivot}, OutputsOf(fst, lff, input, pos, tr), OutputsVia(fst, lff, input, pos, trs[1..]));
      if tr.kind.Epsilon? {
        assert its[1..] == [];
        assert PiPair(fst, lff, input, pivot, pos, its[0]) == PiStepOnePass(fst, lff, input, pivot, pos + 1, tr.to);
        PiStepOnePassCorrect(fst, lff, input, pivot, pos + 1, tr.to);
      } else {
        OutputItemsPositive(fst, trs, input[pos], 0);
        PiOutsCorrect(fst, lff, input, pivot, pos, tr, 0);
      }
    }
  }

  /** The pairs of one non-epsilon transition, from its k-th output item on. */
  lemma {:induction false} PiOutsCorrect(fst: Fst, lff: int, input: seq<int>, pivot: int, pos: nat, tr: Transition, k: nat)
    requires WellFormed(fst, input) && pos < |input| && pivot >= 0
    requires !tr.kind.Epsilon?
    requires AllPositive(OutputItems(fst, tr.number, tr.kind, input[pos]))
    requires k <= |OutputItems(fst, tr.number, tr.kind, input[pos])|
    ensures PiItems(fst, lff, input, pivot, pos, ItemStatesOf(fst, tr, input[pos])[k..])
            == LiftSet({pivot}, Prefixed(Frequent(OutputItems(fst, tr.number, tr.kind, input[pos])[k..], lff),
                                         Outputs(fst, lff, input, pos + 1, tr.to)))
    decreases |input| - pos, 0, |OutputItems(fst, tr.number, tr.kind, input[pos])| - k
  {
    var outs := OutputItems(fst, tr.number, tr.kind, input[pos]);
    var its := ItemStatesOf(fst, tr, input[pos]);
    var rest := Outputs(fst, lff, input, pos + 1, tr.to);
    if k == |outs| {
      assert Frequent(outs[k..], lff) == {};
    } else {
      var o := outs[k];
      var head: set<int> := if o <= lff then {o} else {};
      var tail := Frequent(outs[k + 1..], lff);
      assert its[k..][0] == ItemState(o, tr.to);
      assert its[k..][1..] == its[k + 1..];
      PiOutsCorrect(fst, lff, input, pivot, pos, tr, k + 1);
      PiItemCorrect(fst, lff, input, pivot, pos, o, tr.to);
      assert Frequent(outs[k..], lff) == head + tail by {
        assert outs[k..] == [o] + outs[k + 1..];
      }
      PrefixedUnion(head, tail, rest);
      LiftSetUnion({pivot}, Prefixed(head, rest), Prefixed(tail, rest));
    }
  }

  /** One (output item, next state) pair with a positive output item. */
  lemma {:induction false} PiItemCorrect(fst: Fst, lff: int, input: seq<int>, pivot: int, pos: nat, o: int, to: nat)
    requires WellFormed(fst, input) && pos < |input| && pivot >= 0 && o > 0
    ensures PiPair(fst, lff, input, pivot, pos, ItemState(o, to))
            == LiftSet({pivot}, Prefixed(if o <= lff then {o} else {}, Outputs(fst, lff, input, pos + 1, to)))
    decreases |input| - pos, 0, 0
  {
    var rest := Outputs(fst, lff, input, pos + 1, to);
    if o <= lff {
      var p := if o > pivot then o else pivot;
      PiStepOnePassCorrect(fst, lff, input, p, pos + 1, to);
      LiftSetStep({pivot}, {o}, rest);
      assert MaxSet({pivot}, {o}) == {p};
    } else {
      assert Prefixed({}, rest) == {};
    }
  }

  // -- correctness of the compressed search ----------------------------------------------------------------------------

  /** A heap holds positive items only (they are output items). */
  predicate PositiveHeap(heap: Option<seq<int>>)
  {
    heap.Some? ==> forall x | x in heap.value :: x > 0
  }

  /**
   The compressed search finds exactly the pivots of the frequent outputs,
   each combined with every candidate of the heap it starts from.
   */
  lemma {:induction false} PiStepCompressedCorrect(fst: Fst, lff: int, input: seq<int>, heap: Option<seq<int>>, pos: nat, state: nat)
    requires WellFormed(fst, input) && pos <= |input| && HeapOk(heap) && PositiveHeap(heap)
    ensures PiStepCompressed(fst, lff, input, heap, pos, state)
            == LiftSet(Candidates(heap), Outputs(fst, lff, input, pos, state))
    decreases |input| - pos, 2, 0
  {
    var cands := Candidates(heap);
    var acc: set<seq<int>> := if Accepts(fst, input, pos, state) then {[]} else {};
    LiftSetAccept(cands);
    assert LiftSet(cands, acc) == FinalPivots(fst, input, heap, pos, state);
    if pos < |input| {
      var trs := fst.consumeCompressed(state, input[pos]);
      PiTransitionsCorrect(fst, lff, input, heap, pos, trs);
      LiftSetUnion(cands, acc, OutputsVia(fst, lff, input, pos, trs));
    }
  }

  lemma {:induction false} PiTransitionsCorrect(fst: Fst, lff: int, input: seq<int>, heap: Option<seq<int>>, pos: nat, trs: seq<Transition>)
    requires WellFormed(fst, input) && pos < |input| && HeapOk(heap) && PositiveHeap(heap)
    requires TransitionsOk(fst, trs, input[pos])
    ensures PiTransitions(fst, lff, input, heap, pos, trs) == LiftSet(Candidates(heap), OutputsVia(fst, lff, input, pos, trs))
    decreases |input| - pos, 1, |trs|
  {
    if |trs| > 0 {
      TransitionsOkTail(fst, trs, input[pos]);
      assert TransitionsOk(fst, [trs[0]], input[pos]) by {
        assert [trs[0]][0] == trs[0];
      }
      PiTransitionCorrect(fst, lff, input, heap, pos, trs[0]);
      PiTransitionsCorrect(fst, lff, input, heap, pos, trs[1..]);
      LiftSetUnion(Candidates(heap), OutputsOf(fst, lff, input, pos, trs[0]), OutputsVia(fst, lff, input, pos, trs[1..]));
    }
  }

  lemma {:induction false} PiTransitionCorrect(fst: Fst, lff: int, input: seq<int>, heap: Option<seq<int>>, pos: nat, tr: Transition)
    requires WellFormed(fst, input) && pos < |input| && HeapOk(heap) && PositiveHeap(heap)
    requires TransitionsOk(fst, [tr], input[pos])
    ensures PiTransition(fst, lff, input, heap, pos, tr) == LiftSet(Candidates(heap), OutputsOf(fst, lff, input, pos, tr))
    decreases |input| - pos, 0, 2
  {
    assert [tr][0] == tr;
    OutputItemsPositive(fst, [tr], input[pos], 0);
    match tr.kind
    case Epsilon =>
      PiStepCompressedCorrect(fst, lff, input, heap, pos + 1, tr.to);
    case Constant(a) =>
      ItemStepCorrect(fst, lff, input, heap, pos, tr, a);
    case Self =>
      ItemStepCorrect(fst, lff, input, heap, pos, tr, input[pos]);
    case SelfGeneralize =>
      AscendantsStepCorrect(fst, lff, input, heap, pos, tr);
  }

  /** A CONSTANT or SELF transition emitting the single item `a`. */
  lemma {:induction false} ItemStepCorrect(fst: Fst, lff: int, input: seq<int>, heap: Option<seq<int>>, pos: nat, tr: Transition, a: int)
    requires WellFormed(fst, input) && pos < |input| && HeapOk(heap) && PositiveHeap(heap)
    requires TransitionsOk(fst, [tr], input[pos])
    requires tr.kind.Constant? || tr.kind.Self?
    requires OutputItems(fst, tr.number, tr.kind, input[pos]) == [a] && a > 0
    ensures PiTransition(fst, lff, input, heap, pos, tr) == LiftSet(Candidates(heap), OutputsOf(fst, lff, input, pos, tr))
    decreases |input| - pos, 0, 0
  {
    var cands := Candidates(heap);
    var rest := Outputs(fst, lff, input, pos + 1, tr.to);
    assert forall c | c in cands :: c >= 0;
    if lff >= a {
      assert Frequent([a], lff) == {a};
      var h' := Some(UnionItem(heap, a));
      assert PositiveHeap(h');
      PiStepCompressedCorrect(fst, lff, input, h', pos + 1, tr.to);
      UnionItemMeaning(heap, a);
      LiftSetStep(cands, {a}, rest);
    } else {
      assert Frequent([a], lff) == {};
      assert Prefixed({}, rest) == {};
    }
  }

  /** A SELF_GENERALIZE transition emitting the item or any of its ancestors. */
  lemma {:induction false} AscendantsStepCorrect(fst: Fst, lff: int, input: seq<int>, heap: Option<seq<int>>, pos: nat, tr: Transition)
    requires WellFormed(fst, input) && pos < |input| && HeapOk(heap) && PositiveHeap(heap)
    requires TransitionsOk(fst, [tr], input[pos])
    requires tr.kind.SelfGeneralize?
    ensures PiTransition(fst, lff, input, heap, pos, tr) == LiftSet(Candidates(heap), OutputsOf(fst, lff, input, pos, tr))
    decreases |input| - pos, 0, 1
  {
    var asc := fst.ascendants(tr.number, input[pos]);
    assert [tr][0] == tr;
    assert AscendantsOk(asc, input[pos]);
    if lff >= asc[0] {
      var h' := Some(UnionAscendants(heap, asc, lff));
      AscendantsTaken(fst, lff, input, heap, pos, asc, tr.to);
      AscendantsUnfold(fst, lff, input, heap, pos, tr);
    } else {
      AscendantsSkipped(fst, lff, input, heap, pos, tr);
    }
  }

  /** What a taken SELF_GENERALIZE transition searches and what it outputs. */
  lemma AscendantsUnfold(fst: Fst, lff: int, input: seq<int>, heap: Option<seq<int>>, pos: nat, tr: Transition)
    requires WellFormed(fst, input) && pos < |input| && HeapOk(heap)
    requires TransitionsOk(fst, [tr], input[pos]) && tr.kind.SelfGeneralize?
    requires AscendantsOk(fst.ascendants(tr.number, input[pos]), input[pos])
    requires lff >= fst.ascendants(tr.number, input[pos])[0]
    ensures var asc := fst.ascendants(tr.number, input[pos]);
            && PiTransition(fst, lff, input, heap, pos, tr)
               == PiStepCompressed(fst, lff, input, Some(UnionAscendants(heap, asc, lff)), pos + 1, tr.to)
            && OutputsOf(fst, lff, input, pos, tr) == Prefixed(Frequent(asc, lff), Outputs(fst, lff, input, pos + 1, tr.to))
  {
  }

  /** Searching on from the heap united with the frequent ascendants is searching behind one of them. */
  lemma {:induction false} AscendantsTaken(fst: Fst, lff: int, input: seq<int>, heap: Option<seq<int>>, pos: nat, asc: seq<int>, to: nat)
    requires WellFormed(fst, input) && pos < |input| && HeapOk(heap) && PositiveHeap(heap)
    requires AscendantsOk(asc, input[pos]) && lff >= asc[0]
    ensures PiStepCompressed(fst, lff, input, Some(UnionAscendants(heap, asc, lff)), pos + 1, to)
            == LiftSet(Candidates(heap), Prefixed(Frequent(asc, lff), Outputs(fst, lff, input, pos + 1, to)))
    decreases |input| - pos, 0, 0
  {
    var cands := Candidates(heap);
    var rest := Outputs(fst, lff, input, pos + 1, to);
    assert forall c | c in cands :: c >= 0;
    var h' := Some(UnionAscendants(heap, asc, lff));
    assert PositiveHeap(h');
    PiStepCompressedCorrect(fst, lff, input, h', pos + 1, to);
    UnionAscendantsMeaning(heap, asc, lff);
    assert Frequent(asc, lff) == set x | x in asc && x <= lff;
    LiftSetStep(cands, Frequent(asc, lff), rest);
  }

  lemma AscendantsSkipped(fst: Fst, lff: int, input: seq<int>, heap: Option<seq<int>>, pos: nat, tr: Transition)
    requires WellFormed(fst, input) && pos < |input| && HeapOk(heap) && PositiveHeap(heap)
    requires TransitionsOk(fst, [tr], input[pos])
    requires tr.kind.SelfGeneralize?
    requires AscendantsOk(fst.ascendants(tr.number, input[pos]), input[pos])
    requires lff < fst.ascendants(tr.number, input[pos])[0]
    ensures PiTransition(fst, lff, input, heap, pos, tr) == LiftSet(Candidates(heap), OutputsOf(fst, lff, input, pos, tr))
  {
    var asc := fst.ascendants(tr.number, input[pos]);
    var rest := Outputs(fst, lff, input, pos + 1, tr.to);
    assert Frequent(asc, lff) == {} by {
      forall x | x in asc ensures x > lff {
        var i :| 0 <= i < |asc| && asc[i] == x;
        assert i == 0 || asc[0] < asc[i];
      }
    }
    assert Prefixed({}, rest) == {};
  }

  /**
   Started as the miner starts it (null heap, pivot 0, initial state), the
   compressed search and the plain search find the same pivots: those of the
   sequence's frequent outputs.
   */
  lemma SearchesAgree(fst: Fst, lff: int, input: seq<int>)
    requires WellFormed(fst, input)
    ensures PiStepCompressed(fst, lff, input, None, 0, fst.initial) == SequencePivots(fst, lff, input)
    ensures PiStepOnePass(fst, lff, input, 0, 0, fst.initial) == SequencePivots(fst, lff, input)
  {
    PiStepCompressedCorrect(fst, lff, input, None, 0, fst.initial);
    PiStepOnePassCorrect(fst, lff, input, 0, 0, fst.initial);
  }

  /** Every pivot found is a frequent item, and the pivot of one of the sequence's outputs. */
  lemma SequencePivotsMeaning(fst: Fst, lff: int, input: seq<int>, p: int)
    ensures p in SequencePivots(fst, lff, input)
            <==> exists w | w in Outputs(fst, lff, input, 0, fst.initial) :: Pivot(w) == p && p != 0
  {
    if p in SequencePivots(fst, lff, input) {
      var c, w :| c in {0} && w in Outputs(fst, lff, input, 0, fst.initial) && Max(c, Pivot(w)) != 0 && p == Max(c, Pivot(w));
      assert Pivot(w) == p;
    }
    if exists w | w in Outputs(fst, lff, input, 0, fst.initial) :: Pivot(w) == p && p != 0 {
      var w :| w in Outputs(fst, lff, input, 0, fst.initial) && Pivot(w) == p && p != 0;
      assert Max(0, Pivot(w)) == p;
    }
  }

  /** Every pivot found is a frequent item id: positive and at most `lff`. */
  lemma PivotsFrequent(fst: Fst, lff: int, input: seq<int>, p: int)
    requires p in SequencePivots(fst, lff, input)
    ensures 0 < p <= lff
  {
    SequencePivotsMeaning(fst, lff, input, p);
    var w :| w in Outputs(fst, lff, input, 0, fst.initial) && Pivot(w) == p && p != 0;
    OutputsFrequent(fst, lff, input, 0, fst.initial, w);
  }
}
