/**
 mineTraditional and expandTraditional: the depth-first growth of the search
 tree over plain input sequences. Every child of a node is expanded by
 running the step from each of its snapshots; this yields the child's
 actual support (the weight of the inputs for which a final state is
 reached without further output) and the child's own children. A child is
 written as a pattern when its support reaches sigma and it passes the
 pivot filter; children whose prefix support is below sigma are pruned.

 The search is proved sound and complete against the reference semantics:
 the support of a pattern is the weight of the input sequences that have it
 among their outputs (with the pivot item as the frequency bound).
 */
module Expansion {
  import opened Basics
  import opened Pivots
  import opened Transducer
  import opened IncSteps
  import opened TraditionalStep
  import opened SearchTree

  /** An input sequence and its weight (the number of times it occurs). */
  datatype Input = Input(items: seq<int>, support: nat)

  /** A pattern given to the pattern writer, with its support. */
  datatype Pattern = Pattern(items: seq<int>, support: nat)

  /** What a mining run works with: the transducer, the pivot item (0: none), sigma and the input sequences. */
  datatype Miner = Miner(fst: Fst, pivotItem: int, sigma: nat, inputs: seq<Input>)

  ghost predicate InputsOk(m: Miner)
  {
    forall i | 0 <= i < |m.inputs| :: WellFormed(m.fst, m.inputs[i].items)
  }

  // -- weights ---------------------------------------------------------------------------------------------------------

  /** The summed weight of the inputs below `n` whose ids are in `ids`. */
  function WeightBelow(inputs: seq<Input>, ids: set<nat>, n: nat): nat
    requires n <= |inputs|
  {
    if n == 0 then 0 else WeightBelow(inputs, ids, n - 1) + (if n - 1 in ids then inputs[n - 1].support else 0)
  }

  function Weight(inputs: seq<Input>, ids: set<nat>): nat
  {
    WeightBelow(inputs, ids, |inputs|)
  }

  /** sumInputSupports: the weight of all input sequences. */
  function TotalSupport(inputs: seq<Input>): nat
  {
    if |inputs| == 0 then 0 else TotalSupport(inputs[..|inputs| - 1]) + inputs[|inputs| - 1].support
  }

  lemma {:induction false} WeightBelowAdd(inputs: seq<Input>, ids: set<nat>, id: nat, n: nat)
    requires id !in ids && n <= |inputs|
    ensures WeightBelow(inputs, ids + {id}, n) == WeightBelow(inputs, ids, n) + (if id < n then inputs[id].support else 0)
  {
    if n > 0 {
      WeightBelowAdd(inputs, ids, id, n - 1);
    }
  }

  lemma {:induction false} WeightBelowMono(inputs: seq<Input>, a: set<nat>, b: set<nat>, n: nat)
    requires a <= b && n <= |inputs|
    ensures WeightBelow(inputs, a, n) <= WeightBelow(inputs, b, n)
  {
    if n > 0 {
      WeightBelowMono(inputs, a, b, n - 1);
    }
  }

  lemma {:induction false} WeightBelowTotal(inputs: seq<Input>, ids: set<nat>, n: nat)
    requires n <= |inputs|
    ensures WeightBelow(inputs, ids, n) <= TotalSupport(inputs[..n])
  {
    if n > 0 {
      WeightBelowTotal(inputs, ids, n - 1);
      assert inputs[..n][..n - 1] == inputs[..n - 1];
    }
  }

  // -- reference semantics ---------------------------------------------------------------------------------------------

  /** The outputs of input sequence i: those of the runs from the initial state at position 0. */
  function Out(m: Miner, i: nat): set<seq<int>>
    requires i < |m.inputs|
  {
    Outputs(m.fst, m.pivotItem, m.inputs[i].items, 0, m.fst.initial)
  }

  /** The input sequences that have `pattern` among their outputs. */
  function Matching(m: Miner, pattern: seq<int>): set<nat>
  {
    set i: nat | i < |m.inputs| && pattern in Out(m, i)
  }

  /** The support of a pattern: the weight of the input sequences that output it. */
  function Support(m: Miner, pattern: seq<int>): nat
  {
    Weight(m.inputs, Matching(m, pattern))
  }

  /** No output of input i starts with `prefix`. */
  ghost predicate NoOutputs(m: Miner, prefix: seq<int>, i: nat)
    requires i < |m.inputs|
  {
    forall w :: prefix + w !in Out(m, i)
  }

  predicate SnapsWithin(snaps: seq<Snap>, lo: nat, hi: nat)
  {
    forall k | 0 <= k < |snaps| :: lo <= snaps[k].pos <= hi
  }

  /** The outputs of the runs from the snapshots. */
  function SnapOuts(m: Miner, i: nat, snaps: seq<Snap>): set<seq<int>>
    requires i < |m.inputs| && SnapsWithin(snaps, 0, |m.inputs[i].items|)
  {
    if |snaps| == 0 then {}
    else Outputs(m.fst, m.pivotItem, m.inputs[i].items, snaps[0].pos, snaps[0].state) + SnapOuts(m, i, snaps[1..])
  }

  /**
   The snapshots of input i stand for `prefix`: the outputs from them are
   exactly the rests of the outputs of input i that start with `prefix`.
   */
  ghost predicate Represents(m: Miner, prefix: seq<int>, i: nat, snaps: seq<Snap>)
    requires i < |m.inputs|
  {
    && SnapsWithin(snaps, |prefix|, |m.inputs[i].items|)
    && forall w :: w in SnapOuts(m, i, snaps) <==> prefix + w in Out(m, i)
  }

  lemma {:induction false} SnapOutsMember(m: Miner, i: nat, snaps: seq<Snap>, w: seq<int>)
    requires i < |m.inputs| && SnapsWithin(snaps, 0, |m.inputs[i].items|)
    ensures w in SnapOuts(m, i, snaps) <==>
            exists k | 0 <= k < |snaps| :: w in Outputs(m.fst, m.pivotItem, m.inputs[i].items, snaps[k].pos, snaps[k].state)
  {
    if |snaps| > 0 {
      SnapOutsMember(m, i, snaps[1..], w);
      if w in SnapOuts(m, i, snaps[1..]) {
        var k :| 0 <= k < |snaps| - 1 && w in Outputs(m.fst, m.pivotItem, m.inputs[i].items, snaps[1..][k].pos, snaps[1..][k].state);
        assert snaps[1..][k] == snaps[k + 1];
      }
      if exists k | 0 <= k < |snaps| :: w in Outputs(m.fst, m.pivotItem, m.inputs[i].items, snaps[k].pos, snaps[k].state) {
        var k :| 0 <= k < |snaps| && w in Outputs(m.fst, m.pivotItem, m.inputs[i].items, snaps[k].pos, snaps[k].state);
        if k > 0 {
          assert snaps[1..][k - 1] == snaps[k];
        }
      }
    }
  }

  // -- the step over all snapshots of one input ------------------------------------------------------------------------

  /** The steps from every snapshot of a posting, in order: reached if any reached, the moves of all. */
  function StepAll(m: Miner, i: nat, snaps: seq<Snap>): (r: StepResult)
    requires i < |m.inputs|
    ensures forall mv | mv in r.moves ::
              && mv.pos <= |m.inputs[i].items| && mv.item != 0 && OnePassAdmits(m.pivotItem, mv.item)
              && exists k | 0 <= k < |snaps| :: snaps[k].pos < mv.pos
  {
    if |snaps| == 0 then NoMoves
    else
      var r := Join(StepTraditional(m.fst, m.pivotItem, m.inputs[i].items, snaps[0].pos, snaps[0].state),
                    StepAll(m, i, snaps[1..]));
      assert forall k | 0 <= k < |snaps| - 1 :: snaps[1..][k] == snaps[k + 1];
      r
  }

  /** The combined step accounts for the outputs of all the snapshots. */
  lemma {:induction false} StepAllCorrect(m: Miner, i: nat, snaps: seq<Snap>)
    requires i < |m.inputs| && WellFormed(m.fst, m.inputs[i].items) && SnapsWithin(snaps, 0, |m.inputs[i].items|)
    ensures Decomposes(m.fst, m.pivotItem, m.inputs[i].items, StepAll(m, i, snaps), SnapOuts(m, i, snaps))
  {
    var input := m.inputs[i].items;
    if |snaps| == 0 {
      assert Decomposes(m.fst, m.pivotItem, input, NoMoves, {});
    } else {
      StepTraditionalCorrect(m.fst, m.pivotItem, input, snaps[0].pos, snaps[0].state);
      StepAllCorrect(m, i, snaps[1..]);
      JoinDecomposes(m.fst, m.pivotItem, input,
                     StepTraditional(m.fst, m.pivotItem, input, snaps[0].pos, snaps[0].state),
                     Outputs(m.fst, m.pivotItem, input, snaps[0].pos, snaps[0].state),
                     StepAll(m, i, snaps[1..]), SnapOuts(m, i, snaps[1..]));
    }
  }

  /** An input reaches a final state from snapshots that stand for `prefix` exactly when it outputs `prefix`. */
  lemma ReachedMatches(m: Miner, prefix: seq<int>, i: nat, snaps: seq<Snap>)
    requires i < |m.inputs| && WellFormed(m.fst, m.inputs[i].items) && Represents(m, prefix, i, snaps)
    ensures StepAll(m, i, snaps).reached <==> i in Matching(m, prefix)
  {
    StepAllCorrect(m, i, snaps);
    assert prefix + [] == prefix;
  }

  /**
   The moves for item o continue at snapshots that stand for `prefix` + [o];
   without such moves no output of the input starts with `prefix` + [o].
   */
  lemma ChildRepresents(m: Miner, prefix: seq<int>, i: nat, snaps: seq<Snap>, o: int, childSnaps: seq<Snap>)
    requires i < |m.inputs| && WellFormed(m.fst, m.inputs[i].items) && Represents(m, prefix, i, snaps)
    requires SnapSet(childSnaps) == SnapsOf(StepAll(m, i, snaps).moves, o)
    ensures Represents(m, prefix + [o], i, childSnaps)
  {
    ChildWithin(m, prefix, i, snaps, o, childSnaps);
    forall w ensures w in SnapOuts(m, i, childSnaps) <==> (prefix + [o]) + w in Out(m, i) {
      ChildOutsSound(m, prefix, i, snaps, o, childSnaps, w);
      ChildOutsComplete(m, prefix, i, snaps, o, childSnaps, w);
    }
  }

  lemma ChildWithin(m: Miner, prefix: seq<int>, i: nat, snaps: seq<Snap>, o: int, childSnaps: seq<Snap>)
    requires i < |m.inputs| && Represents(m, prefix, i, snaps)
    requires SnapSet(childSnaps) == SnapsOf(StepAll(m, i, snaps).moves, o)
    ensures SnapsWithin(childSnaps, |prefix + [o]|, |m.inputs[i].items|)
  {
    var r := StepAll(m, i, snaps);
    forall k | 0 <= k < |childSnaps| ensures |prefix + [o]| <= childSnaps[k].pos <= |m.inputs[i].items| {
      assert childSnaps[k] in SnapSet(childSnaps);
      var mv :| mv in r.moves && mv.item == o && childSnaps[k] == Snap(mv.state, mv.pos);
      var k2 :| 0 <= k2 < |snaps| && snaps[k2].pos < mv.pos;
    }
  }

  lemma ChildOutsSound(m: Miner, prefix: seq<int>, i: nat, snaps: seq<Snap>, o: int, childSnaps: seq<Snap>, w: seq<int>)
    requires i < |m.inputs| && WellFormed(m.fst, m.inputs[i].items) && Represents(m, prefix, i, snaps)
    requires SnapSet(childSnaps) == SnapsOf(StepAll(m, i, snaps).moves, o)
    requires SnapsWithin(childSnaps, 0, |m.inputs[i].items|)
    ensures w in SnapOuts(m, i, childSnaps) ==> (prefix + [o]) + w in Out(m, i)
  {
    var input := m.inputs[i].items;
    var r := StepAll(m, i, snaps);
    SnapOutsMember(m, i, childSnaps, w);
    if w in SnapOuts(m, i, childSnaps) {
      StepAllCorrect(m, i, snaps);
      assert (prefix + [o]) + w == prefix + ([o] + w);
      var k :| 0 <= k < |childSnaps| && w in Outputs(m.fst, m.pivotItem, input, childSnaps[k].pos, childSnaps[k].state);
      assert childSnaps[k] in SnapSet(childSnaps);
      var mv :| mv in r.moves && mv.item == o && childSnaps[k] == Snap(mv.state, mv.pos);
      assert Continues(m.fst, m.pivotItem, input, r.moves, o, w);
    }
  }

  lemma ChildOutsComplete(m: Miner, prefix: seq<int>, i: nat, snaps: seq<Snap>, o: int, childSnaps: seq<Snap>, w: seq<int>)
    requires i < |m.inputs| && WellFormed(m.fst, m.inputs[i].items) && Represents(m, prefix, i, snaps)
    requires SnapSet(childSnaps) == SnapsOf(StepAll(m, i, snaps).moves, o)
    requires SnapsWithin(childSnaps, 0, |m.inputs[i].items|)
    ensures (prefix + [o]) + w in Out(m, i) ==> w in SnapOuts(m, i, childSnaps)
  {
    var input := m.inputs[i].items;
    var r := StepAll(m, i, snaps);
    SnapOutsMember(m, i, childSnaps, w);
    if (prefix + [o]) + w in Out(m, i) {
      StepAllCorrect(m, i, snaps);
      assert (prefix + [o]) + w == prefix + ([o] + w);
      assert [o] + w in SnapOuts(m, i, snaps);
      assert Continues(m.fst, m.pivotItem, input, r.moves, o, w);
      var mv :| mv in r.moves && mv.item == o && mv.pos <= |input| && w in Outputs(m.fst, m.pivotItem, input, mv.pos, mv.state);
      assert Snap(mv.state, mv.pos) in SnapSet(childSnaps);
      var k :| 0 <= k < |childSnaps| && childSnaps[k] == Snap(mv.state, mv.pos);
    }
  }

  lemma NoChildNoOutputs(m: Miner, prefix: seq<int>, i: nat, snaps: seq<Snap>, o: int)
    requires i < |m.inputs| && WellFormed(m.fst, m.inputs[i].items) && Represents(m, prefix, i, snaps)
    requires !HasItem(StepAll(m, i, snaps).moves, o)
    ensures NoOutputs(m, prefix + [o], i)
  {
    var r := StepAll(m, i, snaps);
    StepAllCorrect(m, i, snaps);
    forall w ensures (prefix + [o]) + w !in Out(m, i) {
      assert (prefix + [o]) + w == prefix + ([o] + w);
      assert !Continues(m.fst, m.pivotItem, m.inputs[i].items, r.moves, o, w);
    }
  }

  lemma NoOutputsExtend(m: Miner, prefix: seq<int>, i: nat, o: int)
    requires i < |m.inputs| && NoOutputs(m, prefix, i)
    ensures NoOutputs(m, prefix + [o], i)
  {
    forall w ensures (prefix + [o]) + w !in Out(m, i) {
      assert (prefix + [o]) + w == prefix + ([o] + w);
    }
  }

  // -- what a node knows -----------------------------------------------------------------------------------------------

  /** A posting of an input in range, with at least one snapshot, the snapshots standing for `prefix`. */
  ghost predicate PostingOk(m: Miner, prefix: seq<int>, p: Posting)
  {
    p.inputId < |m.inputs| && |p.snaps| > 0 && Represents(m, prefix, p.inputId, p.snaps)
  }

  /**
   A posting list for `prefix`: input ids strictly ascending, every posting
   sound, and every input below `hi` without a posting has no output
   starting with `prefix`.
   */
  ghost predicate PostingsUpTo(m: Miner, prefix: seq<int>, postings: seq<Posting>, hi: nat)
  {
    && (forall a, b | 0 <= a < b < |postings| :: postings[a].inputId < postings[b].inputId)
    && (forall j | 0 <= j < |postings| :: PostingOk(m, prefix, postings[j]))
    && (forall i: nat | i < hi && i < |m.inputs| && i !in Ids(postings) :: NoOutputs(m, prefix, i))
  }

  ghost predicate PostingsOk(m: Miner, prefix: seq<int>, postings: seq<Posting>)
  {
    PostingsUpTo(m, prefix, postings, |m.inputs|)
  }

  /** A child of the node for `prefix`, as far as the inputs below `hi` are concerned. */
  ghost predicate ChildUpTo(m: Miner, prefix: seq<int>, c: Child, hi: nat)
  {
    && c.prefixSupport == Weight(m.inputs, Ids(c.postings))
    && PostingsUpTo(m, prefix + [c.item], c.postings, hi)
  }

  /**
   A child of the node for `prefix`: its posting list describes exactly the
   inputs that have an output starting with prefix + [item], and its prefix
   support is their weight.
   */
  ghost predicate ChildOk(m: Miner, prefix: seq<int>, c: Child)
  {
    |c.postings| > 0 && ChildUpTo(m, prefix, c, |m.inputs|)
  }

  ghost predicate NodeOk(m: Miner, prefix: seq<int>, children: seq<Child>)
  {
    forall k | 0 <= k < |children| :: ChildOk(m, prefix, children[k])
  }

  /** Every item without a child begins no output after `prefix` of the inputs below `hi`. */
  ghost predicate CoveredUpTo(m: Miner, prefix: seq<int>, children: seq<Child>, hi: nat)
  {
    forall o, i: nat | i < hi && i < |m.inputs| && !HasChild(children, o) :: NoOutputs(m, prefix + [o], i)
  }

  /** The loop invariant of Grow after the inputs below `hi`. */
  ghost predicate GrowInv(m: Miner, prefix: seq<int>, children: seq<Child>, hi: nat)
  {
    && DistinctItems(children)
    && IdsBelow(children, hi)
    && (forall k | 0 <= k < |children| :: |children[k].postings| > 0 && ChildUpTo(m, prefix, children[k], hi))
    && CoveredUpTo(m, prefix, children, hi)
  }

  /** The input id after the first j postings have been processed: the next posting's, or past the last input. */
  function Bound(m: Miner, postings: seq<Posting>, j: nat): nat
  {
    if j < |postings| then postings[j].inputId else |m.inputs|
  }

  /** Inputs strictly between two consecutive postings have no posting. */
  lemma GapAbsent(m: Miner, prefix: seq<int>, postings: seq<Posting>, j: nat, i: nat)
    requires PostingsOk(m, prefix, postings) && j < |postings|
    requires postings[j].inputId < i < Bound(m, postings, j + 1)
    ensures i < |m.inputs| && NoOutputs(m, prefix, i)
  {
    if j + 1 < |postings| {
      assert PostingOk(m, prefix, postings[j + 1]);
    }
    forall t | 0 <= t < |postings| ensures postings[t].inputId != i {
      if t > j + 1 {
        assert postings[j + 1].inputId < postings[t].inputId;
      }
    }
    assert i !in Ids(postings);
  }

  lemma IdsSnoc(postings: seq<Posting>, p: Posting)
    ensures Ids(postings + [p]) == Ids(postings) + {p.inputId}
  {
    var s := postings + [p];
    forall x | x in Ids(postings) ensures x in Ids(s) {
      var j :| 0 <= j < |postings| && postings[j].inputId == x;
      assert s[j] == postings[j];
    }
    assert s[|postings|] == p;
  }

  /** A child no move of input `id` reaches keeps what it knows, now up to the next posting. */
  lemma GrowUntouched(m: Miner, prefix: seq<int>, postings: seq<Posting>, j: nat, c: Child)
    requires InputsOk(m) && PostingsOk(m, prefix, postings) && j < |postings|
    requires ChildUpTo(m, prefix, c, postings[j].inputId)
    requires !HasItem(StepAll(m, postings[j].inputId, postings[j].snaps).moves, c.item)
    requires postings[j].inputId !in Ids(c.postings)
    ensures ChildUpTo(m, prefix, c, Bound(m, postings, j + 1))
  {
    var id := postings[j].inputId;
    assert PostingOk(m, prefix, postings[j]);
    forall i: nat | i < Bound(m, postings, j + 1) && i < |m.inputs| && i !in Ids(c.postings)
      ensures NoOutputs(m, prefix + [c.item], i)
    {
      if i == id {
        NoChildNoOutputs(m, prefix, id, postings[j].snaps, c.item);
      } else if i > id {
        GapAbsent(m, prefix, postings, j, i);
        NoOutputsExtend(m, prefix, i, c.item);
      }
    }
  }

  /** Appending a posting for `id` to a list of postings for inputs before `id`. */
  lemma SnocPostings(m: Miner, pat: seq<int>, bp: seq<Posting>, np: Posting, hi: nat)
    requires PostingsUpTo(m, pat, bp, np.inputId) && PostingOk(m, pat, np)
    requires forall t | 0 <= t < |bp| :: bp[t].inputId < np.inputId
    requires forall i: nat | np.inputId < i < hi && i < |m.inputs| :: NoOutputs(m, pat, i)
    ensures PostingsUpTo(m, pat, bp + [np], hi)
    ensures forall t | 0 <= t < |bp + [np]| :: (bp + [np])[t].inputId <= np.inputId
  {
    var a := bp + [np];
    IdsSnoc(bp, np);
    forall t | 0 <= t < |a| ensures PostingOk(m, pat, a[t]) {
      if t < |bp| { assert a[t] == bp[t]; }
    }
    forall t1, t2 | 0 <= t1 < t2 < |a| ensures a[t1].inputId < a[t2].inputId {
      assert a[t1] == bp[t1];
      if t2 < |bp| { assert a[t2] == bp[t2]; }
    }
    forall t | 0 <= t < |a| ensures a[t].inputId <= np.inputId {
      if t < |bp| { assert a[t] == bp[t]; }
    }
    forall i: nat | i < hi && i < |m.inputs| && i !in Ids(a) ensures NoOutputs(m, pat, i) {
      if i < np.inputId {
        assert i !in Ids(bp);
      }
    }
  }

  /** The shape of a child after Added: one posting more, with snapshots, and its weight counted once. */
  lemma AddedPosting(m: Miner, b: Child, a: Child, id: nat, moves: seq<Move>)
    requires id < |m.inputs| && Added(b, a, id, m.inputs[id].support, moves)
    requires b.prefixSupport == Weight(m.inputs, Ids(b.postings))
    requires forall t | 0 <= t < |b.postings| :: b.postings[t].inputId < id
    ensures a.postings == b.postings + [a.postings[|b.postings|]]
    ensures |a.postings[|b.postings|].snaps| > 0
    ensures a.prefixSupport == Weight(m.inputs, Ids(a.postings))
  {
    var n := |b.postings|;
    var np := a.postings[n];
    assert a.postings == a.postings[..n] + [a.postings[n]];
    IdsSnoc(b.postings, np);
    WeightBelowAdd(m.inputs, Ids(b.postings), id, |m.inputs|);
    HasItemSnaps(moves, a.item);
  }

  /**
   A child the moves of input `id` reach gets a posting for `id` whose
   snapshots stand for its pattern; what it knew before `id` stays true.
   */
  lemma GrowTouched(m: Miner, prefix: seq<int>, postings: seq<Posting>, j: nat, b: Child, a: Child)
    requires InputsOk(m) && PostingsOk(m, prefix, postings) && j < |postings|
    requires ChildUpTo(m, prefix, b, postings[j].inputId)
    requires forall t | 0 <= t < |b.postings| :: b.postings[t].inputId < postings[j].inputId
    requires Added(b, a, postings[j].inputId, m.inputs[postings[j].inputId].support,
                   StepAll(m, postings[j].inputId, postings[j].snaps).moves)
    ensures |a.postings| > 0 && ChildUpTo(m, prefix, a, Bound(m, postings, j + 1))
    ensures forall t | 0 <= t < |a.postings| :: a.postings[t].inputId <= postings[j].inputId
  {
    var id := postings[j].inputId;
    var snaps := postings[j].snaps;
    var moves := StepAll(m, id, snaps).moves;
    var n := |b.postings|;
    var np := a.postings[n];
    var pat := prefix + [a.item];
    assert PostingOk(m, prefix, postings[j]);
    AddedPosting(m, b, a, id, moves);
    ChildRepresents(m, prefix, id, snaps, a.item, np.snaps);
    forall i: nat | id < i < Bound(m, postings, j + 1) && i < |m.inputs| ensures NoOutputs(m, pat, i) {
      GapAbsent(m, prefix, postings, j, i);
      NoOutputsExtend(m, prefix, i, a.item);
    }
    SnocPostings(m, pat, b.postings, np, Bound(m, postings, j + 1));
  }


  lemma {:induction false} WeightBelowEmpty(inputs: seq<Input>, n: nat)
    requires n <= |inputs|
    ensures WeightBelow(inputs, {}, n) == 0
  {
    if n > 0 {
      WeightBelowEmpty(inputs, n - 1);
    }
  }

  /** A child after the moves of posting j: touched, untouched or new. */
  lemma GrowChild(m: Miner, prefix: seq<int>, postings: seq<Posting>, j: nat, before: seq<Child>, after: seq<Child>, k: nat)
    requires InputsOk(m) && PostingsOk(m, prefix, postings) && j < |postings|
    requires GrowInv(m, prefix, before, postings[j].inputId)
    requires AddedAll(before, after, postings[j].inputId, m.inputs[postings[j].inputId].support,
                      StepAll(m, postings[j].inputId, postings[j].snaps).moves)
    requires k < |after|
    ensures |after[k].postings| > 0 && ChildUpTo(m, prefix, after[k], Bound(m, postings, j + 1))
    ensures forall t | 0 <= t < |after[k].postings| :: after[k].postings[t].inputId <= postings[j].inputId
  {
    var id := postings[j].inputId;
    var moves := StepAll(m, id, postings[j].snaps).moves;
    assert PostingOk(m, prefix, postings[j]);
    if k < |before| {
      assert |before[k].postings| > 0 && ChildUpTo(m, prefix, before[k], id);
      if HasItem(moves, before[k].item) {
        GrowTouched(m, prefix, postings, j, before[k], after[k]);
      } else {
        assert id !in Ids(before[k].postings);
        GrowUntouched(m, prefix, postings, j, before[k]);
      }
    } else {
      var o := after[k].item;
      var b := Child(o, 0, []);
      assert !HasChild(before, o) by {
        forall k2 | 0 <= k2 < |before| ensures before[k2].item != o {
          if HasItem(moves, before[k2].item) {
            assert Added(before[k2], after[k2], id, m.inputs[id].support, moves);
          }
          assert after[k2].item == before[k2].item;
        }
      }
      WeightBelowEmpty(m.inputs, |m.inputs|);
      assert Ids(b.postings) == {};
      assert ChildUpTo(m, prefix, b, id);
      GrowTouched(m, prefix, postings, j, b, after[k]);
    }
  }

  /** Items without a child after posting j begin no output of the inputs up to the next posting. */
  lemma GrowCovered(m: Miner, prefix: seq<int>, postings: seq<Posting>, j: nat, before: seq<Child>, after: seq<Child>)
    requires InputsOk(m) && PostingsOk(m, prefix, postings) && j < |postings|
    requires CoveredUpTo(m, prefix, before, postings[j].inputId)
    requires AddedAll(before, after, postings[j].inputId, m.inputs[postings[j].inputId].support,
                      StepAll(m, postings[j].inputId, postings[j].snaps).moves)
    ensures CoveredUpTo(m, prefix, after, Bound(m, postings, j + 1))
  {
    var id := postings[j].inputId;
    var moves := StepAll(m, id, postings[j].snaps).moves;
    assert PostingOk(m, prefix, postings[j]);
    forall o, i: nat | i < Bound(m, postings, j + 1) && i < |m.inputs| && !HasChild(after, o)
      ensures NoOutputs(m, prefix + [o], i)
    {
      assert !HasItem(moves, o);
      assert !HasChild(before, o);
      if i == id {
        NoChildNoOutputs(m, prefix, id, postings[j].snaps, o);
      } else if i > id {
        GapAbsent(m, prefix, postings, j, i);
        NoOutputsExtend(m, prefix, i, o);
      }
    }
  }

  lemma GrowStep(m: Miner, prefix: seq<int>, postings: seq<Posting>, j: nat, before: seq<Child>, after: seq<Child>)
    requires InputsOk(m) && PostingsOk(m, prefix, postings) && j < |postings|
    requires GrowInv(m, prefix, before, postings[j].inputId)
    requires AddedAll(before, after, postings[j].inputId, m.inputs[postings[j].inputId].support,
                      StepAll(m, postings[j].inputId, postings[j].snaps).moves)
    ensures GrowInv(m, prefix, after, Bound(m, postings, j + 1))
  {
    var id := postings[j].inputId;
    assert PostingOk(m, prefix, postings[j]);
    assert id < Bound(m, postings, j + 1);
    forall k | 0 <= k < |after|
      ensures |after[k].postings| > 0 && ChildUpTo(m, prefix, after[k], Bound(m, postings, j + 1))
      ensures forall t | 0 <= t < |after[k].postings| :: after[k].postings[t].inputId < Bound(m, postings, j + 1)
    {
      GrowChild(m, prefix, postings, j, before, after, k);
    }
    GrowCovered(m, prefix, postings, j, before, after);
  }

  /** The support after posting j: the weight of the matching inputs among the first j + 1 postings. */
  lemma SupportStep(m: Miner, prefix: seq<int>, postings: seq<Posting>, j: nat)
    requires InputsOk(m) && PostingsOk(m, prefix, postings) && j < |postings|
    ensures var id := postings[j].inputId;
      Weight(m.inputs, Matching(m, prefix) * Ids(postings[..j + 1]))
      == Weight(m.inputs, Matching(m, prefix) * Ids(postings[..j]))
         + (if StepAll(m, id, postings[j].snaps).reached then m.inputs[id].support else 0)
  {
    var id := postings[j].inputId;
    assert PostingOk(m, prefix, postings[j]);
    ReachedMatches(m, prefix, id, postings[j].snaps);
    assert postings[..j + 1] == postings[..j] + [postings[j]];
    IdsSnoc(postings[..j], postings[j]);
    assert id !in Ids(postings[..j]);
    var before := Matching(m, prefix) * Ids(postings[..j]);
    if id in Matching(m, prefix) {
      assert Matching(m, prefix) * Ids(postings[..j + 1]) == before + {id};
      WeightBelowAdd(m.inputs, before, id, |m.inputs|);
    } else {
      assert Matching(m, prefix) * Ids(postings[..j + 1]) == before;
    }
  }

  /** Every input that outputs `prefix` has a posting. */
  lemma MatchingHasPostings(m: Miner, prefix: seq<int>, postings: seq<Posting>)
    requires PostingsOk(m, prefix, postings)
    ensures Matching(m, prefix) * Ids(postings) == Matching(m, prefix)
  {
    forall i | i in Matching(m, prefix) ensures i in Ids(postings) {
      assert prefix + [] == prefix;
    }
  }

  /**
   The expansion of one child (the body of the loop over the children): the
   steps from every snapshot of every posting, in input order. It yields the
   child's support, which is the support of its pattern, and the child's own
   children, which describe the one-item extensions of the pattern.
   */
  method Grow(m: Miner, prefix: seq<int>, postings: seq<Posting>) returns (support: nat, children: seq<Child>)
    requires InputsOk(m) && PostingsOk(m, prefix, postings)
    ensures support == Support(m, prefix)
    ensures DistinctItems(children) && NodeOk(m, prefix, children) && CoveredUpTo(m, prefix, children, |m.inputs|)
  {
    support := 0;
    children := [];
    var j := 0;
    WeightBelowEmpty(m.inputs, |m.inputs|);
    assert Matching(m, prefix) * Ids(postings[..0]) == {};
    forall i: nat | i < Bound(m, postings, 0) && i < |m.inputs| ensures NoOutputs(m, prefix, i) {
      assert i !in Ids(postings);
    }
    forall o, i: nat | i < Bound(m, postings, 0) && i < |m.inputs| ensures NoOutputs(m, prefix + [o], i) {
      NoOutputsExtend(m, prefix, i, o);
    }
    while j < |postings|
      invariant 0 <= j <= |postings|
      invariant support == Weight(m.inputs, Matching(m, prefix) * Ids(postings[..j]))
      invariant GrowInv(m, prefix, children, Bound(m, postings, j))
    {
      var p := postings[j];
      assert PostingOk(m, prefix, p);
      var r := StepAll(m, p.inputId, p.snaps);
      SupportStep(m, prefix, postings, j);
      if r.reached {
        support := support + m.inputs[p.inputId].support;
      }
      var next := AddMoves(children, p.inputId, m.inputs[p.inputId].support, r.moves);
      GrowStep(m, prefix, postings, j, children, next);
      children := next;
      j := j + 1;
    }
    assert postings[..j] == postings;
    MatchingHasPostings(m, prefix, postings);
  }

  // -- pruning ---------------------------------------------------------------------------------------------------------

  /** `r` is `s` with some elements left out and the others in their order. */
  predicate Subsequence(r: seq<Child>, s: seq<Child>)
    decreases |s|
  {
    || |r| == 0
    || (|s| > 0 && ((r[0] == s[0] && Subsequence(r[1..], s[1..])) || Subsequence(r, s[1..])))
  }

  /**
   pruneInfrequentChildren: keeps, in order, the children whose prefix support
   reaches sigma, so children with distinct items stay distinct.
   */
  function Prune(children: seq<Child>, sigma: nat): (r: seq<Child>)
    ensures forall k | 0 <= k < |r| :: r[k] in children && r[k].prefixSupport >= sigma
    ensures forall c | c in children && c.prefixSupport >= sigma :: c in r
    ensures Subsequence(r, children)
    ensures DistinctItems(children) ==> DistinctItems(r)
  {
    if |children| == 0 then []
    else
      var t := Prune(children[1..], sigma);
      if children[0].prefixSupport >= sigma then
        PruneKept(children, sigma, t);
        [children[0]] + t
      else
        PruneDropped(children, sigma, t);
        t
  }

  /** The step of Prune's recursion when the first child is kept. */
  lemma PruneKept(children: seq<Child>, sigma: nat, t: seq<Child>)
    requires |children| > 0 && children[0].prefixSupport >= sigma
    requires forall k | 0 <= k < |t| :: t[k] in children[1..] && t[k].prefixSupport >= sigma
    requires forall c | c in children[1..] && c.prefixSupport >= sigma :: c in t
    requires Subsequence(t, children[1..])
    requires DistinctItems(children[1..]) ==> DistinctItems(t)
    ensures forall k | 0 <= k < |[children[0]] + t| :: ([children[0]] + t)[k] in children && ([children[0]] + t)[k].prefixSupport >= sigma
    ensures forall c | c in children && c.prefixSupport >= sigma :: c in [children[0]] + t
    ensures Subsequence([children[0]] + t, children)
    ensures DistinctItems(children) ==> DistinctItems([children[0]] + t)
  {
    assert forall c | c in children :: c == children[0] || c in children[1..];
    assert ([children[0]] + t)[1..] == t;
    DistinctTail(children);
    ConsDistinct(children, t);
  }

  /** The step of Prune's recursion when the first child is dropped. */
  lemma PruneDropped(children: seq<Child>, sigma: nat, t: seq<Child>)
    requires |children| > 0 && children[0].prefixSupport < sigma
    requires forall k | 0 <= k < |t| :: t[k] in children[1..] && t[k].prefixSupport >= sigma
    requires forall c | c in children[1..] && c.prefixSupport >= sigma :: c in t
    requires Subsequence(t, children[1..])
    requires DistinctItems(children[1..]) ==> DistinctItems(t)
    ensures forall k | 0 <= k < |t| :: t[k] in children && t[k].prefixSupport >= sigma
    ensures forall c | c in children && c.prefixSupport >= sigma :: c in t
    ensures Subsequence(t, children)
    ensures DistinctItems(children) ==> DistinctItems(t)
  {
    assert forall c | c in children :: c == children[0] || c in children[1..];
    DistinctTail(children);
  }

  lemma DistinctTail(children: seq<Child>)
    requires |children| > 0
    ensures DistinctItems(children) ==> DistinctItems(children[1..])
  {
    if DistinctItems(children) {
      forall a, b | 0 <= a < b < |children| - 1 ensures children[1..][a].item != children[1..][b].item {
        assert children[1..][a] == children[a + 1] && children[1..][b] == children[b + 1];
      }
    }
  }

  /** Putting the first child back in front of children kept from the rest keeps the items distinct. */
  lemma ConsDistinct(children: seq<Child>, t: seq<Child>)
    requires |children| > 0 && forall k | 0 <= k < |t| :: t[k] in children[1..]
    requires DistinctItems(children) ==> DistinctItems(t)
    ensures DistinctItems(children) ==> DistinctItems([children[0]] + t)
  {
    if DistinctItems(children) {
      var r := [children[0]] + t;
      forall k | 0 <= k < |t| ensures t[k].item != children[0].item {
        var i :| 0 <= i < |children[1..]| && children[1..][i] == t[k];
        assert children[1..][i] == children[i + 1];
      }
      forall a, b | 0 <= a < b < |r| ensures r[a].item != r[b].item {
        assert r[b] == t[b - 1];
        if a > 0 {
          assert r[a] == t[a - 1];
        }
      }
    }
  }

  /** No input outside a child's postings outputs an extension of its pattern, so the prefix support bounds the support. */
  lemma SupportBelowPrefix(m: Miner, prefix: seq<int>, c: Child, rest: seq<int>)
    requires ChildOk(m, prefix, c)
    ensures Support(m, prefix + [c.item] + rest) <= c.prefixSupport
  {
    var p := prefix + [c.item] + rest;
    assert Matching(m, p) <= Ids(c.postings);
    WeightBelowMono(m.inputs, Matching(m, p), Ids(c.postings), |m.inputs|);
  }

  /** Every item some frequent pattern extending prefix + [item] starts with has a child after pruning. */
  ghost predicate Complete(m: Miner, prefix: seq<int>, children: seq<Child>)
  {
    forall o, rest :: 0 < Support(m, prefix + [o] + rest) && m.sigma <= Support(m, prefix + [o] + rest) ==> HasChild(children, o)
  }

  lemma PositiveSupportMatches(m: Miner, p: seq<int>)
    requires Support(m, p) > 0
    ensures exists i :: i in Matching(m, p)
  {
    if Matching(m, p) == {} {
      WeightBelowEmpty(m.inputs, |m.inputs|);
    }
  }

  lemma CoveredHasChild(m: Miner, prefix: seq<int>, children: seq<Child>, o: int, w: seq<int>, i: nat)
    requires CoveredUpTo(m, prefix, children, |m.inputs|)
    requires i < |m.inputs| && prefix + [o] + w in Out(m, i)
    ensures HasChild(children, o)
  {
    assert !NoOutputs(m, prefix + [o], i);
  }

  /** Pruning loses no child that a pattern of support sigma or more goes through. */
  lemma PruneComplete(m: Miner, prefix: seq<int>, children: seq<Child>)
    requires NodeOk(m, prefix, children) && CoveredUpTo(m, prefix, children, |m.inputs|)
    ensures NodeOk(m, prefix, Prune(children, m.sigma)) && Complete(m, prefix, Prune(children, m.sigma))
  {
    var r := Prune(children, m.sigma);
    forall k | 0 <= k < |r| ensures ChildOk(m, prefix, r[k]) {
      var k2 :| 0 <= k2 < |children| && children[k2] == r[k];
    }
    forall o, rest | 0 < Support(m, prefix + [o] + rest) && m.sigma <= Support(m, prefix + [o] + rest)
      ensures HasChild(r, o)
    {
      PruneKeepsChild(m, prefix, children, o, rest);
    }
  }

  lemma PruneKeepsChild(m: Miner, prefix: seq<int>, children: seq<Child>, o: int, rest: seq<int>)
    requires NodeOk(m, prefix, children) && CoveredUpTo(m, prefix, children, |m.inputs|)
    requires 0 < Support(m, prefix + [o] + rest) && m.sigma <= Support(m, prefix + [o] + rest)
    ensures HasChild(Prune(children, m.sigma), o)
  {
    var p := prefix + [o] + rest;
    PositiveSupportMatches(m, p);
    var i :| i in Matching(m, p);
    CoveredHasChild(m, prefix, children, o, rest, i);
    var k :| 0 <= k < |children| && children[k].item == o;
    SupportBelowPrefix(m, prefix, children[k], rest);
    KeptHasChild(children, m.sigma, children[k]);
  }

  lemma KeptHasChild(children: seq<Child>, sigma: nat, c: Child)
    requires c in children && c.prefixSupport >= sigma
    ensures HasChild(Prune(children, sigma), c.item)
  {
    var r := Prune(children, sigma);
    var k :| 0 <= k < |r| && r[k] == c;
  }

  // -- expansion -------------------------------------------------------------------------------------------------------

  /** The length of the longest input sequence. */
  function MaxLen(inputs: seq<Input>): (r: nat)
    ensures forall i | 0 <= i < |inputs| :: |inputs[i].items| <= r
  {
    if |inputs| == 0 then 0
    else
      var t := MaxLen(inputs[1..]);
      assert forall i | 1 <= i < |inputs| :: inputs[i] == inputs[1..][i - 1];
      if |inputs[0].items| > t then |inputs[0].items| else t
  }

  /** Patterns are never longer than the inputs: a child's snapshots are at least as far in as its pattern is long. */
  lemma ChildDepth(m: Miner, prefix: seq<int>, c: Child)
    requires ChildOk(m, prefix, c)
    ensures |prefix| + 1 <= MaxLen(m.inputs)
  {
    assert PostingOk(m, prefix + [c.item], c.postings[0]);
    var p := c.postings[0];
    assert |prefix + [c.item]| <= p.snaps[0].pos <= |m.inputs[p.inputId].items|;
  }

  /** How much deeper the search can go below `prefix`. */
  function Height(m: Miner, prefix: seq<int>): nat
  {
    if |prefix| <= MaxLen(m.inputs) then MaxLen(m.inputs) - |prefix| else 0
  }

  /** A written pattern: it extends `prefix`, its support is its support in the database, at least sigma, and it passes the pivot filter. */
  ghost predicate Found(m: Miner, prefix: seq<int>, pat: Pattern)
  {
    && |prefix| < |pat.items| && pat.items[..|prefix|] == prefix
    && pat.support == Support(m, pat.items) && m.sigma <= pat.support
    && PivotFilter(m.pivotItem, pat.items)
  }

  /** A pattern the search must write: it extends `prefix`, occurs, has support at least sigma and passes the pivot filter. */
  ghost predicate Wanted(m: Miner, prefix: seq<int>, p: seq<int>)
  {
    && |prefix| < |p| && p[..|prefix|] == prefix
    && 0 < Support(m, p) && m.sigma <= Support(m, p)
    && PivotFilter(m.pivotItem, p)
  }

  /** No two written patterns have the same items: every pattern is written at most once. */
  predicate DistinctPatterns(patterns: seq<Pattern>)
  {
    forall a, b | 0 <= a < b < |patterns| :: patterns[a].items != patterns[b].items
  }

  predicate Emitted(patterns: seq<Pattern>, p: seq<int>)
  {
    exists k | 0 <= k < |patterns| :: patterns[k].items == p
  }

  lemma FoundLift(m: Miner, prefix: seq<int>, o: int, pat: Pattern)
    requires Found(m, prefix + [o], pat)
    ensures Found(m, prefix, pat)
  {
    assert pat.items[..|prefix|] == pat.items[..|prefix| + 1][..|prefix|];
  }

  lemma WantedSplit(m: Miner, prefix: seq<int>, p: seq<int>)
    requires Wanted(m, prefix, p)
    ensures p == prefix + [p[|prefix|]] + p[|prefix| + 1..]
    ensures |p| > |prefix| + 1 ==> Wanted(m, prefix + [p[|prefix|]], p)
  {
    assert p == p[..|prefix|] + [p[|prefix|]] + p[|prefix| + 1..];
    assert p[..|prefix| + 1] == p[..|prefix|] + [p[|prefix|]];
  }

  /**
   expandTraditional: for every child in order, set the last prefix item to
   the child's item, grow the child, write the prefix with its support if
   the support reaches sigma and the prefix passes the pivot filter, prune
   the child's children and expand them; finally remove the placeholder, so
   that the prefix is as it was. The written patterns are exactly the
   wanted extensions of the prefix, each written once: the children have
   distinct items, as they are keyed by item.
   */
  method Expand(m: Miner, prefix: seq<int>, children: seq<Child>) returns (patterns: seq<Pattern>, restored: seq<int>)
    requires InputsOk(m) && NodeOk(m, prefix, children) && Complete(m, prefix, children) && DistinctItems(children)
    ensures restored == prefix
    ensures forall k | 0 <= k < |patterns| :: Found(m, prefix, patterns[k])
    ensures forall p :: Wanted(m, prefix, p) ==> Emitted(patterns, p)
    ensures DistinctPatterns(patterns)
    decreases Height(m, prefix)
  {
    patterns := [];
    var cur := prefix + [-1];
    var j := 0;
    while j < |children|
      invariant 0 <= j <= |children|
      invariant |cur| == |prefix| + 1 && cur[..|prefix|] == prefix
      invariant forall k | 0 <= k < |patterns| :: Found(m, prefix, patterns[k])
      invariant forall p :: Wanted(m, prefix, p) && HasChild(children[..j], p[|prefix|]) ==> Emitted(patterns, p)
      invariant DistinctPatterns(patterns)
      invariant forall k | 0 <= k < |patterns| :: HasChild(children[..j], patterns[k].items[|prefix|])
    {
      var c := children[j];
      cur := cur[|prefix| := c.item];
      assert cur == prefix + [c.item] by {
        assert cur == cur[..|prefix|] + [cur[|prefix|]];
      }
      assert ChildOk(m, prefix, c);
      var support, grand := Grow(m, cur, c.postings);
      var written: seq<Pattern> := [];
      if support >= m.sigma && PivotFilter(m.pivotItem, cur) {
        written := [Pattern(cur, support)];
      }
      var pruned := Prune(grand, m.sigma);
      PruneComplete(m, cur, grand);
      ChildDepth(m, prefix, c);
      var sub, back := Expand(m, cur, pruned);
      ExpandStep(m, prefix, children, j, patterns, written, sub, support);
      ExpandDistinct(m, prefix, children, j, patterns, written, sub);
      patterns := patterns + written + sub;
      cur := back;
      j := j + 1;
    }
    assert children[..j] == children;
    forall p | Wanted(m, prefix, p) ensures Emitted(patterns, p) {
      WantedSplit(m, prefix, p);
      var rest := p[|prefix| + 1..];
      assert Support(m, prefix + [p[|prefix|]] + rest) == Support(m, p);
    }
    restored := cur[..|prefix|];
  }

  /** The loop invariant of Expand after child j. */
  lemma ExpandStep(m: Miner, prefix: seq<int>, children: seq<Child>, j: nat,
                   patterns: seq<Pattern>, written: seq<Pattern>, sub: seq<Pattern>, support: nat)
    requires j < |children|
    requires support == Support(m, prefix + [children[j].item])
    requires written == if support >= m.sigma && PivotFilter(m.pivotItem, prefix + [children[j].item])
                        then [Pattern(prefix + [children[j].item], support)] else []
    requires forall k | 0 <= k < |patterns| :: Found(m, prefix, patterns[k])
    requires forall p :: Wanted(m, prefix, p) && HasChild(children[..j], p[|prefix|]) ==> Emitted(patterns, p)
    requires forall k | 0 <= k < |sub| :: Found(m, prefix + [children[j].item], sub[k])
    requires forall p :: Wanted(m, prefix + [children[j].item], p) ==> Emitted(sub, p)
    ensures forall k | 0 <= k < |patterns + written + sub| :: Found(m, prefix, (patterns + written + sub)[k])
    ensures forall p :: Wanted(m, prefix, p) && HasChild(children[..j + 1], p[|prefix|]) ==> Emitted(patterns + written + sub, p)
  {
    var o := children[j].item;
    var all := patterns + written + sub;
    forall k | 0 <= k < |all| ensures Found(m, prefix, all[k]) {
      if k < |patterns| {
        assert all[k] == patterns[k];
      } else if k < |patterns| + |written| {
        assert all[k] == written[k - |patterns|];
        assert (prefix + [o])[..|prefix|] == prefix;
      } else {
        assert all[k] == sub[k - |patterns| - |written|];
        FoundLift(m, prefix, o, sub[k - |patterns| - |written|]);
      }
    }
    forall p | Wanted(m, prefix, p) && HasChild(children[..j + 1], p[|prefix|]) ensures Emitted(all, p) {
      WantedSplit(m, prefix, p);
      if HasChild(children[..j], p[|prefix|]) {
        var k :| 0 <= k < |patterns| && patterns[k].items == p;
        assert all[k] == patterns[k];
      } else {
        var k :| 0 <= k < j + 1 && children[..j + 1][k].item == p[|prefix|];
        assert p[|prefix|] == o;
        if |p| == |prefix| + 1 {
          assert p == prefix + [o];
          assert all[|patterns|] == written[0];
        } else {
          var k2 :| 0 <= k2 < |sub| && sub[k2].items == p;
          assert all[|patterns| + |written| + k2] == sub[k2];
        }
      }
    }
  }

  /**
   The patterns of child j start with its item, which no earlier child has,
   so they differ from everything written before; the child's own pattern is
   shorter than those of its subtree.
   */
  lemma ExpandDistinct(m: Miner, prefix: seq<int>, children: seq<Child>, j: nat,
                       patterns: seq<Pattern>, written: seq<Pattern>, sub: seq<Pattern>)
    requires j < |children| && DistinctItems(children)
    requires DistinctPatterns(patterns) && DistinctPatterns(sub)
    requires forall k | 0 <= k < |patterns| :: |prefix| < |patterns[k].items| && HasChild(children[..j], patterns[k].items[|prefix|])
    requires written == [] || written == [Pattern(prefix + [children[j].item], written[0].support)]
    requires forall k | 0 <= k < |sub| :: Found(m, prefix + [children[j].item], sub[k])
    ensures DistinctPatterns(patterns + written + sub)
    ensures forall k | 0 <= k < |patterns + written + sub| ::
              && |prefix| < |(patterns + written + sub)[k].items|
              && HasChild(children[..j + 1], (patterns + written + sub)[k].items[|prefix|])
  {
    var o := children[j].item;
    var all := patterns + written + sub;
    var news := written + sub;
    assert forall k | 0 <= k < |news| :: |prefix| < |news[k].items| && news[k].items[|prefix|] == o by {
      forall k | 0 <= k < |news| ensures |prefix| < |news[k].items| && news[k].items[|prefix|] == o {
        if k < |written| {
          assert news[k] == written[0];
        } else {
          var q := sub[k - |written|];
          assert news[k] == q;
          assert q.items[..|prefix| + 1] == prefix + [o];
          assert q.items[|prefix|] == q.items[..|prefix| + 1][|prefix|];
        }
      }
    }
    assert DistinctPatterns(news) by {
      forall a, b | 0 <= a < b < |news| ensures news[a].items != news[b].items {
        if b < |written| {
        } else if a < |written| {
          assert news[a] == written[0] && news[b] == sub[b - |written|];
          assert |sub[b - |written|].items| > |prefix| + 1;
        } else {
          assert news[a] == sub[a - |written|] && news[b] == sub[b - |written|];
        }
      }
    }
    forall k | 0 <= k < |patterns| ensures patterns[k].items[|prefix|] != o {
      assert HasChild(children[..j], patterns[k].items[|prefix|]);
      var i :| 0 <= i < |children[..j]| && children[..j][i].item == patterns[k].items[|prefix|];
      assert children[..j][i] == children[i];
    }
    assert all == patterns + news;
    forall a, b | 0 <= a < b < |all| ensures all[a].items != all[b].items {
      if b < |patterns| {
        assert all[a] == patterns[a] && all[b] == patterns[b];
      } else if a < |patterns| {
        assert all[a] == patterns[a] && all[b] == news[b - |patterns|];
      } else {
        assert all[a] == news[a - |patterns|] && all[b] == news[b - |patterns|];
      }
    }
    forall k | 0 <= k < |all| ensures |prefix| < |all[k].items| && HasChild(children[..j + 1], all[k].items[|prefix|]) {
      if k < |patterns| {
        assert all[k] == patterns[k];
        var i :| 0 <= i < |children[..j]| && children[..j][i].item == patterns[k].items[|prefix|];
        assert children[..j + 1][i] == children[..j][i];
      } else {
        assert all[k] == news[k - |patterns|];
        assert children[..j + 1][j] == children[j];
      }
    }
  }

  // -- the mining run --------------------------------------------------------------------------------------------------

  /** The root's projected database: every input sequence at the initial state and position 0. */
  function RootPostings(m: Miner): (r: seq<Posting>)
    ensures |r| == |m.inputs|
    ensures forall i | 0 <= i < |r| :: r[i] == Posting(i, [Snap(m.fst.initial, 0)])
  {
    seq(|m.inputs|, i requires 0 <= i < |m.inputs| => Posting(i, [Snap(m.fst.initial, 0)]))
  }

  lemma RootPostingsOk(m: Miner)
    ensures PostingsOk(m, [], RootPostings(m))
  {
    var r := RootPostings(m);
    forall i | 0 <= i < |r| ensures PostingOk(m, [], r[i]) {
      var snaps := [Snap(m.fst.initial, 0)];
      assert SnapOuts(m, i, snaps) == Out(m, i) by {
        assert snaps[1..] == [];
      }
      forall w ensures w in SnapOuts(m, i, snaps) <==> [] + w in Out(m, i) {
        assert [] + w == w;
      }
    }
    forall i: nat | i < |m.inputs| ensures i in Ids(r) {
      assert r[i].inputId == i;
    }
  }

  lemma SupportBelowTotal(m: Miner, p: seq<int>)
    ensures Support(m, p) <= TotalSupport(m.inputs)
  {
    WeightBelowTotal(m.inputs, Matching(m, p), |m.inputs|);
    assert m.inputs[..|m.inputs|] == m.inputs;
  }

  /**
   mineTraditional: if the input sequences together reach sigma, the root's
   children are grown from every input at the initial state, pruned and
   expanded. The written patterns are exactly the non-empty patterns that
   occur, have support at least sigma and pass the pivot filter, each with
   its support and each once.
   */
  method MineTraditional(m: Miner) returns (patterns: seq<Pattern>)
    requires InputsOk(m)
    ensures TotalSupport(m.inputs) < m.sigma ==> patterns == []
    ensures forall k | 0 <= k < |patterns| :: Found(m, [], patterns[k])
    ensures forall p :: Wanted(m, [], p) ==> Emitted(patterns, p)
    ensures DistinctPatterns(patterns)
  {
    patterns := [];
    if TotalSupport(m.inputs) >= m.sigma {
      RootPostingsOk(m);
      var rootSupport, children := Grow(m, [], RootPostings(m));
      var pruned := Prune(children, m.sigma);
      PruneComplete(m, [], children);
      var restored;
      patterns, restored := Expand(m, [], pruned);
    } else {
      forall p ensures !Wanted(m, [], p) {
        SupportBelowTotal(m, p);
      }
    }
  }
}
