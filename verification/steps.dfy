/**
 What one incremental step of the search reports for one input sequence: the
 children it expands (output item, and where the run continues) and whether
 a final state was reached without producing further output. The steps of the
 three representations (plain input, concatenated paths, path tree) all
 produce this.
 */
module IncSteps {
  import opened Basics

  /**
   One expandWithTransition / expandWithItemTraditional call: the child for
   `item` gets a snapshot (state, pos) of the input. The encoded
   representations keep no transducer state; their snapshots carry state 0.
   */
  datatype Move = Move(item: int, state: nat, pos: nat)

  datatype StepResult = StepResult(reached: bool, moves: seq<Move>)

  const NoMoves: StepResult := StepResult(false, [])

  /** Running two steps one after the other: the moves of both, reached if either reached. */
  function Join(a: StepResult, b: StepResult): (r: StepResult)
    ensures r.reached <==> a.reached || b.reached
    ensures r.moves == a.moves + b.moves
  {
    StepResult(a.reached || b.reached, a.moves + b.moves)
  }

  /**
   The child filter of the one-pass steps, as written: an output item is
   expanded only when it does not exceed the partition's pivot item. There is
   no exemption for pivot item 0 (no partition).
   */
  predicate OnePassAdmits(pivotItem: int, item: int)
  {
    pivotItem >= item
  }

  /** The child filter of the two-pass step: frequent, and within the partition if there is one. */
  predicate TwoPassAdmits(pivotItem: int, largestFrequentFid: int, item: int)
  {
    largestFrequentFid >= item && (pivotItem == 0 || pivotItem >= item)
  }

  /** Inside a partition (0 < pivot item <= largest frequent id) the two filters agree on every item. */
  lemma FiltersAgreeInPartition(pivotItem: int, largestFrequentFid: int, item: int)
    requires 0 < pivotItem <= largestFrequentFid
    ensures OnePassAdmits(pivotItem, item) <==> TwoPassAdmits(pivotItem, largestFrequentFid, item)
  {
  }

  /**
   Without a partition (pivot item 0) the one-pass filter drops every item,
   while the two-pass filter keeps every frequent one.
   */
  lemma FiltersDifferWithoutPartition(largestFrequentFid: int, item: int)
    requires 0 < item <= largestFrequentFid
    ensures !OnePassAdmits(0, item) && TwoPassAdmits(0, largestFrequentFid, item)
  {
  }

  /** The moves for the output items of one pair, kept by the one-pass filter, all continuing at `pos`. */
  function AdmittedMoves(items: seq<int>, pivotItem: int, state: nat, pos: nat): (r: seq<Move>)
    ensures |r| <= |items|
    ensures forall m :: m in r <==> m.item in items && OnePassAdmits(pivotItem, m.item) && m.state == state && m.pos == pos
  {
    if |items| == 0 then []
    else
      var t := AdmittedMoves(items[1..], pivotItem, state, pos);
      assert items == [items[0]] + items[1..];
      if OnePassAdmits(pivotItem, items[0]) then [Move(items[0], state, pos)] + t else t
  }
}
