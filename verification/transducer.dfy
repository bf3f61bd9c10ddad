/**
 The finite-state transducer, consumed only. Its construction (pattern
 compilation, minimisation, numbering of transitions) happens elsewhere, so the
 transducer is a value holding its observable behaviour as functions.
 */
module Transducer {
  import opened Basics
  import opened Pivots

  /** Output label kind of a compressed transition. */
  datatype LabelKind =
    | Epsilon                 // emits nothing
    | Constant(item: int)     // emits a fixed item
    | Self                    // emits the matched input item
    | SelfGeneralize          // emits the matched item or one of its ancestors

  datatype Transition = Transition(number: int, kind: LabelKind, to: nat)

  /** One (output item, next state) pair of the uncompressed iterator; item 0 is epsilon. */
  datatype ItemState = ItemState(item: int, to: nat)

  datatype Fst = Fst(
    initial: nat,
    isFinal: nat -> bool,
    requireFullMatch: bool,
    /** State.consumeCompressed: the transitions leaving a state that match an input item. */
    consumeCompressed: (nat, int) -> seq<Transition>,
    /** getTransitionByNumber(n): the label kind of the transition numbered n. */
    kindOf: int -> LabelKind,
    /**
     The ascendant set of an item for a SELF_GENERALIZE transition: the item
     together with the ancestors addAscendantFids adds, in ascending order.
     */
    ascendants: (int, int) -> seq<int>
  )

  /** A configuration counts as accepting at a final state, at the end of the input if full match is required. */
  predicate Accepts(fst: Fst, input: seq<int>, pos: nat, state: nat)
  {
    fst.isFinal(state) && (!fst.requireFullMatch || pos == |input|)
  }

  /** getOutputElements: the items a transition of the given kind emits on input `item`. */
  function OutputItems(fst: Fst, number: int, kind: LabelKind, item: int): seq<int>
  {
    match kind
    case Epsilon => []
    case Constant(c) => [c]
    case Self => [item]
    case SelfGeneralize => fst.ascendants(number, item)
  }

  /** The uncompressed pairs of one compressed transition. */
  function ItemStatesOf(fst: Fst, tr: Transition, item: int): (r: seq<ItemState>)
    ensures tr.kind.Epsilon? ==> r == [ItemState(0, tr.to)]
    ensures !tr.kind.Epsilon? ==> |r| == |OutputItems(fst, tr.number, tr.kind, item)|
    ensures !tr.kind.Epsilon? ==> forall k | 0 <= k < |r| ::
              r[k] == ItemState(OutputItems(fst, tr.number, tr.kind, item)[k], tr.to)
  {
    if tr.kind.Epsilon? then [ItemState(0, tr.to)]
    else
      var outs := OutputItems(fst, tr.number, tr.kind, item);
      seq(|outs|, k requires 0 <= k < |outs| => ItemState(outs[k], tr.to))
  }

  function Flatten(fst: Fst, trs: seq<Transition>, item: int): seq<ItemState>
  {
    if |trs| == 0 then [] else ItemStatesOf(fst, trs[0], item) + Flatten(fst, trs[1..], item)
  }

  /** State.consume: every (output item, next state) pair of the transitions matching `item`. */
  function Consume(fst: Fst, state: nat, item: int): seq<ItemState>
  {
    Flatten(fst, fst.consumeCompressed(state, item), item)
  }

  /** The ascendant set is a sorted set of positive items containing the item itself. */
  predicate AscendantsOk(asc: seq<int>, item: int)
  {
    StrictlyAscending(asc) && AllPositive(asc) && item in asc
  }

  /** What the miner relies on of the transitions matching a positive input item. */
  predicate TransitionsOk(fst: Fst, trs: seq<Transition>, item: int)
  {
    forall k | 0 <= k < |trs| ::
      && fst.kindOf(trs[k].number) == trs[k].kind
      && (trs[k].kind.Constant? ==> trs[k].kind.item > 0)
      && (trs[k].kind.SelfGeneralize? ==> AscendantsOk(fst.ascendants(trs[k].number, item), item))
  }

  /** Input items are positive fids and every transition the input can use is well-formed. */
  ghost predicate WellFormed(fst: Fst, input: seq<int>)
  {
    && AllPositive(input)
    && forall pos: nat, state: nat | pos < |input| ::
         TransitionsOk(fst, fst.consumeCompressed(state, input[pos]), input[pos])
  }

  /** Every item a well-formed transition emits on a positive input item is positive (never the epsilon 0). */
  lemma OutputItemsPositive(fst: Fst, trs: seq<Transition>, item: int, k: int)
    requires TransitionsOk(fst, trs, item) && item > 0 && 0 <= k < |trs|
    ensures AllPositive(OutputItems(fst, trs[k].number, trs[k].kind, item))
  {
  }

  lemma TransitionsOkTail(fst: Fst, trs: seq<Transition>, item: int)
    requires TransitionsOk(fst, trs, item) && |trs| > 0
    ensures TransitionsOk(fst, trs[1..], item)
  {
    assert forall k | 0 <= k < |trs| - 1 :: trs[1..][k] == trs[k + 1];
  }

  // -- reference semantics -------------------------------------------------------------------------------------------

  /** Keeps the frequent items: ids at most `largestFrequentFid`. */
  function Frequent(items: seq<int>, largestFrequentFid: int): set<int>
  {
    set o | o in items && o <= largestFrequentFid
  }

  /**
   The output sequences of accepting runs from `state` at `pos` that emit only
   frequent items. This is what the miner must find; the search functions are
   proved against it.
   */
  function Outputs(fst: Fst, lff: int, input: seq<int>, pos: nat, state: nat): set<seq<int>>
    requires pos <= |input|
    decreases |input| - pos, 1, 0
  {
    (if Accepts(fst, input, pos, state) then {[]} else {})
    + (if pos == |input| then {}
       else OutputsVia(fst, lff, input, pos, fst.consumeCompressed(state, input[pos])))
  }

  function OutputsVia(fst: Fst, lff: int, input: seq<int>, pos: nat, trs: seq<Transition>): set<seq<int>>
    requires pos < |input|
    decreases |input| - pos, 0, |trs|
  {
    if |trs| == 0 then {}
    else OutputsOf(fst, lff, input, pos, trs[0]) + OutputsVia(fst, lff, input, pos, trs[1..])
  }

  function OutputsOf(fst: Fst, lff: int, input: seq<int>, pos: nat, tr: Transition): set<seq<int>>
    requires pos < |input|
    decreases |input| - pos, 0, 0
  {
    var rest := Outputs(fst, lff, input, pos + 1, tr.to);
    if tr.kind.Epsilon? then rest
    else Prefixed(Frequent(OutputItems(fst, tr.number, tr.kind, input[pos]), lff), rest)
  }

  /** Every sequence of `rest` with one of `items` put in front. */
  function Prefixed(items: set<int>, rest: set<seq<int>>): set<seq<int>>
  {
    set o, w | o in items && w in rest :: [o] + w
  }

  lemma PrefixedUnion(a: set<int>, b: set<int>, rest: set<seq<int>>)
    ensures Prefixed(a + b, rest) == Prefixed(a, rest) + Prefixed(b, rest)
  {
  }

  /** Every item of every output is frequent: the runs emit only ids up to `lff`. */
  lemma {:induction false} OutputsFrequent(fst: Fst, lff: int, input: seq<int>, pos: nat, state: nat, w: seq<int>)
    requires pos <= |input| && w in Outputs(fst, lff, input, pos, state)
    ensures forall k | 0 <= k < |w| :: w[k] <= lff
    decreases |input| - pos, 1
  {
    if w != [] {
      OutputsViaFrequent(fst, lff, input, pos, fst.consumeCompressed(state, input[pos]), w);
    }
  }

  lemma {:induction false} OutputsViaFrequent(fst: Fst, lff: int, input: seq<int>, pos: nat, trs: seq<Transition>, w: seq<int>)
    requires pos < |input| && w in OutputsVia(fst, lff, input, pos, trs)
    ensures forall k | 0 <= k < |w| :: w[k] <= lff
    decreases |input| - pos, 0, |trs|
  {
    if w in OutputsOf(fst, lff, input, pos, trs[0]) {
      var rest := Outputs(fst, lff, input, pos + 1, trs[0].to);
      if trs[0].kind.Epsilon? {
        OutputsFrequent(fst, lff, input, pos + 1, trs[0].to, w);
      } else {
        var o, v :| o in Frequent(OutputItems(fst, trs[0].number, trs[0].kind, input[pos]), lff) && v in rest && w == [o] + v;
        OutputsFrequent(fst, lff, input, pos + 1, trs[0].to, v);
        assert forall k | 1 <= k < |w| :: w[k] == v[k - 1];
      }
    } else {
      OutputsViaFrequent(fst, lff, input, pos, trs[1..], w);
    }
  }

  /** Every item of every output is positive: well-formed transitions never emit the epsilon id 0. */
  lemma {:induction false} OutputsPositive(fst: Fst, lff: int, input: seq<int>, pos: nat, state: nat, w: seq<int>)
    requires WellFormed(fst, input) && pos <= |input| && w in Outputs(fst, lff, input, pos, state)
    ensures AllPositive(w)
    decreases |input| - pos, 1
  {
    if w != [] {
      OutputsViaPositive(fst, lff, input, pos, fst.consumeCompressed(state, input[pos]), w);
    }
  }

  lemma {:induction false} OutputsViaPositive(fst: Fst, lff: int, input: seq<int>, pos: nat, trs: seq<Transition>, w: seq<int>)
    requires WellFormed(fst, input) && pos < |input| && TransitionsOk(fst, trs, input[pos])
    requires w in OutputsVia(fst, lff, input, pos, trs)
    ensures AllPositive(w)
    decreases |input| - pos, 0, |trs|
  {
    if w in OutputsOf(fst, lff, input, pos, trs[0]) {
      var rest := Outputs(fst, lff, input, pos + 1, trs[0].to);
      if trs[0].kind.Epsilon? {
        OutputsPositive(fst, lff, input, pos + 1, trs[0].to, w);
      } else {
        OutputItemsPositive(fst, trs, input[pos], 0);
        var o, v :| o in Frequent(OutputItems(fst, trs[0].number, trs[0].kind, input[pos]), lff) && v in rest && w == [o] + v;
        OutputsPositive(fst, lff, input, pos + 1, trs[0].to, v);
        assert forall k | 1 <= k < |w| :: w[k] == v[k - 1];
      }
    } else {
      TransitionsOkTail(fst, trs, input[pos]);
      OutputsViaPositive(fst, lff, input, pos, trs[1..], w);
    }
  }

  /** The outputs whose pivot does not exceed `bound`: those that stay within the partition of `bound`. */
  function Below(outs: set<seq<int>>, bound: int): set<seq<int>>
  {
    set w | w in outs && Pivot(w) <= bound
  }

  /**
   Bounding the emitted ids by a smaller `bound` instead of `lff` keeps
   exactly the outputs whose pivot stays within `bound`: running the
   transducer with the pivot item as frequency bound is running it with the
   frequency bound and then keeping the partition's outputs.
   */
  lemma {:induction false} OutputsBelow(fst: Fst, lff: int, bound: int, input: seq<int>, pos: nat, state: nat)
    requires 0 <= bound <= lff && pos <= |input|
    ensures Outputs(fst, bound, input, pos, state) == Below(Outputs(fst, lff, input, pos, state), bound)
    decreases |input| - pos, 2, 0
  {
    var acc: set<seq<int>> := if Accepts(fst, input, pos, state) then {[]} else {};
    assert Pivot([]) == 0;
    assert Below(acc, bound) == acc;
    if pos < |input| {
      var trs := fst.consumeCompressed(state, input[pos]);
      OutputsViaBelow(fst, lff, bound, input, pos, trs);
      BelowUnion(acc, OutputsVia(fst, lff, input, pos, trs), bound);
    } else {
      assert Outputs(fst, lff, input, pos, state) == acc;
    }
  }

  lemma {:induction false} OutputsViaBelow(fst: Fst, lff: int, bound: int, input: seq<int>, pos: nat, trs: seq<Transition>)
    requires 0 <= bound <= lff && pos < |input|
    ensures OutputsVia(fst, bound, input, pos, trs) == Below(OutputsVia(fst, lff, input, pos, trs), bound)
    decreases |input| - pos, 1, |trs|
  {
    if |trs| > 0 {
      OutputsOfBelow(fst, lff, bound, input, pos, trs[0]);
      OutputsViaBelow(fst, lff, bound, input, pos, trs[1..]);
      BelowUnion(OutputsOf(fst, lff, input, pos, trs[0]), OutputsVia(fst, lff, input, pos, trs[1..]), bound);
    }
  }

  lemma {:induction false} OutputsOfBelow(fst: Fst, lff: int, bound: int, input: seq<int>, pos: nat, tr: Transition)
    requires 0 <= bound <= lff && pos < |input|
    ensures OutputsOf(fst, bound, input, pos, tr) == Below(OutputsOf(fst, lff, input, pos, tr), bound)
    decreases |input| - pos, 0, 0
  {
    OutputsBelow(fst, lff, bound, input, pos + 1, tr.to);
    if !tr.kind.Epsilon? {
      PrefixedBelow(OutputItems(fst, tr.number, tr.kind, input[pos]), lff, bound, Outputs(fst, lff, input, pos + 1, tr.to));
    }
  }

  lemma BelowUnion(a: set<seq<int>>, b: set<seq<int>>, bound: int)
    ensures Below(a + b, bound) == Below(a, bound) + Below(b, bound)
  {
  }

  /** An item in front stays within the bound exactly when both it and the rest do. */
  lemma PrefixedBelow(items: seq<int>, lff: int, bound: int, rest: set<seq<int>>)
    requires 0 <= bound <= lff
    ensures Prefixed(Frequent(items, bound), Below(rest, bound)) == Below(Prefixed(Frequent(items, lff), rest), bound)
  {
    forall w | w in Prefixed(Frequent(items, bound), Below(rest, bound))
      ensures w in Below(Prefixed(Frequent(items, lff), rest), bound)
    {
      var o, v :| o in Frequent(items, bound) && v in Below(rest, bound) && w == [o] + v;
      PivotCons(o, v);
      assert o in Frequent(items, lff);
    }
    forall w | w in Below(Prefixed(Frequent(items, lff), rest), bound)
      ensures w in Prefixed(Frequent(items, bound), Below(rest, bound))
    {
      var o, v :| o in Frequent(items, lff) && v in rest && w == [o] + v;
      PivotCons(o, v);
      assert o in Frequent(items, bound) && v in Below(rest, bound);
    }
  }
}
