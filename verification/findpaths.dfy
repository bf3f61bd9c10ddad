/**
 The path search of the transition representation
 (findPathsAndPivotsStepOnePassCompressed): the compressed pivot search that
 also remembers the path it took, as (transition number, item) pairs of the
 transitions that emitted something. At an accepting configuration it records
 the path once for every distinct pivot in the heap; the partition of that
 pivot then receives the path instead of the whole input sequence.
 */
module FindPaths {
  import opened Basics
  import opened Pivots
  import opened Transducer
  import opened PivotHeap
  import opened PivotSearch

  /** A recorded path for the partition of `pivot`. */
  datatype Hit = Hit(pivot: int, path: seq<int>)

  /** The distinct items of a sequence, in order of last occurrence. */
  function Distinct(s: seq<int>): (r: seq<int>)
    ensures forall x :: x in r <==> x in s
    ensures forall i, j | 0 <= i < j < |r| :: r[i] != r[j]
  {
    if |s| == 0 then []
    else if s[0] in s[1..] then Distinct(s[1..])
    else
      var t := Distinct(s[1..]);
      assert forall j | 0 <= j < |t| :: t[j] in t;
      [s[0]] + t
  }

  /** The path once for each of the given pivots. */
  function HitsOf(pivots: seq<int>, path: seq<int>): (r: seq<Hit>)
    ensures |r| == |pivots|
    ensures forall i | 0 <= i < |r| :: r[i] == Hit(pivots[i], path)
  {
    seq(|pivots|, i requires 0 <= i < |pivots| => Hit(pivots[i], path))
  }

  /** The pivots of a list of hits. */
  function HitPivots(hits: seq<Hit>): set<int>
  {
    set h | h in hits :: h.pivot
  }

  /**
   The hits recorded on reaching a configuration: at an accepting
   configuration with a heap and a non-empty path, the path once per distinct
   heap item (the source keeps a set of the pivots already emitted while it
   reads the heap; the model reads the heap in order).
   */
  function FinalHits(fst: Fst, input: seq<int>, heap: Option<seq<int>>, pos: nat, state: nat, prefix: seq<int>): (r: seq<Hit>)
    ensures |r| > 0 ==> Accepts(fst, input, pos, state) && heap.Some? && |prefix| > 0
    ensures forall h | h in r :: h.path == prefix
    ensures heap.Some? ==> forall p :: p in HitPivots(r) <==> p in heap.value && Accepts(fst, input, pos, state) && |prefix| > 0
    ensures forall i, j | 0 <= i < j < |r| :: r[i].pivot != r[j].pivot
  {
    if Accepts(fst, input, pos, state) && heap.Some? && |prefix| != 0 then
      var r := HitsOf(Distinct(heap.value), prefix);
      assert forall p | p in Distinct(heap.value) :: Hit(p, prefix) in r by {
        forall p | p in Distinct(heap.value) ensures Hit(p, prefix) in r {
          var i :| 0 <= i < |Distinct(heap.value)| && Distinct(heap.value)[i] == p;
          assert r[i] == Hit(p, prefix);
        }
      }
      r
    else []
  }

  /** findPathsAndPivotsStepOnePassCompressed: the hits in the order the search records them. */
  function FindPathsStep(fst: Fst, lff: int, input: seq<int>, heap: Option<seq<int>>, pos: nat, state: nat, prefix: seq<int>): seq<Hit>
    requires WellFormed(fst, input) && pos <= |input| && HeapOk(heap)
    decreases |input| - pos, 1, 0
  {
    FinalHits(fst, input, heap, pos, state, prefix)
    + (if pos == |input| then []
       else FindTransitions(fst, lff, input, heap, pos, fst.consumeCompressed(state, input[pos]), prefix))
  }

  function FindTransitions(fst: Fst, lff: int, input: seq<int>, heap: Option<seq<int>>, pos: nat, trs: seq<Transition>, prefix: seq<int>): seq<Hit>
    requires WellFormed(fst, input) && pos < |input| && HeapOk(heap)
    requires TransitionsOk(fst, trs, input[pos])
    decreases |input| - pos, 0, |trs|
  {
    if |trs| == 0 then []
    else
      TransitionsOkTail(fst, trs, input[pos]);
      FindTransition(fst, lff, input, heap, pos, trs[0], prefix)
      + FindTransitions(fst, lff, input, heap, pos, trs[1..], prefix)
  }

  /**
   One compressed transition. A transition that emits something puts
   (transition number, item) on the path: the constant for a CONSTANT label,
   the input item for SELF and SELF_GENERALIZE labels.
   */
  function FindTransition(fst: Fst, lff: int, input: seq<int>, heap: Option<seq<int>>, pos: nat, tr: Transition, prefix: seq<int>): seq<Hit>
    requires WellFormed(fst, input) && pos < |input| && HeapOk(heap)
    requires TransitionsOk(fst, [tr], input[pos])
    decreases |input| - pos, 0, 0
  {
    match tr.kind
    case Epsilon => FindPathsStep(fst, lff, input, heap, pos + 1, tr.to, prefix)
    case Constant(c) =>
      if lff >= c then
        FindPathsStep(fst, lff, input, Some(UnionItem(heap, c)), pos + 1, tr.to, prefix + [tr.number, c])
      else []
    case Self =>
      var a := input[pos];
      if lff >= a then
        FindPathsStep(fst, lff, input, Some(UnionItem(heap, a)), pos + 1, tr.to, prefix + [tr.number, a])
      else []
    case SelfGeneralize =>
      var asc := fst.ascendants(tr.number, input[pos]);
      assert TransitionsOk(fst, [tr], input[pos]) && [tr][0] == tr;
      if lff >= asc[0] then
        FindPathsStep(fst, lff, input, Some(UnionAscendants(heap, asc, lff)), pos + 1, tr.to,
                      prefix + [tr.number, input[pos]])
      else []
  }

  /** The search as the miner starts it: null heap, empty path, initial state. */
  function FindPaths(fst: Fst, lff: int, input: seq<int>): seq<Hit>
    requires WellFormed(fst, input)
  {
    FindPathsStep(fst, lff, input, None, 0, fst.initial, [])
  }

  /** The paths recorded for one pivot, in order: the path list of that partition. */
  function PathsFor(hits: seq<Hit>, pivot: int): (r: seq<seq<int>>)
    ensures |r| <= |hits|
    ensures forall path :: path in r <==> Hit(pivot, path) in hits
  {
    if |hits| == 0 then []
    else
      var t := PathsFor(hits[1..], pivot);
      assert forall h | h in hits[1..] :: h in hits;
      assert hits == [hits[0]] + hits[1..];
      if hits[0].pivot == pivot then [hits[0].path] + t else t
  }

  // -- the final check as written --------------------------------------------------------------------------------------

  /**
   The final-state check of findPathsAndPivotsStepOnePassCompressed as written:
   like the one of the pivot search, it reads the heap size as soon as the
   state is final, before the path and match conditions.
   */
  function FinalHitsAsWritten(fst: Fst, input: seq<int>, heap: Option<seq<int>>, pos: nat, state: nat, prefix: seq<int>): (r: Option<seq<Hit>>)
    ensures r.None? <==> fst.isFinal(state) && heap.None?
    ensures r.Some? ==> r.value == FinalHits(fst, input, heap, pos, state, prefix)
  {
    if !fst.isFinal(state) then Some([])
    else if heap.None? then None
    else if |heap.value| != 0 && |prefix| != 0 && (!fst.requireFullMatch || pos == |input|) then
      Some(HitsOf(Distinct(heap.value), prefix))
    else Some([])
  }

  /** On a transducer whose initial state is final the very first check fails on the null heap. */
  lemma FinalHitsNullHeapExample()
    ensures FinalHitsAsWritten(AcceptEverything(), [7], None, 0, AcceptEverything().initial, []).None?
    ensures FindPaths(AcceptEverything(), 10, [7]) == []
  {
    var fst := AcceptEverything();
    assert WellFormed(fst, [7]);
    assert FindPathsStep(fst, 10, [7], None, 1, 0, []) == [];
  }

  // -- properties ------------------------------------------------------------------------------------------------------

  /** The heap exists exactly when something was emitted, that is when the path is non-empty. */
  predicate PathMatchesHeap(heap: Option<seq<int>>, prefix: seq<int>)
  {
    heap.Some? <==> |prefix| > 0
  }

  /**
   The partitions that receive a path are exactly the pivots the compressed
   pivot search finds, starting from the same heap.
   */
  lemma {:induction false} FindPathsPivots(fst: Fst, lff: int, input: seq<int>, heap: Option<seq<int>>, pos: nat, state: nat, prefix: seq<int>)
    requires WellFormed(fst, input) && pos <= |input| && HeapOk(heap) && PathMatchesHeap(heap, prefix)
    ensures HitPivots(FindPathsStep(fst, lff, input, heap, pos, state, prefix))
            == PiStepCompressed(fst, lff, input, heap, pos, state)
    decreases |input| - pos, 2, 0
  {
    var fin := FinalHits(fst, input, heap, pos, state, prefix);
    assert HitPivots(fin) == FinalPivots(fst, input, heap, pos, state) by {
      if heap.Some? {
        forall p ensures p in HitPivots(fin) <==> p in FinalPivots(fst, input, heap, pos, state) {
        }
      }
    }
    if pos < |input| {
      var trs := fst.consumeCompressed(state, input[pos]);
      FindTransitionsPivots(fst, lff, input, heap, pos, trs, prefix);
      HitPivotsAppend(fin, FindTransitions(fst, lff, input, heap, pos, trs, prefix));
    } else {
      assert FindPathsStep(fst, lff, input, heap, pos, state, prefix) == fin + [];
    }
  }

  lemma {:induction false} FindTransitionsPivots(fst: Fst, lff: int, input: seq<int>, heap: Option<seq<int>>, pos: nat, trs: seq<Transition>, prefix: seq<int>)
    requires WellFormed(fst, input) && pos < |input| && HeapOk(heap) && PathMatchesHeap(heap, prefix)
    requires TransitionsOk(fst, trs, input[pos])
    ensures HitPivots(FindTransitions(fst, lff, input, heap, pos, trs, prefix))
            == PiTransitions(fst, lff, input, heap, pos, trs)
    decreases |input| - pos, 1, |trs|
  {
    if |trs| > 0 {
      TransitionsOkTail(fst, trs, input[pos]);
      assert TransitionsOk(fst, [trs[0]], input[pos]) by {
        assert [trs[0]][0] == trs[0];
      }
      FindTransitionPivots(fst, lff, input, heap, pos, trs[0], prefix);
      FindTransitionsPivots(fst, lff, input, heap, pos, trs[1..], prefix);
      HitPivotsAppend(FindTransition(fst, lff, input, heap, pos, trs[0], prefix),
                      FindTransitions(fst, lff, input, heap, pos, trs[1..], prefix));
    }
  }

  lemma {:induction false} FindTransitionPivots(fst: Fst, lff: int, input: seq<int>, heap: Option<seq<int>>, pos: nat, tr: Transition, prefix: seq<int>)
    requires WellFormed(fst, input) && pos < |input| && HeapOk(heap) && PathMatchesHeap(heap, prefix)
    requires TransitionsOk(fst, [tr], input[pos])
    ensures HitPivots(FindTransition(fst, lff, input, heap, pos, tr, prefix))
            == PiTransition(fst, lff, input, heap, pos, tr)
    decreases |input| - pos, 0, 1
  {
    match tr.kind
    case Epsilon =>
      FindPathsPivots(fst, lff, input, heap, pos + 1, tr.to, prefix);
    case Constant(c) =>
      ItemPivots(fst, lff, input, heap, pos, tr, prefix, c);
    case Self =>
      ItemPivots(fst, lff, input, heap, pos, tr, prefix, input[pos]);
    case SelfGeneralize =>
      GeneralizePivots(fst, lff, input, heap, pos, tr, prefix);
  }

  /** A CONSTANT or SELF transition that emits item a. */
  lemma {:induction false} ItemPivots(fst: Fst, lff: int, input: seq<int>, heap: Option<seq<int>>, pos: nat, tr: Transition,
                                      prefix: seq<int>, a: int)
    requires WellFormed(fst, input) && pos < |input| && HeapOk(heap) && PathMatchesHeap(heap, prefix)
    requires TransitionsOk(fst, [tr], input[pos])
    requires tr.kind == Constant(a) || (tr.kind.Self? && a == input[pos])
    ensures HitPivots(FindTransition(fst, lff, input, heap, pos, tr, prefix))
            == PiTransition(fst, lff, input, heap, pos, tr)
    decreases |input| - pos, 0, 0
  {
    assert [tr][0] == tr;
    if lff >= a {
      FindPathsPivots(fst, lff, input, Some(UnionItem(heap, a)), pos + 1, tr.to, prefix + [tr.number, a]);
    }
  }

  /** A SELF_GENERALIZE transition, which emits the frequent ascendants of the input item. */
  lemma {:induction false} GeneralizePivots(fst: Fst, lff: int, input: seq<int>, heap: Option<seq<int>>, pos: nat, tr: Transition,
                                            prefix: seq<int>)
    requires WellFormed(fst, input) && pos < |input| && HeapOk(heap) && PathMatchesHeap(heap, prefix)
    requires TransitionsOk(fst, [tr], input[pos]) && tr.kind.SelfGeneralize?
    ensures HitPivots(FindTransition(fst, lff, input, heap, pos, tr, prefix))
            == PiTransition(fst, lff, input, heap, pos, tr)
    decreases |input| - pos, 0, 0
  {
    var asc := fst.ascendants(tr.number, input[pos]);
    assert [tr][0] == tr;
    if lff >= asc[0] {
      FindPathsPivots(fst, lff, input, Some(UnionAscendants(heap, asc, lff)), pos + 1, tr.to,
                      prefix + [tr.number, input[pos]]);
    }
  }

  lemma HitPivotsAppend(a: seq<Hit>, b: seq<Hit>)
    ensures HitPivots(a + b) == HitPivots(a) + HitPivots(b)
  {
    assert forall h | h in a + b :: h in a || h in b;
  }

  /**
   Every recorded path extends the path so far by whole (transition number,
   item) pairs, at most one pair per input item still to be read, and is never
   empty.
   */
  lemma {:induction false} FindPathsShape(fst: Fst, lff: int, input: seq<int>, heap: Option<seq<int>>, pos: nat, state: nat, prefix: seq<int>)
    requires WellFormed(fst, input) && pos <= |input| && HeapOk(heap)
    ensures forall h | h in FindPathsStep(fst, lff, input, heap, pos, state, prefix) ::
              && prefix <= h.path && |h.path| > 0
              && (|h.path| - |prefix|) % 2 == 0
              && |h.path| - |prefix| <= 2 * (|input| - pos)
    decreases |input| - pos, 2, 0
  {
    if pos < |input| {
      FindTransitionsShape(fst, lff, input, heap, pos, fst.consumeCompressed(state, input[pos]), prefix);
    }
  }

  lemma {:induction false} FindTransitionsShape(fst: Fst, lff: int, input: seq<int>, heap: Option<seq<int>>, pos: nat, trs: seq<Transition>, prefix: seq<int>)
    requires WellFormed(fst, input) && pos < |input| && HeapOk(heap)
    requires TransitionsOk(fst, trs, input[pos])
    ensures forall h | h in FindTransitions(fst, lff, input, heap, pos, trs, prefix) ::
              && prefix <= h.path && |h.path| > 0
              && (|h.path| - |prefix|) % 2 == 0
              && |h.path| - |prefix| <= 2 * (|input| - pos)
    decreases |input| - pos, 1, |trs|
  {
    if |trs| > 0 {
      TransitionsOkTail(fst, trs, input[pos]);
      assert TransitionsOk(fst, [trs[0]], input[pos]) by {
        assert [trs[0]][0] == trs[0];
      }
      FindTransitionShape(fst, lff, input, heap, pos, trs[0], prefix);
      FindTransitionsShape(fst, lff, input, heap, pos, trs[1..], prefix);
    }
  }

  lemma {:induction false} FindTransitionShape(fst: Fst, lff: int, input: seq<int>, heap: Option<seq<int>>, pos: nat, tr: Transition, prefix: seq<int>)
    requires WellFormed(fst, input) && pos < |input| && HeapOk(heap)
    requires TransitionsOk(fst, [tr], input[pos])
    ensures forall h | h in FindTransition(fst, lff, input, heap, pos, tr, prefix) ::
              && prefix <= h.path && |h.path| > 0
              && (|h.path| - |prefix|) % 2 == 0
              && |h.path| - |prefix| <= 2 * (|input| - pos)
    decreases |input| - pos, 0, 1
  {
    match tr.kind
    case Epsilon =>
      FindPathsShape(fst, lff, input, heap, pos + 1, tr.to, prefix);
    case Constant(c) =>
      if lff >= c {
        ExtendedShape(fst, lff, input, Some(UnionItem(heap, c)), pos, tr.to, prefix, [tr.number, c]);
      }
    case Self =>
      var a := input[pos];
      if lff >= a {
        ExtendedShape(fst, lff, input, Some(UnionItem(heap, a)), pos, tr.to, prefix, [tr.number, a]);
      }
    case SelfGeneralize =>
      var asc := fst.ascendants(tr.number, input[pos]);
      assert [tr][0] == tr;
      if lff >= asc[0] {
        ExtendedShape(fst, lff, input, Some(UnionAscendants(heap, asc, lff)), pos, tr.to, prefix,
                      [tr.number, input[pos]]);
      }
  }

  /** The recursion after pushing one pair. */
  lemma {:induction false} ExtendedShape(fst: Fst, lff: int, input: seq<int>, heap: Option<seq<int>>, pos: nat, to: nat, prefix: seq<int>, pair: seq<int>)
    requires WellFormed(fst, input) && pos < |input| && HeapOk(heap) && |pair| == 2
    ensures forall h | h in FindPathsStep(fst, lff, input, heap, pos + 1, to, prefix + pair) ::
              && prefix <= h.path && |h.path| > 0
              && (|h.path| - |prefix|) % 2 == 0
              && |h.path| - |prefix| <= 2 * (|input| - pos)
    decreases |input| - pos, 0, 0
  {
    var hits := FindPathsStep(fst, lff, input, heap, pos + 1, to, prefix + pair);
    FindPathsShape(fst, lff, input, heap, pos + 1, to, prefix + pair);
    forall h | h in hits
      ensures prefix <= h.path && (|h.path| - |prefix|) % 2 == 0
    {
      PrefixOfExtension(prefix, pair, h.path);
    }
  }

  lemma PrefixOfExtension(prefix: seq<int>, pair: seq<int>, path: seq<int>)
    requires prefix + pair <= path && |pair| == 2 && (|path| - |prefix + pair|) % 2 == 0
    ensures prefix <= path && (|path| - |prefix|) % 2 == 0
  {
    assert path[..|prefix|] == (prefix + pair)[..|prefix|];
  }

  /**
   Started as the miner starts it, the path search sends paths to exactly the
   partitions of the sequence's pivots.
   */
  lemma FindPathsRoutesToPivots(fst: Fst, lff: int, input: seq<int>)
    requires WellFormed(fst, input)
    ensures HitPivots(FindPaths(fst, lff, input)) == SequencePivots(fst, lff, input)
    ensures forall h | h in FindPaths(fst, lff, input) :: |h.path| > 0 && |h.path| % 2 == 0 && |h.path| <= 2 * |input|
  {
    FindPathsPivots(fst, lff, input, None, 0, fst.initial, []);
    FindPathsShape(fst, lff, input, None, 0, fst.initial, []);
    SearchesAgree(fst, lff, input);
  }

  // -- paths against runs ----------------------------------------------------------------------------------------------

  /** One accepting run of the transducer: the (transition number, item) pairs of its emitting transitions and its output. */
  datatype Run = Run(path: seq<int>, output: seq<int>)

  /** The item an emitting transition puts on the path: the constant of a CONSTANT label, the input item otherwise. */
  function PathItem(kind: LabelKind, item: int): int
  {
    if kind.Constant? then kind.item else item
  }

  /**
   The accepting runs from `state` at `pos` that emit only frequent items, each
   with the path of its emitting transitions and the output it produces: the
   reference the recorded paths are proved against. Like the outputs, a run
   takes every transition matching the next input item, and an emitting
   transition contributes one run for each frequent item it can emit.
   */
  function Runs(fst: Fst, lff: int, input: seq<int>, pos: nat, state: nat): set<Run>
    requires pos <= |input|
    decreases |input| - pos, 1, 0
  {
    (if Accepts(fst, input, pos, state) then {Run([], [])} else {})
    + (if pos == |input| then {}
       else RunsVia(fst, lff, input, pos, fst.consumeCompressed(state, input[pos])))
  }

  function RunsVia(fst: Fst, lff: int, input: seq<int>, pos: nat, trs: seq<Transition>): set<Run>
    requires pos < |input|
    decreases |input| - pos, 0, |trs|
  {
    if |trs| == 0 then {}
    else RunsOf(fst, lff, input, pos, trs[0]) + RunsVia(fst, lff, input, pos, trs[1..])
  }

  function RunsOf(fst: Fst, lff: int, input: seq<int>, pos: nat, tr: Transition): set<Run>
    requires pos < |input|
    decreases |input| - pos, 0, 0
  {
    var rest := Runs(fst, lff, input, pos + 1, tr.to);
    if tr.kind.Epsilon? then rest
    else Extended([tr.number, PathItem(tr.kind, input[pos])], Frequent(OutputItems(fst, tr.number, tr.kind, input[pos]), lff), rest)
  }

  /** Every run of `rest` behind one emitting transition: its pair in front of the path, one of `items` in front of the output. */
  function Extended(pair: seq<int>, items: set<int>, rest: set<Run>): set<Run>
  {
    set o, r | o in items && r in rest :: Run(pair + r.path, [o] + r.output)
  }

  function RunOutputs(runs: set<Run>): set<seq<int>>
  {
    set r | r in runs :: r.output
  }

  /** The runs produce exactly the outputs of the transducer: the paths add nothing and lose nothing. */
  lemma {:induction false} RunsOutputs(fst: Fst, lff: int, input: seq<int>, pos: nat, state: nat)
    requires pos <= |input|
    ensures RunOutputs(Runs(fst, lff, input, pos, state)) == Outputs(fst, lff, input, pos, state)
    decreases |input| - pos, 2, 0
  {
    var acc: set<Run> := if Accepts(fst, input, pos, state) then {Run([], [])} else {};
    assert RunOutputs(acc) == (if Accepts(fst, input, pos, state) then {[]} else {});
    if pos < |input| {
      var trs := fst.consumeCompressed(state, input[pos]);
      RunsViaOutputs(fst, lff, input, pos, trs);
      RunOutputsUnion(acc, RunsVia(fst, lff, input, pos, trs));
    } else {
      assert Runs(fst, lff, input, pos, state) == acc + {};
    }
  }

  lemma {:induction false} RunsViaOutputs(fst: Fst, lff: int, input: seq<int>, pos: nat, trs: seq<Transition>)
    requires pos < |input|
    ensures RunOutputs(RunsVia(fst, lff, input, pos, trs)) == OutputsVia(fst, lff, input, pos, trs)
    decreases |input| - pos, 1, |trs|
  {
    if |trs| > 0 {
      RunsOfOutputs(fst, lff, input, pos, trs[0]);
      RunsViaOutputs(fst, lff, input, pos, trs[1..]);
      RunOutputsUnion(RunsOf(fst, lff, input, pos, trs[0]), RunsVia(fst, lff, input, pos, trs[1..]));
    }
  }

  lemma {:induction false} RunsOfOutputs(fst: Fst, lff: int, input: seq<int>, pos: nat, tr: Transition)
    requires pos < |input|
    ensures RunOutputs(RunsOf(fst, lff, input, pos, tr)) == OutputsOf(fst, lff, input, pos, tr)
    decreases |input| - pos, 0, 0
  {
    RunsOutputs(fst, lff, input, pos + 1, tr.to);
    if !tr.kind.Epsilon? {
      ExtendedOutputs([tr.number, PathItem(tr.kind, input[pos])], Frequent(OutputItems(fst, tr.number, tr.kind, input[pos]), lff),
                      Runs(fst, lff, input, pos + 1, tr.to));
    }
  }

  lemma RunOutputsUnion(a: set<Run>, b: set<Run>)
    ensures RunOutputs(a + b) == RunOutputs(a) + RunOutputs(b)
  {
  }

  lemma ExtendedOutputs(pair: seq<int>, items: set<int>, rest: set<Run>)
    ensures RunOutputs(Extended(pair, items, rest)) == Prefixed(items, RunOutputs(rest))
  {
    forall w | w in Prefixed(items, RunOutputs(rest)) ensures w in RunOutputs(Extended(pair, items, rest)) {
      var o, v :| o in items && v in RunOutputs(rest) && w == [o] + v;
      var r :| r in rest && r.output == v;
      assert Run(pair + r.path, [o] + r.output) in Extended(pair, items, rest);
    }
    forall w | w in RunOutputs(Extended(pair, items, rest)) ensures w in Prefixed(items, RunOutputs(rest)) {
      var r' :| r' in Extended(pair, items, rest) && r'.output == w;
      var o, r :| o in items && r in rest && r' == Run(pair + r.path, [o] + r.output);
      assert r.output in RunOutputs(rest);
    }
  }

  /**
   The hits the runs `runs` stand for when the search has already walked
   `prefix` and holds the candidate pivots `cands`: each run with a non-empty
   whole path, once for each candidate, under the larger of the candidate and
   the run's own pivot.
   */
  function RunHits(cands: set<int>, prefix: seq<int>, runs: set<Run>): set<Hit>
  {
    set c, r | c in cands && r in runs && |prefix| + |r.path| > 0 :: HitOf(c, prefix, r)
  }

  /** The hit of one run under one candidate. */
  function HitOf(c: int, prefix: seq<int>, r: Run): Hit
  {
    Hit(Max(c, Pivot(r.output)), prefix + r.path)
  }

  /** Raising the candidate by an emitted item is putting that item, with the transition's pair, in front of the run. */
  lemma HitOfBehind(c: int, a: int, pair: seq<int>, prefix: seq<int>, r: Run)
    ensures HitOf(Max(c, a), prefix + pair, r) == HitOf(c, prefix, Run(pair + r.path, [a] + r.output))
  {
    PivotCons(a, r.output);
    assert prefix + pair + r.path == prefix + (pair + r.path);
  }

  function HitSet(hits: seq<Hit>): set<Hit>
  {
    set h | h in hits
  }

  lemma HitSetAppend(a: seq<Hit>, b: seq<Hit>)
    ensures HitSet(a + b) == HitSet(a) + HitSet(b)
  {
    assert forall h | h in a + b :: h in a || h in b;
  }

  lemma RunHitsUnion(cands: set<int>, prefix: seq<int>, a: set<Run>, b: set<Run>)
    ensures RunHits(cands, prefix, a + b) == RunHits(cands, prefix, a) + RunHits(cands, prefix, b)
  {
  }

  /** At an accepting configuration the empty remainder records the path so far under every candidate. */
  lemma FinalRunHits(fst: Fst, input: seq<int>, heap: Option<seq<int>>, pos: nat, state: nat, prefix: seq<int>)
    requires HeapOk(heap) && PositiveHeap(heap) && PathMatchesHeap(heap, prefix)
    ensures HitSet(FinalHits(fst, input, heap, pos, state, prefix))
            == RunHits(Candidates(heap), prefix, if Accepts(fst, input, pos, state) then {Run([], [])} else {})
  {
    var acc: set<Run> := if Accepts(fst, input, pos, state) then {Run([], [])} else {};
    var fin := FinalHits(fst, input, heap, pos, state, prefix);
    assert Pivot([]) == 0 && prefix + [] == prefix;
    if heap.Some? {
      forall h | h in RunHits(Candidates(heap), prefix, acc) ensures h in HitSet(fin) {
        var c, r :| c in Candidates(heap) && r in acc && |prefix + r.path| > 0 && h == Hit(Max(c, Pivot(r.output)), prefix + r.path);
        assert c in HitPivots(fin);
      }
      forall h | h in HitSet(fin) ensures h in RunHits(Candidates(heap), prefix, acc) {
        assert h.pivot in HitPivots(fin) && h.path == prefix;
        assert h.pivot in Candidates(heap) && h.pivot > 0;
        assert Run([], []) in acc;
        assert h == Hit(Max(h.pivot, Pivot(Run([], []).output)), prefix + Run([], []).path);
      }
    }
  }

  /**
   Taking an emitting transition: searching on behind the extended path with
   the candidates raised by the emitted items is the same as following the runs
   that have the transition's pair and one of those items in front.
   */
  lemma RunHitsStep(cands: set<int>, add: set<int>, pair: seq<int>, prefix: seq<int>, rest: set<Run>)
    requires |pair| > 0
    ensures RunHits(MaxSet(cands, add), prefix + pair, rest) == RunHits(cands, prefix, Extended(pair, add, rest))
  {
    forall h | h in RunHits(MaxSet(cands, add), prefix + pair, rest) ensures h in RunHits(cands, prefix, Extended(pair, add, rest)) {
      RunHitForward(cands, add, pair, prefix, rest, h);
    }
    forall h | h in RunHits(cands, prefix, Extended(pair, add, rest)) ensures h in RunHits(MaxSet(cands, add), prefix + pair, rest) {
      RunHitBackward(cands, add, pair, prefix, rest, h);
    }
  }

  lemma RunHitForward(cands: set<int>, add: set<int>, pair: seq<int>, prefix: seq<int>, rest: set<Run>, h: Hit)
    requires |pair| > 0 && h in RunHits(MaxSet(cands, add), prefix + pair, rest)
    ensures h in RunHits(cands, prefix, Extended(pair, add, rest))
  {
    var m, r :| m in MaxSet(cands, add) && r in rest && h == HitOf(m, prefix + pair, r);
    var c, a :| c in cands && a in add && m == Max(c, a);
    HitOfBehind(c, a, pair, prefix, r);
    var r' := Run(pair + r.path, [a] + r.output);
    assert r' in Extended(pair, add, rest);
    assert |prefix| + |r'.path| > 0;
  }

  lemma RunHitBackward(cands: set<int>, add: set<int>, pair: seq<int>, prefix: seq<int>, rest: set<Run>, h: Hit)
    requires |pair| > 0 && h in RunHits(cands, prefix, Extended(pair, add, rest))
    ensures h in RunHits(MaxSet(cands, add), prefix + pair, rest)
  {
    var c, r' :| c in cands && r' in Extended(pair, add, rest) && h == HitOf(c, prefix, r');
    var a, r :| a in add && r in rest && r' == Run(pair + r.path, [a] + r.output);
    HitOfBehind(c, a, pair, prefix, r);
    assert Max(c, a) in MaxSet(cands, add);
    assert |prefix + pair| + |r.path| > 0;
  }

  /**
   The path search from any heap and path so far records exactly the hits of
   the runs from its configuration.
   */
  lemma {:induction false} FindPathsRunsStep(fst: Fst, lff: int, input: seq<int>, heap: Option<seq<int>>, pos: nat, state: nat, prefix: seq<int>)
    requires WellFormed(fst, input) && pos <= |input| && HeapOk(heap) && PositiveHeap(heap) && PathMatchesHeap(heap, prefix)
    ensures HitSet(FindPathsStep(fst, lff, input, heap, pos, state, prefix))
            == RunHits(Candidates(heap), prefix, Runs(fst, lff, input, pos, state))
    decreases |input| - pos, 2, 0
  {
    var acc: set<Run> := if Accepts(fst, input, pos, state) then {Run([], [])} else {};
    var fin := FinalHits(fst, input, heap, pos, state, prefix);
    FinalRunHits(fst, input, heap, pos, state, prefix);
    if pos < |input| {
      var trs := fst.consumeCompressed(state, input[pos]);
      FindTransitionsRuns(fst, lff, input, heap, pos, trs, prefix);
      HitSetAppend(fin, FindTransitions(fst, lff, input, heap, pos, trs, prefix));
      RunHitsUnion(Candidates(heap), prefix, acc, RunsVia(fst, lff, input, pos, trs));
    } else {
      assert FindPathsStep(fst, lff, input, heap, pos, state, prefix) == fin;
      assert Runs(fst, lff, input, pos, state) == acc;
    }
  }

  lemma {:induction false} FindTransitionsRuns(fst: Fst, lff: int, input: seq<int>, heap: Option<seq<int>>, pos: nat, trs: seq<Transition>, prefix: seq<int>)
    requires WellFormed(fst, input) && pos < |input| && HeapOk(heap) && PositiveHeap(heap) && PathMatchesHeap(heap, prefix)
    requires TransitionsOk(fst, trs, input[pos])
    ensures HitSet(FindTransitions(fst, lff, input, heap, pos, trs, prefix))
            == RunHits(Candidates(heap), prefix, RunsVia(fst, lff, input, pos, trs))
    decreases |input| - pos, 1, |trs|
  {
    if |trs| > 0 {
      TransitionsOkTail(fst, trs, input[pos]);
      assert TransitionsOk(fst, [trs[0]], input[pos]) by {
        assert [trs[0]][0] == trs[0];
      }
      FindTransitionRuns(fst, lff, input, heap, pos, trs[0], prefix);
      FindTransitionsRuns(fst, lff, input, heap, pos, trs[1..], prefix);
      HitSetAppend(FindTransition(fst, lff, input, heap, pos, trs[0], prefix),
                   FindTransitions(fst, lff, input, heap, pos, trs[1..], prefix));
      RunHitsUnion(Candidates(heap), prefix, RunsOf(fst, lff, input, pos, trs[0]), RunsVia(fst, lff, input, pos, trs[1..]));
    }
  }

  lemma {:induction false} FindTransitionRuns(fst: Fst, lff: int, input: seq<int>, heap: Option<seq<int>>, pos: nat, tr: Transition, prefix: seq<int>)
    requires WellFormed(fst, input) && pos < |input| && HeapOk(heap) && PositiveHeap(heap) && PathMatchesHeap(heap, prefix)
    requires TransitionsOk(fst, [tr], input[pos])
    ensures HitSet(FindTransition(fst, lff, input, heap, pos, tr, prefix))
            == RunHits(Candidates(heap), prefix, RunsOf(fst, lff, input, pos, tr))
    decreases |input| - pos, 0, 2
  {
    assert [tr][0] == tr;
    match tr.kind
    case Epsilon =>
      FindPathsRunsStep(fst, lff, input, heap, pos + 1, tr.to, prefix);
    case Constant(c) =>
      ItemRuns(fst, lff, input, heap, pos, tr, prefix, c);
    case Self =>
      ItemRuns(fst, lff, input, heap, pos, tr, prefix, input[pos]);
    case SelfGeneralize =>
      GeneralizeRuns(fst, lff, input, heap, pos, tr, prefix);
  }

  /** A CONSTANT or SELF transition, which emits and puts on the path the single item a. */
  lemma {:induction false} ItemRuns(fst: Fst, lff: int, input: seq<int>, heap: Option<seq<int>>, pos: nat, tr: Transition,
                                    prefix: seq<int>, a: int)
    requires WellFormed(fst, input) && pos < |input| && HeapOk(heap) && PositiveHeap(heap) && PathMatchesHeap(heap, prefix)
    requires TransitionsOk(fst, [tr], input[pos])
    requires tr.kind == Constant(a) || (tr.kind.Self? && a == input[pos])
    ensures HitSet(FindTransition(fst, lff, input, heap, pos, tr, prefix))
            == RunHits(Candidates(heap), prefix, RunsOf(fst, lff, input, pos, tr))
    decreases |input| - pos, 0, 0
  {
    assert [tr][0] == tr;
    var pair := [tr.number, a];
    var rest := Runs(fst, lff, input, pos + 1, tr.to);
    assert OutputItems(fst, tr.number, tr.kind, input[pos]) == [a] && PathItem(tr.kind, input[pos]) == a;
    assert a > 0;
    if lff >= a {
      assert Frequent([a], lff) == {a};
      var h' := Some(UnionItem(heap, a));
      assert PositiveHeap(h');
      FindPathsRunsStep(fst, lff, input, h', pos + 1, tr.to, prefix + pair);
      UnionItemMeaning(heap, a);
      RunHitsStep(Candidates(heap), {a}, pair, prefix, rest);
    } else {
      assert Frequent([a], lff) == {};
      assert Extended(pair, {}, rest) == {};
    }
  }

  /** A SELF_GENERALIZE transition, which puts the input item on the path and emits any of its frequent ascendants. */
  lemma {:induction false} GeneralizeRuns(fst: Fst, lff: int, input: seq<int>, heap: Option<seq<int>>, pos: nat, tr: Transition,
                                          prefix: seq<int>)
    requires WellFormed(fst, input) && pos < |input| && HeapOk(heap) && PositiveHeap(heap) && PathMatchesHeap(heap, prefix)
    requires TransitionsOk(fst, [tr], input[pos]) && tr.kind.SelfGeneralize?
    ensures HitSet(FindTransition(fst, lff, input, heap, pos, tr, prefix))
            == RunHits(Candidates(heap), prefix, RunsOf(fst, lff, input, pos, tr))
    decreases |input| - pos, 0, 1
  {
    var asc := fst.ascendants(tr.number, input[pos]);
    assert [tr][0] == tr;
    assert AscendantsOk(asc, input[pos]);
    var pair := [tr.number, input[pos]];
    var rest := Runs(fst, lff, input, pos + 1, tr.to);
    assert RunsOf(fst, lff, input, pos, tr) == Extended(pair, Frequent(asc, lff), rest);
    if lff >= asc[0] {
      assert FindTransition(fst, lff, input, heap, pos, tr, prefix)
             == FindPathsStep(fst, lff, input, Some(UnionAscendants(heap, asc, lff)), pos + 1, tr.to, prefix + pair);
      GeneralizeTaken(fst, lff, input, heap, pos, asc, tr.to, prefix, pair);
    } else {
      assert Frequent(asc, lff) == {} by {
        forall x | x in asc ensures x > lff {
          var i :| 0 <= i < |asc| && asc[i] == x;
          assert i == 0 || asc[0] < asc[i];
        }
      }
      assert Extended(pair, {}, rest) == {};
    }
  }

  /** Searching on behind the input item with the heap united with its frequent ascendants. */
  lemma {:induction false} GeneralizeTaken(fst: Fst, lff: int, input: seq<int>, heap: Option<seq<int>>, pos: nat, asc: seq<int>, to: nat,
                                           prefix: seq<int>, pair: seq<int>)
    requires WellFormed(fst, input) && pos < |input| && HeapOk(heap) && PositiveHeap(heap) && PathMatchesHeap(heap, prefix)
    requires AscendantsOk(asc, input[pos]) && lff >= asc[0] && |pair| > 0
    ensures HitSet(FindPathsStep(fst, lff, input, Some(UnionAscendants(heap, asc, lff)), pos + 1, to, prefix + pair))
            == RunHits(Candidates(heap), prefix, Extended(pair, Frequent(asc, lff), Runs(fst, lff, input, pos + 1, to)))
    decreases |input| - pos, 0, 0
  {
    var h' := Some(UnionAscendants(heap, asc, lff));
    UnionAscendantsPositive(heap, asc, lff);
    FindPathsRunsStep(fst, lff, input, h', pos + 1, to, prefix + pair);
    UnionAscendantsMeaning(heap, asc, lff);
    RunHitsStep(Candidates(heap), Frequent(asc, lff), pair, prefix, Runs(fst, lff, input, pos + 1, to));
  }

  lemma UnionAscendantsPositive(heap: Option<seq<int>>, asc: seq<int>, lff: int)
    requires HeapOk(heap) && PositiveHeap(heap)
    requires |asc| > 0 && StrictlyAscending(asc) && AllPositive(asc) && asc[0] <= lff
    ensures PositiveHeap(Some(UnionAscendants(heap, asc, lff)))
  {
  }

  /** From the start (candidate 0, empty path so far) the hits of the runs are their non-empty paths under their own pivots. */
  lemma RunHitsAtStart(runs: set<Run>, p: int, path: seq<int>)
    ensures Hit(p, path) in RunHits({0}, [], runs)
            <==> exists r | r in runs :: r.path == path && |path| > 0 && Pivot(r.output) == p
  {
    if Hit(p, path) in RunHits({0}, [], runs) {
      var c, r :| c in {0} && r in runs && |r.path| > 0 && Hit(p, path) == HitOf(c, [], r);
      assert [] + r.path == r.path;
    }
    if exists r | r in runs :: r.path == path && |path| > 0 && Pivot(r.output) == p {
      var r :| r in runs && r.path == path && |path| > 0 && Pivot(r.output) == p;
      assert [] + r.path == path;
      assert Hit(p, path) == HitOf(0, [], r);
    }
  }

  /**
   Started as the miner starts it, the path search sends a path to the
   partition of pivot p exactly when the path is the non-empty (transition
   number, item) sequence of an accepting run whose frequent output has pivot
   p.
   */
  lemma FindPathsRuns(fst: Fst, lff: int, input: seq<int>)
    requires WellFormed(fst, input)
    ensures forall p, path :: path in PathsFor(FindPaths(fst, lff, input), p) <==>
              exists r | r in Runs(fst, lff, input, 0, fst.initial) :: r.path == path && |path| > 0 && Pivot(r.output) == p
  {
    var runs := Runs(fst, lff, input, 0, fst.initial);
    var hits := FindPaths(fst, lff, input);
    FindPathsRunsStep(fst, lff, input, None, 0, fst.initial, []);
    assert HitSet(hits) == RunHits({0}, [], runs);
    forall p, path ensures path in PathsFor(hits, p) <==> exists r | r in runs :: r.path == path && |path| > 0 && Pivot(r.output) == p {
      RunHitsAtStart(runs, p, path);
      assert Hit(p, path) in hits <==> Hit(p, path) in HitSet(hits);
    }
  }
}
