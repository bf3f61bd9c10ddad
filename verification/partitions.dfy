/** The partition map of createPartitions: pivot item to the lists sent to it. */
module Routing {
  import opened Basics

  /** The loop body of createPartitions: one list per pivot of the payload, extended or created. */
  method AddToPartitions(parts: map<int, seq<seq<int>>>, payload: map<int, seq<int>>) returns (r: map<int, seq<seq<int>>>)
    ensures r.Keys == parts.Keys + payload.Keys
    ensures forall p | p in r && p !in payload :: r[p] == parts[p]
    ensures forall p | p in payload :: r[p] == (if p in parts then parts[p] else []) + [payload[p]]
  {
    r := parts;
    var todo := payload.Keys;
    while todo != {}
      invariant todo <= payload.Keys
      invariant r.Keys == parts.Keys + (payload.Keys - todo)
      invariant forall p | p in r && (p !in payload || p in todo) :: r[p] == parts[p]
      invariant forall p | p in payload && p !in todo :: r[p] == (if p in parts then parts[p] else []) + [payload[p]]
      decreases todo
    {
      NonEmptyHasElement(todo);
      var q :| q in todo;
      if q in r {
        r := r[q := r[q] + [payload[q]]];
      } else {
        r := r[q := [payload[q]]];
      }
      todo := todo - {q};
    }
  }

  /**
   The positions among the first n sequences that hold pivot p, in input
   order; `has(p, i)` says whether sequence i holds p.
   */
  ghost function Holders(has: (int, nat) -> bool, n: nat, p: int): (r: seq<nat>)
    ensures forall k | 0 <= k < |r| :: r[k] < n
  {
    if n == 0 then [] else Holders(has, n - 1, p) + (if has(p, n - 1) then [n - 1] else [])
  }

  /** Holders lists each holder among the first n sequences exactly once, in increasing order. */
  lemma {:induction false} HoldersMeaning(has: (int, nat) -> bool, n: nat, p: int)
    ensures var r := Holders(has, n, p);
            && (forall a, b | 0 <= a < b < |r| :: r[a] < r[b])
            && (forall i: nat :: i in r <==> i < n && has(p, i))
  {
    if n > 0 {
      HoldersMeaning(has, n - 1, p);
    }
  }

  /** The list of p after the first n sequences: one payload per holder, in order, each accepted by `ok`. */
  ghost predicate ListOk(has: (int, nat) -> bool, ok: (int, nat, seq<int>) -> bool, n: nat, p: int, list: seq<seq<int>>)
  {
    var h := Holders(has, n, p);
    |list| == |h| && forall k | 0 <= k < |h| :: ok(p, h[k], list[k])
  }

  /** One more sequence: its payload, if it holds p, goes after the payloads of the earlier holders. */
  lemma ExtendHolders(has: (int, nat) -> bool, ok: (int, nat, seq<int>) -> bool, j: nat, p: int,
                      list: seq<seq<int>>, extra: seq<seq<int>>)
    requires ListOk(has, ok, j, p, list)
    requires |extra| <= 1 && (|extra| == 1 <==> has(p, j))
    requires forall k | 0 <= k < |extra| :: ok(p, j, extra[k])
    ensures ListOk(has, ok, j + 1, p, list + extra)
  {
    var h0 := Holders(has, j, p);
    var h := Holders(has, j + 1, p);
    assert h == h0 + (if |extra| == 1 then [j] else []);
    forall k | 0 <= k < |h| ensures ok(p, h[k], (list + extra)[k]) {
      if k < |h0| {
        assert h[k] == h0[k] && (list + extra)[k] == list[k];
      } else {
        assert h[k] == j && (list + extra)[k] == extra[0];
      }
    }
  }

  /** No holder so far: the list is empty. */
  lemma {:induction false} HoldersEmpty(has: (int, nat) -> bool, n: nat, p: int)
    requires forall i: nat | i < n :: !has(p, i)
    ensures Holders(has, n, p) == []
  {
    if n > 0 {
      HoldersEmpty(has, n - 1, p);
    }
  }

  /**
   One round of createPartitions on the lists: when the lists so far are
   right for the first j sequences and AddToPartitions appends sequence j's
   payloads, the lists are right for the first j + 1.
   */
  lemma RouteLists(has: (int, nat) -> bool, ok: (int, nat, seq<int>) -> bool, j: nat,
                   parts: map<int, seq<seq<int>>>, payload: map<int, seq<int>>, next: map<int, seq<seq<int>>>)
    requires forall p | p in parts :: ListOk(has, ok, j, p, parts[p])
    requires forall p, i: nat | p !in parts && i < j :: !has(p, i)
    requires forall p :: p in payload <==> has(p, j)
    requires forall p | p in payload :: ok(p, j, payload[p])
    requires next.Keys == parts.Keys + payload.Keys
    requires forall p | p in next && p !in payload :: next[p] == parts[p]
    requires forall p | p in payload :: next[p] == (if p in parts then parts[p] else []) + [payload[p]]
    ensures forall p | p in next :: ListOk(has, ok, j + 1, p, next[p])
  {
    forall p | p in next ensures ListOk(has, ok, j + 1, p, next[p]) {
      var list := if p in parts then parts[p] else [];
      var extra := if p in payload then [payload[p]] else [];
      if p !in parts {
        HoldersEmpty(has, j, p);
      }
      assert next[p] == list + extra;
      ExtendHolders(has, ok, j, p, list, extra);
    }
  }
}

/**
 The distributed front end: which input sequences the miner keeps, and how
 createPartitions sends every sequence (or its output paths) to the partition
 of each of its pivot items. The relevance test of the pattern automaton is
 an opaque predicate; its only assumed property is that a sequence with an
 output is relevant.
 */
module Partitions {
  import opened Basics
  import opened Transducer
  import opened PivotSearch
  import opened FindPaths
  import opened Concat
  import opened Expansion
  import OutputNfa
  import SuffixMerge
  import NfaWrite
  import Routing

  /**
   The switches of the one-pass miner that decide admission and the partition
   format, each read separately from the configuration.
   */
  datatype Options = Options(
    pruneIrrelevantInputs: bool,
    useCompressedTransitions: bool,
    useTransitionRepresentation: bool,
    useTreeRepresentation: bool,
    mergeSuffixes: bool)

  /** What a partition receives per sequence: the sequence itself, its concatenated paths, or its serialised path NFA. */
  datatype Representation = Sequences | Concatenated | PathTree(mergeSuffixes: bool)

  /**
   The representation createPartitions dispatches on: the tree switch wins
   over the transition switch; with neither, sequences are sent as they are.
   */
  function Format(opts: Options): (r: Representation)
    ensures r.PathTree? <==> opts.useTreeRepresentation
    ensures r.Concatenated? <==> !opts.useTreeRepresentation && opts.useTransitionRepresentation
    ensures r.PathTree? ==> r.mergeSuffixes == opts.mergeSuffixes
  {
    if opts.useTreeRepresentation then PathTree(opts.mergeSuffixes)
    else if opts.useTransitionRepresentation then Concatenated
    else Sequences
  }

  /** Whether createPartitions sends paths rather than the sequence. */
  predicate UsesPaths(opts: Options)
  {
    !Format(opts).Sequences?
  }

  // -- addInputSequence ------------------------------------------------------------------------------------------------

  /** The assumed contract of the relevance test: it never rejects a sequence that has an output. */
  ghost predicate RelevanceSound(fst: Fst, lff: int, relevant: seq<int> -> bool)
  {
    forall input :: !relevant(input) ==> Outputs(fst, lff, input, 0, fst.initial) == {}
  }

  /**
   addInputSequence of the one-pass miner: the sequence is appended to the
   database unless irrelevant inputs are pruned, the sequence is irrelevant,
   and the transition switch is off. Only the transition switch exempts a
   sequence: with the tree switch alone, an irrelevant sequence is dropped.
   */
  function AddInputSequence(opts: Options, relevant: seq<int> -> bool, db: seq<Input>, input: seq<int>, support: nat): (r: seq<Input>)
    ensures |db| <= |r| <= |db| + 1 && r[..|db|] == db
    ensures |r| == |db| + 1 ==> r[|db|] == Input(input, support)
    ensures |r| == |db| <==> opts.pruneIrrelevantInputs && !opts.useTransitionRepresentation && !relevant(input)
  {
    if !opts.pruneIrrelevantInputs || opts.useTransitionRepresentation || relevant(input) then db + [Input(input, support)] else db
  }

  /** A dropped sequence has no output, hence no pivot, hence reaches no partition and supports no pattern. */
  lemma DroppedHasNoOutputs(opts: Options, fst: Fst, lff: int, relevant: seq<int> -> bool, db: seq<Input>, input: seq<int>, support: nat)
    requires RelevanceSound(fst, lff, relevant)
    requires AddInputSequence(opts, relevant, db, input, support) == db
    ensures Outputs(fst, lff, input, 0, fst.initial) == {}
    ensures SequencePivots(fst, lff, input) == {}
  {
    assert |AddInputSequence(opts, relevant, db, input, support)| == |db|;
    assert Outputs(fst, lff, input, 0, fst.initial) == {};
  }

  // -- per-sequence payloads -------------------------------------------------------------------------------------------

  /**
   The pivot items of a sequence as createPartitions computes them: the plain
   representation runs the pivot search only on admitted sequences; the
   path representations search the paths of every sequence.
   */
  function PartitionPivots(opts: Options, fst: Fst, lff: int, relevant: seq<int> -> bool, input: seq<int>): set<int>
  {
    if UsesPaths(opts) || !opts.pruneIrrelevantInputs || relevant(input) then SequencePivots(fst, lff, input) else {}
  }

  /** The output NFA accepts exactly the label sequences of `paths`. */
  ghost predicate Language(nfa: OutputNfa.Nfa, paths: seq<seq<int>>)
  {
    forall w :: OutputNfa.Accepts(nfa, w) <==> exists i | 0 <= i < |paths| :: w == OutputNfa.Labels(paths[i])
  }

  /** With suffix merging: every state with a recorded position is laid out there, the root at 0. */
  ghost predicate LaidOut(nfa: OutputNfa.Nfa, buf: seq<int>, W: map<nat, nat>)
  {
    Root() in W && W[Root()] == 0 && forall x | x in W :: x in nfa.states && NfaWrite.LayoutAt(nfa, buf, W, x)
  }

  function Root(): nat { OutputNfa.Root }

  /**
   `buf` is the serialised path NFA of `paths`: without merging, the tree
   built from the paths written from position 0; with merging, the tree
   after its suffixes were merged (same states, finality, out-labels and
   accepted label sequences) written with each state once.
   */
  ghost predicate TreeWritten(paths: seq<seq<int>>, merge: bool, buf: seq<int>)
  {
    exists built: OutputNfa.Nfa ::
      && OutputNfa.Built(built) && built.merge == merge && Language(built, paths)
      && (!merge ==> NfaWrite.EncodesAt(built, buf, 0, Root()))
      && (merge ==> exists nfa: OutputNfa.Nfa, W: map<nat, nat> ::
            SuffixMerge.Frame(built, nfa) && OutputNfa.ArenaOk(nfa) && Language(nfa, paths) && LaidOut(nfa, buf, W))
  }

  /** What the partition of pivot p receives from `input` in each representation. */
  ghost predicate PayloadOk(opts: Options, fst: Fst, lff: int, input: seq<int>, p: int, payload: seq<int>)
    requires WellFormed(fst, input)
  {
    match Format(opts)
    case Sequences => payload == input
    case Concatenated => Decode(payload) == Some(PathsFor(FindPaths.FindPaths(fst, lff, input), p))
    case PathTree(merge) => TreeWritten(PathsFor(FindPaths.FindPaths(fst, lff, input), p), merge, payload)
  }

  /**
   One sequence's contribution to createPartitions: for each of its pivots,
   the list sent to that pivot's partition (getPivotItemsOfOneSequence,
   getPivotItemsAndTransitionRepresentationOfOneSequence,
   getPivotItemsAndTreeRepresentationOfOneSequence).
   */
  method SequencePayload(opts: Options, fst: Fst, lff: int, relevant: seq<int> -> bool, input: seq<int>)
    returns (payload: map<int, seq<int>>)
    requires WellFormed(fst, input)
    ensures payload.Keys == PartitionPivots(opts, fst, lff, relevant, input)
    ensures forall p | p in payload :: PayloadOk(opts, fst, lff, input, p, payload[p])
  {
    match Format(opts)
    case Sequences =>
      payload := PlainPayload(opts, fst, lff, relevant, input);
    case Concatenated =>
      payload := ConcatPayload(fst, lff, input);
    case PathTree(merge) =>
      payload := TreePayloads(fst, lff, input, merge);
  }

  /** getPivotItemsOfOneSequence: the sequence itself goes to each of its pivots, found by either one-pass search. */
  method PlainPayload(opts: Options, fst: Fst, lff: int, relevant: seq<int> -> bool, input: seq<int>)
    returns (payload: map<int, seq<int>>)
    requires WellFormed(fst, input) && Format(opts).Sequences?
    ensures payload.Keys == PartitionPivots(opts, fst, lff, relevant, input)
    ensures forall p | p in payload :: payload[p] == input
  {
    SearchesAgree(fst, lff, input);
    var pivots: set<int> := {};
    if !opts.pruneIrrelevantInputs || relevant(input) {
      if opts.useCompressedTransitions {
        pivots := PiStepCompressed(fst, lff, input, None, 0, fst.initial);
      } else {
        pivots := PiStepOnePass(fst, lff, input, 0, 0, fst.initial);
      }
    }
    payload := map p | p in pivots :: input;
  }

  /** The concatenated representation: each pivot's path list, encoded; it decodes to exactly that list. */
  method ConcatPayload(fst: Fst, lff: int, input: seq<int>) returns (payload: map<int, seq<int>>)
    requires WellFormed(fst, input)
    ensures payload.Keys == SequencePivots(fst, lff, input)
    ensures forall p | p in payload :: Decode(payload[p]) == Some(PathsFor(FindPaths.FindPaths(fst, lff, input), p))
  {
    FindPathsRoutesToPivots(fst, lff, input);
    var hits := FindPaths.FindPaths(fst, lff, input);
    payload := map p | p in HitPivots(hits) :: EncodeOne(hits, p);
  }

  function EncodeOne(hits: seq<Hit>, p: int): (send: seq<int>)
    ensures Decode(send) == Some(PathsFor(hits, p))
  {
    DecodeEncode(PathsFor(hits, p));
    Encode(PathsFor(hits, p))
  }

  /** The paths the search records are pairs of (transition number, item). */
  lemma PathsForEven(fst: Fst, lff: int, input: seq<int>, p: int)
    requires WellFormed(fst, input)
    ensures OutputNfa.EvenPaths(PathsFor(FindPaths.FindPaths(fst, lff, input), p))
  {
    FindPathsRoutesToPivots(fst, lff, input);
    var paths := PathsFor(FindPaths.FindPaths(fst, lff, input), p);
    forall i | 0 <= i < |paths| ensures |paths[i]| % 2 == 0 {
      assert paths[i] in paths;
    }
  }

  /** The tree representation: one serialised path NFA per pivot. */
  method TreePayloads(fst: Fst, lff: int, input: seq<int>, merge: bool) returns (payload: map<int, seq<int>>)
    requires WellFormed(fst, input)
    ensures payload.Keys == SequencePivots(fst, lff, input)
    ensures forall p | p in payload :: TreeWritten(PathsFor(FindPaths.FindPaths(fst, lff, input), p), merge, payload[p])
  {
    FindPathsRoutesToPivots(fst, lff, input);
    var hits := FindPaths.FindPaths(fst, lff, input);
    payload := map[];
    var todo := HitPivots(hits);
    while todo != {}
      invariant todo <= HitPivots(hits)
      invariant payload.Keys == HitPivots(hits) - todo
      invariant forall p | p in payload :: TreeWritten(PathsFor(hits, p), merge, payload[p])
      decreases todo
    {
      NonEmptyHasElement(todo);
      var p :| p in todo;
      PathsForEven(fst, lff, input, p);
      var buf := TreePayload(PathsFor(hits, p), merge);
      payload := payload[p := buf];
      todo := todo - {p};
    }
  }

  /** Builds the path NFA of one partition, merges its suffixes if asked to, and serialises it. */
  method TreePayload(paths: seq<seq<int>>, merge: bool) returns (buf: seq<int>)
    requires OutputNfa.EvenPaths(paths)
    ensures TreeWritten(paths, merge, buf)
  {
    var built := OutputNfa.BuildNfa(paths, merge);
    var nfa := built;
    if merge {
      nfa := SuffixMerge.MergeSuffixes(built, built.next + 1);
    }
    var W;
    buf, W := NfaWrite.Write(nfa);
    if merge {
      assert LaidOut(nfa, buf, W);
    }
  }

  // -- createPartitions ------------------------------------------------------------------------------------------------

  /** Whether sequence i has pivot p. */
  function HasPivot(opts: Options, fst: Fst, lff: int, relevant: seq<int> -> bool, inputs: seq<seq<int>>): (int, nat) -> bool
  {
    (p: int, i: nat) => i < |inputs| && p in PartitionPivots(opts, fst, lff, relevant, inputs[i])
  }

  /** Whether a payload is what sequence i sends to the partition of p. */
  ghost function PayloadOf(opts: Options, fst: Fst, lff: int, inputs: seq<seq<int>>): (int, nat, seq<int>) -> bool
  {
    (p: int, i: nat, payload: seq<int>) =>
      i < |inputs| && WellFormed(fst, inputs[i]) && PayloadOk(opts, fst, lff, inputs[i], p, payload)
  }

  /** The first n sequences (by position) whose pivots include p, in input order: the reference routing. */
  ghost function Holders(opts: Options, fst: Fst, lff: int, relevant: seq<int> -> bool, inputs: seq<seq<int>>, n: nat, p: int): seq<nat>
  {
    Routing.Holders(HasPivot(opts, fst, lff, relevant, inputs), n, p)
  }

  /** The partition keys after the first n sequences: the pivots of any of them. */
  ghost function AllPivots(opts: Options, fst: Fst, lff: int, relevant: seq<int> -> bool, inputs: seq<seq<int>>, n: nat): set<int>
    requires n <= |inputs|
  {
    set i, p | 0 <= i < n && p in PartitionPivots(opts, fst, lff, relevant, inputs[i]) :: p
  }

  ghost predicate AllWellFormed(fst: Fst, inputs: seq<seq<int>>)
  {
    forall i | 0 <= i < |inputs| :: WellFormed(fst, inputs[i])
  }

  /**
   The partitions after the first n sequences: the keys are their pivots, and
   each list holds one payload per holder, in order.
   */
  ghost predicate Routed(opts: Options, fst: Fst, lff: int, relevant: seq<int> -> bool, inputs: seq<seq<int>>, n: nat,
                         parts: map<int, seq<seq<int>>>)
    requires n <= |inputs|
  {
    && parts.Keys == AllPivots(opts, fst, lff, relevant, inputs, n)
    && forall p | p in parts :: ListOk(opts, fst, lff, relevant, inputs, n, p, parts[p])
  }

  /** The list of pivot p after the first n sequences. */
  ghost predicate ListOk(opts: Options, fst: Fst, lff: int, relevant: seq<int> -> bool, inputs: seq<seq<int>>, n: nat,
                         p: int, list: seq<seq<int>>)
  {
    Routing.ListOk(HasPivot(opts, fst, lff, relevant, inputs), PayloadOf(opts, fst, lff, inputs), n, p, list)
  }

  /**
   createPartitions: for every sequence in order, computes its payloads and
   appends each to the list of its pivot, creating the list on first use.
   Afterwards the partition of pivot p holds, in input order, one payload for
   each sequence whose pivots include p, and nothing else.
   */
  method CreatePartitions(opts: Options, fst: Fst, lff: int, relevant: seq<int> -> bool, inputs: seq<seq<int>>)
    returns (parts: map<int, seq<seq<int>>>)
    requires AllWellFormed(fst, inputs)
    ensures Routed(opts, fst, lff, relevant, inputs, |inputs|, parts)
  {
    parts := map[];
    for j := 0 to |inputs|
      invariant Routed(opts, fst, lff, relevant, inputs, j, parts)
    {
      var payload := SequencePayload(opts, fst, lff, relevant, inputs[j]);
      var next := Routing.AddToPartitions(parts, payload);
      RouteStep(opts, fst, lff, relevant, inputs, j, parts, payload, next);
      parts := next;
    }
  }

  lemma AllPivotsStep(opts: Options, fst: Fst, lff: int, relevant: seq<int> -> bool, inputs: seq<seq<int>>, j: nat)
    requires j < |inputs|
    ensures AllPivots(opts, fst, lff, relevant, inputs, j + 1)
         == AllPivots(opts, fst, lff, relevant, inputs, j) + PartitionPivots(opts, fst, lff, relevant, inputs[j])
  {
    forall p | p in AllPivots(opts, fst, lff, relevant, inputs, j + 1)
      ensures p in AllPivots(opts, fst, lff, relevant, inputs, j) + PartitionPivots(opts, fst, lff, relevant, inputs[j])
    {
      var i :| 0 <= i < j + 1 && p in PartitionPivots(opts, fst, lff, relevant, inputs[i]);
    }
  }

  /** A pivot held by one of the first n sequences is a partition key. */
  lemma HeldIsKey(opts: Options, fst: Fst, lff: int, relevant: seq<int> -> bool, inputs: seq<seq<int>>, n: nat, p: int)
    requires n <= |inputs|
    ensures p in AllPivots(opts, fst, lff, relevant, inputs, n)
            || forall i: nat | i < n :: !HasPivot(opts, fst, lff, relevant, inputs)(p, i)
  {
    if exists i: nat :: i < n && HasPivot(opts, fst, lff, relevant, inputs)(p, i) {
      var i: nat :| i < n && HasPivot(opts, fst, lff, relevant, inputs)(p, i);
      assert p in PartitionPivots(opts, fst, lff, relevant, inputs[i]);
    }
  }

  lemma RouteStep(opts: Options, fst: Fst, lff: int, relevant: seq<int> -> bool, inputs: seq<seq<int>>, j: nat,
                  parts: map<int, seq<seq<int>>>, payload: map<int, seq<int>>, next: map<int, seq<seq<int>>>)
    requires AllWellFormed(fst, inputs) && j < |inputs|
    requires Routed(opts, fst, lff, relevant, inputs, j, parts)
    requires payload.Keys == PartitionPivots(opts, fst, lff, relevant, inputs[j])
    requires forall p | p in payload :: PayloadOk(opts, fst, lff, inputs[j], p, payload[p])
    requires next.Keys == parts.Keys + payload.Keys
    requires forall p | p in next && p !in payload :: next[p] == parts[p]
    requires forall p | p in payload :: next[p] == (if p in parts then parts[p] else []) + [payload[p]]
    ensures Routed(opts, fst, lff, relevant, inputs, j + 1, next)
  {
    AllPivotsStep(opts, fst, lff, relevant, inputs, j);
    NotHeldBefore(opts, fst, lff, relevant, inputs, j, parts.Keys);
    HeldNow(opts, fst, lff, relevant, inputs, j, payload.Keys);
    PayloadsAccepted(opts, fst, lff, inputs, j, payload);
    Routing.RouteLists(HasPivot(opts, fst, lff, relevant, inputs), PayloadOf(opts, fst, lff, inputs), j, parts, payload, next);
  }

  /** A pivot that is not a key yet is held by none of the first j sequences. */
  lemma NotHeldBefore(opts: Options, fst: Fst, lff: int, relevant: seq<int> -> bool, inputs: seq<seq<int>>, j: nat, keys: set<int>)
    requires j <= |inputs| && keys == AllPivots(opts, fst, lff, relevant, inputs, j)
    ensures forall p, i: nat | p !in keys && i < j :: !HasPivot(opts, fst, lff, relevant, inputs)(p, i)
  {
    forall p, i: nat | p !in keys && i < j ensures !HasPivot(opts, fst, lff, relevant, inputs)(p, i) {
      HeldIsKey(opts, fst, lff, relevant, inputs, j, p);
    }
  }

  /** Sequence j holds exactly the pivots of its payload. */
  lemma HeldNow(opts: Options, fst: Fst, lff: int, relevant: seq<int> -> bool, inputs: seq<seq<int>>, j: nat, keys: set<int>)
    requires j < |inputs| && keys == PartitionPivots(opts, fst, lff, relevant, inputs[j])
    ensures forall p :: p in keys <==> HasPivot(opts, fst, lff, relevant, inputs)(p, j)
  {
  }

  /** Sequence j's payloads are what it sends to each partition. */
  lemma PayloadsAccepted(opts: Options, fst: Fst, lff: int, inputs: seq<seq<int>>, j: nat, payload: map<int, seq<int>>)
    requires j < |inputs| && WellFormed(fst, inputs[j])
    requires forall p | p in payload :: PayloadOk(opts, fst, lff, inputs[j], p, payload[p])
    ensures forall p | p in payload :: PayloadOf(opts, fst, lff, inputs)(p, j, payload[p])
  {
  }

  /** A pivot's partition is non-empty, and every sequence in it produces an output with that pivot. */
  lemma PartitionsAreRelevant(opts: Options, fst: Fst, lff: int, relevant: seq<int> -> bool, inputs: seq<seq<int>>,
                              parts: map<int, seq<seq<int>>>, p: int, k: nat)
    requires AllWellFormed(fst, inputs) && Routed(opts, fst, lff, relevant, inputs, |inputs|, parts)
    requires p in parts && k < |Holders(opts, fst, lff, relevant, inputs, |inputs|, p)|
    ensures |parts[p]| > 0 && p != 0
    ensures Holders(opts, fst, lff, relevant, inputs, |inputs|, p)[k] < |inputs|
    ensures exists w | w in Outputs(fst, lff, inputs[Holders(opts, fst, lff, relevant, inputs, |inputs|, p)[k]], 0, fst.initial)
              :: Pivots.Pivot(w) == p
  {
    var has := HasPivot(opts, fst, lff, relevant, inputs);
    var h := Holders(opts, fst, lff, relevant, inputs, |inputs|, p);
    Routing.HoldersMeaning(has, |inputs|, p);
    assert h[k] in h;
    assert has(p, h[k]);
    SequencePivotsMeaning(fst, lff, inputs[h[k]], p);
  }
}
